/** build_projected_graph and get_degrees: the car–car graph P in which two
    cars are linked when they share parts, weighted by how many they share. */
module Projection {
  import opened Bipartite
  import opened Ranking

  /** The data of one projected edge: its weight and its shared parts. */
  datatype Link = Link(weight: nat, shared: set<string>)

  /** P: car nodes in insertion order and its edges, each keyed (u, v) in
      the orientation it was added. */
  datatype CarGraph = CarGraph(nodes: seq<string>, links: map<(string, string), Link>)

  /** u and v are joined by an edge of P (the graph is undirected). */
  predicate Linked(p: CarGraph, u: string, v: string) {
    (u, v) in p.links || (v, u) in p.links
  }

  /** The parts two nodes of B both use. */
  function Shared(g: Graph, u: string, v: string): set<string> {
    Neighbors(g, u) * Neighbors(g, v)
  }

  /** u comes strictly before v in the car list. */
  predicate Precedes(cars: seq<string>, u: string, v: string) {
    u in cars && v in cars && IndexOf(cars, u) < IndexOf(cars, v)
  }

  /** The edges the inner loop adds for car i, over partners i < j' < j. */
  function Row(cars: seq<string>, g: Graph, i: nat, j: nat): map<(string, string), Link>
    requires i < j <= |cars|
    decreases j
  {
    if j == i + 1 then map[]
    else
      var m := Row(cars, g, i, j - 1);
      var s := Shared(g, cars[i], cars[j - 1]);
      if s != {} then m[(cars[i], cars[j - 1]) := Link(|s|, s)] else m
  }

  /** The edges the outer loop has added after its first i rounds. */
  function Rows(cars: seq<string>, g: Graph, i: nat): map<(string, string), Link>
    requires i <= |cars|
  {
    if i == 0 then map[] else Rows(cars, g, i - 1) + Row(cars, g, i - 1, |cars|)
  }

  /** Every catalog car is a car node of B (B.neighbors fails otherwise). */
  predicate CarsPresent(cat: Catalog, g: Graph) {
    forall c :: c in cat.cars ==> c in g.cars
  }

  /** The projection of B over the catalog's cars. */
  function Projected(cat: Catalog, g: Graph): CarGraph {
    CarGraph(cat.cars, Rows(cat.cars, g, |cat.cars|))
  }

  /** build_projected_graph: every car is a node; each pair i < j of cars
      whose part sets intersect gets an edge carrying the intersection. */
  method BuildProjectedGraph(cat: Catalog, g: Graph) returns (p: CarGraph)
    requires CarsPresent(cat, g)
    ensures p == Projected(cat, g)
  {
    var cars := cat.cars;
    var links: map<(string, string), Link> := map[];
    for i := 0 to |cars|
      invariant links == Rows(cars, g, i)
    {
      links := AddCarEdges(cars, g, i, links);
    }
    p := CarGraph(cars, links);
  }

  /** The inner loop of build_projected_graph for car i: the edges from
      cars[i] to each later car it shares parts with. */
  method AddCarEdges(cars: seq<string>, g: Graph, i: nat, links0: map<(string, string), Link>)
    returns (links: map<(string, string), Link>)
    requires i < |cars|
    ensures links == links0 + Row(cars, g, i, |cars|)
  {
    links := links0;
    var u := cars[i];
    var uParts := Neighbors(g, u);
    for j := i + 1 to |cars|
      invariant links == links0 + Row(cars, g, i, j)
    {
      var v := cars[j];
      var vParts := Neighbors(g, v);
      var shared := uParts * vParts;
      RowStep(cars, g, i, j);
      if shared != {} {
        UnionUpdate(links0, Row(cars, g, i, j), (u, v), Link(|shared|, shared));
        links := links[(u, v) := Link(|shared|, shared)];
      }
    }
  }

  /** Partner j joins row i exactly when the two cars share a part. */
  lemma RowStep(cars: seq<string>, g: Graph, i: nat, j: nat)
    requires i < j < |cars|
    ensures Row(cars, g, i, j + 1) ==
      var s := Shared(g, cars[i], cars[j]);
      if s != {} then Row(cars, g, i, j)[(cars[i], cars[j]) := Link(|s|, s)] else Row(cars, g, i, j)
  {
  }

  lemma IndexOfDistinct(s: seq<string>, k: nat)
    requires Distinct(s) && k < |s|
    ensures IndexOf(s, s[k]) == k
  {
  }

  /** The edges of one row: from car i to each later car before j with
      which it shares a part, carrying the shared parts. */
  lemma {:induction false} RowEdges(cars: seq<string>, g: Graph, i: nat, j: nat)
    requires Distinct(cars) && i < j <= |cars|
    ensures forall u, v :: (u, v) in Row(cars, g, i, j) <==>
      u == cars[i] && v in cars && i < IndexOf(cars, v) < j && Shared(g, u, v) != {}
    ensures forall u, v :: (u, v) in Row(cars, g, i, j) ==>
      Row(cars, g, i, j)[(u, v)] == Link(|Shared(g, u, v)|, Shared(g, u, v))
    decreases j
  {
    if j > i + 1 {
      RowEdges(cars, g, i, j - 1);
      IndexOfDistinct(cars, j - 1);
      forall v | v in cars
        ensures v == cars[j - 1] <==> IndexOf(cars, v) == j - 1
      {
      }
    }
  }

  /** The edges after i rounds: between u and a later v, for u among the
      first i cars, exactly when they share a part. */
  lemma {:induction false} RowsEdges(cars: seq<string>, g: Graph, i: nat)
    requires Distinct(cars) && i <= |cars|
    ensures forall u, v :: (u, v) in Rows(cars, g, i) <==>
      Precedes(cars, u, v) && IndexOf(cars, u) < i && Shared(g, u, v) != {}
    ensures forall u, v :: (u, v) in Rows(cars, g, i) ==>
      Rows(cars, g, i)[(u, v)] == Link(|Shared(g, u, v)|, Shared(g, u, v))
  {
    if i > 0 {
      RowsEdges(cars, g, i - 1);
      RowEdges(cars, g, i - 1, |cars|);
      IndexOfDistinct(cars, i - 1);
      forall u | u in cars
        ensures u == cars[i - 1] <==> IndexOf(cars, u) == i - 1
      {
      }
    }
  }

  /** The edges of P: (u, v) is an edge exactly when u precedes v in the
      catalog and they share a part; it carries weight |shared| and the
      shared parts. */
  lemma ProjectionEdges(cat: Catalog, g: Graph)
    requires Fits(cat, g)
    ensures Projected(cat, g).nodes == cat.cars
    ensures forall u, v :: (u, v) in Projected(cat, g).links <==>
      Precedes(cat.cars, u, v) && Shared(g, u, v) != {}
    ensures forall u, v :: (u, v) in Projected(cat, g).links ==>
      Projected(cat, g).links[(u, v)] == Link(|Shared(g, u, v)|, Shared(g, u, v))
  {
    RowsEdges(cat.cars, g, |cat.cars|);
  }

  /** Cars u and v are adjacent in P iff they are distinct catalog cars
      whose part sets intersect; no car is linked to itself; every edge has
      weight at least 1 and equal to the number of shared parts. */
  lemma ProjectionAdjacency(cat: Catalog, g: Graph, u: string, v: string)
    requires Fits(cat, g)
    ensures Linked(Projected(cat, g), u, v) <==>
      u in cat.cars && v in cat.cars && u != v && Shared(g, u, v) != {}
    ensures (u, u) !in Projected(cat, g).links
    ensures (u, v) in Projected(cat, g).links ==>
      (v, u) !in Projected(cat, g).links &&
      Projected(cat, g).links[(u, v)].weight == |Shared(g, u, v)| >= 1
  {
    ProjectionEdges(cat, g);
    assert Shared(g, u, v) == Shared(g, v, u);
  }

  /** A two-car catalog: X uses a and b, Y uses a, b and c. */
  const TwoCars := Catalog(["X", "Y"], ["a", "b", "c"],
                           {("X", "a"), ("X", "b"), ("Y", "a"), ("Y", "b"), ("Y", "c")})

  /** The two-car catalog is well formed. */
  lemma TwoCarsWellFormed()
    ensures TwoCars.WellFormed()
  {
    var cat := TwoCars;
    assert cat.cars[0] == "X" && cat.cars[1] == "Y";
    assert forall c :: c in cat.cars ==> c == "X" || c == "Y";
    assert forall u :: u in cat.uses ==> u.0 in {"X", "Y"} && u.1 in {"a", "b", "c"};
  }

  lemma TwoCarsParts()
    ensures Neighbors(BuildBipartite(TwoCars), "X") == {"a", "b"}
    ensures Neighbors(BuildBipartite(TwoCars), "Y") == {"a", "b", "c"}
  {
    TwoCarsWellFormed();
    EdgesNeighbors(BuildBipartite(TwoCars));
  }

  /** The neighbour sets of X and Y in any graph with the two-car usage
      pairs as its edges. */
  lemma EdgesNeighbors(g: Graph)
    requires g.edges == TwoCars.uses
    ensures Neighbors(g, "X") == {"a", "b"}
    ensures Neighbors(g, "Y") == {"a", "b", "c"}
  {
    assert (set e | e in g.edges && e.1 == "X" :: e.0) == {};
    assert (set e | e in g.edges && e.0 == "X" :: e.1) == {"a", "b"} by {
      assert ("X", "a") in g.edges && ("X", "b") in g.edges;
    }
    assert (set e | e in g.edges && e.1 == "Y" :: e.0) == {};
    assert (set e | e in g.edges && e.0 == "Y" :: e.1) == {"a", "b", "c"} by {
      assert ("Y", "a") in g.edges && ("Y", "b") in g.edges && ("Y", "c") in g.edges;
    }
  }

  /** The worked example: two cars sharing exactly {a, b} give one edge, of
      weight 2, carrying {a, b}. */
  lemma TwoSharedParts()
    ensures Projected(TwoCars, BuildBipartite(TwoCars)).links == map[("X", "Y") := Link(2, {"a", "b"})]
  {
    TwoCarsWellFormed();
    var g := BuildBipartite(TwoCars);
    TwoCarsParts();
    var s := Shared(g, "X", "Y");
    assert s == {"a", "b"};
    assert |s| == 2;
    PairRows(TwoCars.cars, g);
  }

  /** Over two cars the only possible edge is between them. */
  lemma PairRows(cars: seq<string>, g: Graph)
    requires |cars| == 2
    ensures Rows(cars, g, 2) ==
      var s := Shared(g, cars[0], cars[1]);
      if s != {} then map[(cars[0], cars[1]) := Link(|s|, s)] else map[]
  {
    RowStep(cars, g, 0, 1);
    assert Rows(cars, g, 1) == Row(cars, g, 0, 2);
    assert Row(cars, g, 1, 2) == map[];
  }

  /** Removing a node that is not a car can only remove edges of P. */
  lemma ProjectionShrinks(cat: Catalog, g: Graph, n: string, u: string, v: string)
    requires Fits(cat, g) && n !in cat.cars
    ensures Projected(cat, RemoveNode(g, n)).nodes == Projected(cat, g).nodes
    ensures Linked(Projected(cat, RemoveNode(g, n)), u, v) ==> Linked(Projected(cat, g), u, v)
  {
    var h := RemoveNode(g, n);
    RemoveKeepsFit(cat, g, n);
    ProjectionAdjacency(cat, g, u, v);
    ProjectionAdjacency(cat, h, u, v);
    assert Neighbors(h, u) <= Neighbors(g, u);
    assert Neighbors(h, v) <= Neighbors(g, v);
  }

  /** The degree of a node of P: the number of nodes it is linked to. */
  function CarDegree(p: CarGraph, u: string): nat {
    |set v | v in p.nodes && Linked(p, u, v)|
  }

  /** (node, degree) for the given nodes of P, in their order (G.degree). */
  function DegreeTableOf(ns: seq<string>, p: CarGraph): (t: seq<(string, nat)>)
    ensures |t| == |ns|
    ensures forall i :: 0 <= i < |t| ==> t[i] == (ns[i], CarDegree(p, ns[i]))
  {
    if ns == [] then [] else DegreeTableOf(ns[..|ns| - 1], p) + [(ns[|ns| - 1], CarDegree(p, ns[|ns| - 1]))]
  }

  /** get_degrees: the (node, degree) pairs sorted by non-increasing
      degree, nodes of equal degree in node order. */
  function GetDegrees(p: CarGraph): (r: seq<(string, nat)>)
    ensures |r| == |p.nodes|
    ensures NonIncreasing(r)
    ensures multiset(r) == multiset(DegreeTableOf(p.nodes, p))
    ensures forall s :: WithScore(r, s) == WithScore(DegreeTableOf(p.nodes, p), s)
  {
    SortByScore(DegreeTableOf(p.nodes, p))
  }

  /** In the projection, a car's degree counts the other cars it shares a
      part with. */
  lemma ProjectionDegree(cat: Catalog, g: Graph, u: string)
    requires Fits(cat, g)
    ensures CarDegree(Projected(cat, g), u) ==
      |set v | v in cat.cars && v != u && Shared(g, u, v) != {}|
  {
    var p := Projected(cat, g);
    forall v ensures v in p.nodes && Linked(p, u, v) <==> v in cat.cars && v != u && Shared(g, u, v) != {} {
      ProjectionAdjacency(cat, g, u, v);
      if v in cat.cars && v != u && Shared(g, u, v) != {} {
        assert u in cat.cars;
      }
    }
    assert (set v | v in p.nodes && Linked(p, u, v)) ==
           (set v | v in cat.cars && v != u && Shared(g, u, v) != {});
  }
}
