/** The "car uses part" relation and the bipartite graph built from it
    (build_bipartite_graph), with the node operations the analyses use:
    neighbours, degree and node removal on a working copy. */
module Bipartite {

  /** The fixed dataset: car names and part names in catalog order, and the
      set of (car, part) usage pairs. */
  datatype Catalog = Catalog(cars: seq<string>, parts: seq<string>, uses: set<(string, string)>)
  {
    /** Names are unique, no name is both a car and a part, and every usage
        pair references a listed car and a listed part. */
    predicate WellFormed() {
      && Distinct(cars)
      && Distinct(parts)
      && (forall c :: c in cars ==> c !in parts)
      && (forall u :: u in uses ==> u.0 in cars && u.1 in parts)
    }
  }

  /** The bipartite graph B: car nodes and part nodes in insertion order, and
      its undirected car–part edges, each stored as (car, part). */
  datatype Graph = Graph(cars: seq<string>, parts: seq<string>, edges: set<(string, string)>)
  {
    /** The bipartite invariant: distinct node names on each side, disjoint
        sides, and every edge joins a car node to a part node. */
    predicate Valid() {
      && Distinct(cars)
      && Distinct(parts)
      && (forall c :: c in cars ==> c !in parts)
      && (forall e :: e in edges ==> e.0 in cars && e.1 in parts)
    }
  }

  predicate Distinct(s: seq<string>) {
    forall i, j :: 0 <= i < j < |s| ==> s[i] != s[j]
  }

  /** n is a node of the graph. */
  predicate IsNode(g: Graph, n: string) {
    n in g.cars || n in g.parts
  }

  /** The node set of B. */
  function NodeSet(g: Graph): set<string> {
    (set c | c in g.cars) + (set p | p in g.parts)
  }

  /** A graph the analyses may be given for a catalog: a valid bipartite
      graph whose car nodes are exactly the catalog's cars (the built graph
      and every copy of it with part nodes removed). */
  predicate Fits(cat: Catalog, g: Graph) {
    g.Valid() && g.cars == cat.cars
  }

  /** build_bipartite_graph: car nodes, then part nodes, then the usage
      edges. */
  function BuildBipartite(cat: Catalog): (g: Graph)
    requires cat.WellFormed()
    ensures g.edges == cat.uses
    ensures forall n :: IsNode(g, n) <==> n in cat.cars || n in cat.parts
  {
    Graph(cat.cars, cat.parts, cat.uses)
  }

  /** The built graph fits its catalog and has one node per listed car and
      per listed part. */
  lemma BuildBipartiteNodes(cat: Catalog)
    requires cat.WellFormed()
    ensures Fits(cat, BuildBipartite(cat))
    ensures |NodeSet(BuildBipartite(cat))| == |cat.cars| + |cat.parts|
  {
    var g := BuildBipartite(cat);
    DistinctCard(g.cars);
    DistinctCard(g.parts);
    assert (set c | c in g.cars) * (set p | p in g.parts) == {};
  }

  /** A sequence of distinct names has as many elements as its set. */
  lemma {:induction false} DistinctCard(s: seq<string>)
    requires Distinct(s)
    ensures |set x | x in s| == |s|
  {
    if s != [] {
      var t := s[..|s| - 1];
      assert Distinct(t);
      DistinctCard(t);
      assert (set x | x in s) == (set x | x in t) + {s[|s| - 1]};
      assert s[|s| - 1] !in t;
    }
  }

  /** Position of a name in a sequence (its first occurrence). */
  function IndexOf(s: seq<string>, x: string): (k: nat)
    requires x in s
    ensures k < |s| && s[k] == x
    ensures forall j :: 0 <= j < k ==> s[j] != x
  {
    if s[0] == x then 0 else 1 + IndexOf(s[1..], x)
  }

  /** The sequence with every occurrence of x taken out, order kept. */
  function Without(s: seq<string>, x: string): (r: seq<string>)
    ensures forall y :: y in r <==> y in s && y != x
    ensures |r| <= |s|
    ensures x !in s ==> r == s
    ensures Distinct(s) ==> Distinct(r)
  {
    if s == [] then []
    else if s[0] == x then Without(s[1..], x)
    else
      var rest := Without(s[1..], x);
      assert Distinct(s) ==> s[0] !in rest;
      [s[0]] + rest
  }

  /** B.neighbors(n): the nodes joined to n by an edge. */
  function Neighbors(g: Graph, n: string): set<string> {
    (set e | e in g.edges && e.0 == n :: e.1) + (set e | e in g.edges && e.1 == n :: e.0)
  }

  /** The edges incident to n. */
  function Incident(g: Graph, n: string): set<(string, string)> {
    set e | e in g.edges && (e.0 == n || e.1 == n)
  }

  /** B.degree(n): the number of edges incident to n. */
  function Degree(g: Graph, n: string): nat {
    |Incident(g, n)|
  }

  /** The degree of a part node is the number of distinct cars using it. */
  lemma PartDegreeIsUserCount(g: Graph, p: string)
    requires g.Valid() && p in g.parts
    ensures Degree(g, p) == |Neighbors(g, p)|
    ensures Neighbors(g, p) == set c | c in g.cars && (c, p) in g.edges
  {
    var users := set c | c in g.cars && (c, p) in g.edges;
    assert Neighbors(g, p) == users;
    assert Incident(g, p) == set c | c in users :: (c, p);
    PairsCard(users, p);
  }

  lemma {:induction false} PairsCard(s: set<string>, p: string)
    ensures |set c | c in s :: (c, p)| == |s|
  {
    if s != {} {
      var x :| x in s;
      PairsCard(s - {x}, p);
      assert (set c | c in s :: (c, p)) == (set c | c in s - {x} :: (c, p)) + {(x, p)};
    }
  }

  /** A subset is no larger than its superset. */
  lemma SubsetCard<T>(a: set<T>, b: set<T>)
    requires a <= b
    ensures |a| <= |b|
  {
    assert b == a + (b - a);
    assert a * (b - a) == {};
  }

  /** Updating a union of maps updates its right operand. */
  lemma UnionUpdate<K, V>(a: map<K, V>, b: map<K, V>, k: K, v: V)
    ensures (a + b)[k := v] == a + b[k := v]
  {
  }

  /** The edges with at least one end in s. */
  function Touching(g: Graph, s: seq<string>): set<(string, string)> {
    set e | e in g.edges && (e.0 in s || e.1 in s)
  }

  /** One more node adds the edges at it. */
  lemma TouchingAppend(g: Graph, t: seq<string>, x: string)
    ensures Touching(g, t + [x]) == Touching(g, t) + Incident(g, x)
  {
    forall e ensures e in Touching(g, t + [x]) <==> e in Touching(g, t) + Incident(g, x) {
      assert e.0 in t + [x] <==> e.0 in t || e.0 == x;
      assert e.1 in t + [x] <==> e.1 in t || e.1 == x;
    }
  }

  /** The sum of B.degree over a sequence of nodes. */
  function DegreeSum(g: Graph, s: seq<string>): nat {
    if s == [] then 0 else DegreeSum(g, s[..|s| - 1]) + Degree(g, s[|s| - 1])
  }

  /** Over distinct nodes no two of which are joined, the degrees add up to
      the number of edges touching those nodes. */
  lemma {:induction false} DegreeSumTouching(g: Graph, s: seq<string>)
    requires Distinct(s)
    requires forall e :: e in g.edges ==> !(e.0 in s && e.1 in s)
    ensures DegreeSum(g, s) == |Touching(g, s)|
  {
    if s != [] {
      var t, x := s[..|s| - 1], s[|s| - 1];
      assert s == t + [x];
      assert Distinct(t);
      assert x !in t;
      DegreeSumTouching(g, t);
      TouchingAppend(g, t, x);
      assert Touching(g, t) * Incident(g, x) == {};
    }
  }

  /** Every edge has exactly one car end, so the car degrees sum to |E|. */
  lemma CarDegreeSum(g: Graph)
    requires g.Valid()
    ensures DegreeSum(g, g.cars) == |g.edges|
  {
    DegreeSumTouching(g, g.cars);
    assert Touching(g, g.cars) == g.edges;
  }

  /** Every edge has exactly one part end, so the part degrees sum to |E|. */
  lemma PartDegreeSum(g: Graph)
    requires g.Valid()
    ensures DegreeSum(g, g.parts) == |g.edges|
  {
    DegreeSumTouching(g, g.parts);
    assert Touching(g, g.parts) == g.edges;
  }

  /** remove_node(n): n leaves its side's node list and all edges at n go. */
  function RemoveNode(g: Graph, n: string): (r: Graph)
    ensures g.Valid() ==> r.Valid()
    ensures forall m :: IsNode(r, m) <==> IsNode(g, m) && m != n
    ensures forall e :: e in r.edges <==> e in g.edges && e.0 != n && e.1 != n
  {
    Graph(Without(g.cars, n), Without(g.parts, n), set e | e in g.edges && e.0 != n && e.1 != n)
  }

  /** Removal takes exactly that name out of the node set. */
  lemma RemoveNodeSet(g: Graph, n: string)
    ensures NodeSet(RemoveNode(g, n)) == NodeSet(g) - {n}
  {
    var r := RemoveNode(g, n);
    forall m ensures m in NodeSet(r) <==> m in NodeSet(g) - {n} {
      assert m in NodeSet(r) <==> IsNode(r, m);
      assert m in NodeSet(g) <==> IsNode(g, m);
    }
  }

  /** Removing a name that is not a node leaves a valid graph unchanged. */
  lemma RemoveAbsent(g: Graph, n: string)
    requires g.Valid() && !IsNode(g, n)
    ensures RemoveNode(g, n) == g
  {
    assert (set e | e in g.edges && e.0 != n && e.1 != n) == g.edges;
  }

  /** Removing a name that is not a car keeps a graph fitting the catalog. */
  lemma RemoveKeepsFit(cat: Catalog, g: Graph, n: string)
    requires Fits(cat, g) && n !in cat.cars
    ensures Fits(cat, RemoveNode(g, n))
  {
  }

  /** remove_nodes_from(ns): each listed name in turn, absent ones skipped;
      the nodes left are those not listed. */
  function RemoveNodes(g: Graph, ns: seq<string>): (r: Graph)
    ensures g.Valid() ==> r.Valid()
    ensures NodeSet(r) == NodeSet(g) - (set x | x in ns)
    decreases |ns|
  {
    if ns == [] then g
    else
      RemoveNodeSet(g, ns[0]);
      assert (set x | x in ns) == {ns[0]} + (set x | x in ns[1..]);
      RemoveNodes(RemoveNode(g, ns[0]), ns[1..])
  }

  /** Removing a list of non-car names keeps the car nodes and keeps exactly
      the edges whose part is not listed. */
  lemma {:induction false} RemoveNodesEdges(cat: Catalog, g: Graph, ns: seq<string>)
    requires Fits(cat, g)
    requires forall k :: 0 <= k < |ns| ==> ns[k] !in cat.cars
    ensures Fits(cat, RemoveNodes(g, ns))
    ensures forall e :: e in RemoveNodes(g, ns).edges <==> e in g.edges && e.1 !in ns
    decreases |ns|
  {
    if ns != [] {
      RemoveKeepsFit(cat, g, ns[0]);
      RemoveNodesEdges(cat, RemoveNode(g, ns[0]), ns[1..]);
      forall e {:trigger e in RemoveNodes(g, ns).edges}
        ensures e in RemoveNodes(g, ns).edges <==> e in g.edges && e.1 !in ns
      {
        assert e.1 in ns <==> e.1 == ns[0] || e.1 in ns[1..];
        assert e in g.edges ==> e.0 in cat.cars;
      }
    }
  }
}
