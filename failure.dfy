/** The failure simulations: one part (simulate_part_failure), several parts
    at once (simulate_supplier_collapse) and parts failing one after the
    other (simulate_cumulative_failure). The caller's B is a value here, so
    the copies the source works on leave it untouched by construction. */
module Failure {
  import opened Bipartite
  import opened Projection
  import opened Components

  // ---- simulate_part_failure

  /** The cars using a part that is a node, and the share of the catalog's
      cars they make up; ({}, 0) for a name that is not a node. */
  function SimulatePartFailure(cat: Catalog, g: Graph, part: string): (r: (set<string>, real))
    ensures !IsNode(g, part) ==> r == ({}, 0.0)
    ensures IsNode(g, part) ==> r.0 == Neighbors(g, part)
    ensures |cat.cars| > 0 ==> r.1 * (|cat.cars| as real) == |r.0| as real
    ensures |cat.cars| == 0 ==> r.1 == 0.0
  {
    if !IsNode(g, part) then ({}, 0.0)
    else
      var affected := Neighbors(g, part);
      var severity := if |cat.cars| > 0 then (|affected| as real) / (|cat.cars| as real) else 0.0;
      (affected, severity)
  }

  /** For a part of a graph fitting the catalog, the affected cars are exactly
      the catalog cars using it, the severity lies in [0, 1], and it is 1
      exactly when every car uses the part. */
  lemma PartFailureOfPart(cat: Catalog, g: Graph, part: string)
    requires Fits(cat, g) && part in g.parts
    ensures SimulatePartFailure(cat, g, part).0 == set c | c in cat.cars && (c, part) in g.edges
    ensures 0.0 <= SimulatePartFailure(cat, g, part).1 <= 1.0
    ensures |cat.cars| > 0 ==>
      (SimulatePartFailure(cat, g, part).1 == 1.0 <==> forall c :: c in cat.cars ==> (c, part) in g.edges)
  {
    var r := SimulatePartFailure(cat, g, part);
    var users := set c | c in cat.cars && (c, part) in g.edges;
    assert r.0 == users by {
      PartDegreeIsUserCount(g, part);
    }
    var all := set c | c in cat.cars;
    DistinctCard(cat.cars);
    SubsetCard(users, all);
    if |cat.cars| > 0 {
      Ratio(|users|, |cat.cars|);
      assert r.1 == (|users| as real) / (|cat.cars| as real);
      if |users| == |cat.cars| {
        SameCard(users, all);
        assert forall c :: c in cat.cars ==> c in users;
      }
      if forall c :: c in cat.cars ==> (c, part) in g.edges {
        assert users == all;
        assert |users| == |cat.cars|;
      }
    }
  }

  /** A share a/b of a whole b lies in [0, 1] and is 1 only for a == b. */
  lemma Ratio(a: nat, b: nat)
    requires 0 < b && a <= b
    ensures 0.0 <= (a as real) / (b as real) <= 1.0
    ensures (a as real) / (b as real) == 1.0 <==> a == b
  {
  }

  /** A subset with as many elements as the whole is the whole. */
  lemma SameCard(a: set<string>, b: set<string>)
    requires a <= b && |a| == |b|
    ensures a == b
  {
    assert b == a + (b - a);
    assert a * (b - a) == {};
  }

  // ---- simulate_supplier_collapse

  /** simulate_supplier_collapse: the projection of B with the listed names
      removed, its number of components and its giant component size; both
      counts lie between 1 and the number of cars when there are cars. The
      source's build_projected_graph needs every catalog car to survive. */
  method SimulateSupplierCollapse(cat: Catalog, g: Graph, failing: seq<string>)
    returns (count: nat, giant: nat, damaged: CarGraph)
    requires CarsPresent(cat, RemoveNodes(g, failing))
    ensures damaged == Projected(cat, RemoveNodes(g, failing))
    ensures count == ComponentCount(damaged) && giant == GiantSize(damaged)
    ensures giant <= |cat.cars| && count <= |cat.cars|
    ensures |cat.cars| > 0 ==> giant >= 1 && count >= 1
    ensures |cat.cars| == 0 ==> giant == 0 && count == 0
  {
    var gDamaged := RemoveNodes(g, failing);
    damaged := BuildProjectedGraph(cat, gDamaged);
    count := ComponentCount(damaged);
    giant := if |damaged.nodes| > 0 then GiantSize(damaged) else 0;
    GiantBounds(damaged);
    ComponentCountBounds(damaged);
  }

  /** Fewer usage edges give a projection with only a subset of the edges. */
  lemma ProjectionSub(cat: Catalog, g: Graph, h: Graph)
    requires Fits(cat, g) && Fits(cat, h) && h.edges <= g.edges
    ensures SubGraph(Projected(cat, h), Projected(cat, g))
  {
    forall u, v | Linked(Projected(cat, h), u, v) ensures Linked(Projected(cat, g), u, v) {
      ProjectionAdjacency(cat, g, u, v);
      ProjectionAdjacency(cat, h, u, v);
      assert Shared(g, u, v) >= Shared(h, u, v);
    }
  }

  /** After a supplier collapse two cars stay linked exactly when they share
      a part outside the failed list, and the giant component is no larger
      than before. */
  lemma CollapseEffect(cat: Catalog, g: Graph, failing: seq<string>, u: string, v: string)
    requires Fits(cat, g)
    requires forall k :: 0 <= k < |failing| ==> failing[k] !in cat.cars
    ensures Linked(Projected(cat, RemoveNodes(g, failing)), u, v) <==>
      u in cat.cars && v in cat.cars && u != v && exists p :: p in Shared(g, u, v) && p !in failing
    ensures GiantSize(Projected(cat, RemoveNodes(g, failing))) <= GiantSize(Projected(cat, g))
  {
    var h := RemoveNodes(g, failing);
    RemoveNodesEdges(cat, g, failing);
    ProjectionAdjacency(cat, h, u, v);
    if u in cat.cars && v in cat.cars {
      CarNeighborsAfter(cat, g, failing, u);
      CarNeighborsAfter(cat, g, failing, v);
      assert forall p :: p in Shared(h, u, v) <==> p in Shared(g, u, v) && p !in failing;
    }
    ProjectionSub(cat, g, h);
    GiantMonotone(Projected(cat, h), Projected(cat, g));
  }

  /** After removing non-car names, a car keeps exactly its unlisted parts. */
  lemma CarNeighborsAfter(cat: Catalog, g: Graph, failing: seq<string>, u: string)
    requires Fits(cat, g) && u in cat.cars
    requires forall k :: 0 <= k < |failing| ==> failing[k] !in cat.cars
    ensures forall p :: p in Neighbors(RemoveNodes(g, failing), u) <==> p in Neighbors(g, u) && p !in failing
  {
    var h := RemoveNodes(g, failing);
    RemoveNodesEdges(cat, g, failing);
    assert (set e | e in h.edges && e.1 == u :: e.0) == {};
    assert (set e | e in g.edges && e.1 == u :: e.0) == {};
    forall p ensures p in Neighbors(h, u) <==> p in Neighbors(g, u) && p !in failing {
      if p in Neighbors(g, u) && p !in failing {
        assert (u, p) in h.edges;
      }
    }
  }

  // ---- simulate_cumulative_failure

  /** One record of the cumulative simulation: parts failed so far, nodes of
      the rebuilt projection, giant component size. */
  datatype Step = Step(failed: nat, carsRemaining: nat, giant: nat)

  /** len(P): the number of distinct nodes of P. */
  function NodeCount(p: CarGraph): nat {
    |NodeSetOf(p)|
  }

  /** The giant component size of the projection of h, 0 without cars. */
  function GiantOf(cat: Catalog, h: Graph): nat {
    if |cat.cars| > 0 then GiantSize(Projected(cat, h)) else 0
  }

  /** The record appended once n parts have failed and h is what is left. */
  function Record(cat: Catalog, h: Graph, n: nat): Step {
    Step(n, NodeCount(Projected(cat, h)), GiantOf(cat, h))
  }

  /** The working copies of B after each removal that happens, starting
      from g: a listed name that is still a node is removed, any other name
      is skipped. */
  function Trail(g: Graph, parts: seq<string>): seq<Graph>
    decreases |parts|
  {
    if parts == [] then []
    else if IsNode(g, parts[0]) then
      var h := RemoveNode(g, parts[0]);
      [h] + Trail(h, parts[1..])
    else Trail(g, parts[1..])
  }

  /** One record per working copy, the k-th after n + k + 1 failures. */
  function Records(cat: Catalog, ts: seq<Graph>, n: nat): seq<Step> {
    seq(|ts|, k requires 0 <= k < |ts| => Record(cat, ts[k], n + k + 1))
  }

  /** The records appended for the remaining list, starting from graph g
      with n parts failed. */
  function Cascade(cat: Catalog, g: Graph, parts: seq<string>, n: nat): seq<Step> {
    Records(cat, Trail(g, parts), n)
  }

  /** The first record: nothing failed, every car, the undamaged giant. */
  function Initial(cat: Catalog, g: Graph): Step {
    Step(0, |cat.cars|, GiantOf(cat, g))
  }

  lemma RecordsCons(cat: Catalog, h: Graph, ts: seq<Graph>, n: nat)
    ensures Records(cat, [h] + ts, n) == [Record(cat, h, n + 1)] + Records(cat, ts, n + 1)
  {
    var a, b := Records(cat, [h] + ts, n), [Record(cat, h, n + 1)] + Records(cat, ts, n + 1);
    assert |a| == |b|;
    forall k | 0 <= k < |a| ensures a[k] == b[k] {
      RecordsAt(cat, [h] + ts, n, k);
      if k > 0 {
        RecordsAt(cat, ts, n + 1, k - 1);
        assert ([h] + ts)[k] == ts[k - 1];
      }
    }
  }

  /** One round of the loop: a name still in the working copy is removed and
      recorded, any other name adds nothing. */
  lemma CascadeStep(cat: Catalog, g: Graph, parts: seq<string>, n: nat)
    requires parts != []
    ensures IsNode(g, parts[0]) ==>
      Cascade(cat, g, parts, n) ==
      [Record(cat, RemoveNode(g, parts[0]), n + 1)] + Cascade(cat, RemoveNode(g, parts[0]), parts[1..], n + 1)
    ensures !IsNode(g, parts[0]) ==> Cascade(cat, g, parts, n) == Cascade(cat, g, parts[1..], n)
  {
    if IsNode(g, parts[0]) {
      var h := RemoveNode(g, parts[0]);
      RecordsCons(cat, h, Trail(h, parts[1..]), n);
    }
  }

  /** simulate_cumulative_failure: the initial record followed by one record
      per listed part removed from the working copy. */
  method SimulateCumulativeFailure(cat: Catalog, g: Graph, parts: seq<string>) returns (stats: seq<Step>)
    requires CarsPresent(cat, g)
    requires forall k :: 0 <= k < |parts| ==> parts[k] !in cat.cars
    ensures stats == [Initial(cat, g)] + Cascade(cat, g, parts, 0)
  {
    var totalCars := |cat.cars|;
    var p0 := BuildProjectedGraph(cat, g);
    var gSize := if |cat.cars| > 0 then GiantSize(p0) else 0;
    stats := [Step(0, totalCars, gSize)];
    var current := g;
    var failed: set<string> := {};
    for k := 0 to |parts|
      invariant CarsPresent(cat, current)
      invariant forall x :: x in failed ==> !IsNode(current, x)
      invariant forall c :: c in cat.cars ==> c !in failed
      invariant stats + Cascade(cat, current, parts[k..], |failed|) == [Initial(cat, g)] + Cascade(cat, g, parts, 0)
    {
      CascadeStep(cat, current, parts[k..], |failed|);
      assert parts[k..][1..] == parts[k + 1..];
      ghost var stats0, m := stats, |failed|;
      if IsNode(current, parts[k]) {
        var record;
        current, failed, record := FailPart(cat, current, failed, parts[k]);
        stats := stats + [record];
        assert stats + Cascade(cat, current, parts[k + 1..], m + 1) ==
          stats0 + ([record] + Cascade(cat, current, parts[k + 1..], m + 1));
      }
    }
    assert parts[|parts|..] == [];
  }

  /** One failure: remove the part from the working copy, add it to the
      failed set and record the rebuilt projection. */
  method FailPart(cat: Catalog, current: Graph, failed: set<string>, part: string)
    returns (next: Graph, failedNext: set<string>, record: Step)
    requires CarsPresent(cat, current) && part !in cat.cars && IsNode(current, part)
    requires forall x :: x in failed ==> !IsNode(current, x)
    ensures next == RemoveNode(current, part) && CarsPresent(cat, next)
    ensures failedNext == failed + {part} && |failedNext| == |failed| + 1
    ensures forall x :: x in failedNext ==> !IsNode(next, x)
    ensures record == Record(cat, next, |failed| + 1)
  {
    next := RemoveNode(current, part);
    failedNext := failed + {part};
    var p := BuildProjectedGraph(cat, next);
    var gc := if |p.nodes| > 0 then GiantSize(p) else 0;
    record := Step(|failedNext|, NodeCount(p), gc);
  }

  /** h is g with some usage edges lost, both fitting the catalog. */
  predicate Shrinks(cat: Catalog, g: Graph, h: Graph) {
    Fits(cat, g) && Fits(cat, h) && h.edges <= g.edges
  }

  /** Every working copy still fits the catalog and has a subset of the
      previous one's edges. */
  lemma {:induction false} TrailFits(cat: Catalog, g: Graph, parts: seq<string>)
    requires Fits(cat, g)
    requires forall k :: 0 <= k < |parts| ==> parts[k] !in cat.cars
    ensures Trail(g, parts) != [] ==> Shrinks(cat, g, Trail(g, parts)[0])
    ensures forall k :: 0 < k < |Trail(g, parts)| ==> Shrinks(cat, Trail(g, parts)[k - 1], Trail(g, parts)[k])
    decreases |parts|
  {
    if parts != [] {
      var x, rest := parts[0], parts[1..];
      if IsNode(g, x) {
        var h := RemoveNode(g, x);
        RemoveKeepsFit(cat, g, x);
        TrailFits(cat, h, rest);
        var t, u := Trail(g, parts), Trail(h, rest);
        assert t == [h] + u;
        forall k | 1 < k < |t| ensures Shrinks(cat, t[k - 1], t[k]) {
          assert t[k] == u[k - 1] && t[k - 1] == u[k - 2];
        }
        if |t| > 1 {
          assert t[1] == u[0];
        }
      } else {
        TrailFits(cat, g, rest);
      }
    }
  }

  /** The k-th record is the record of the k-th working copy. */
  lemma CascadeAt(cat: Catalog, g: Graph, parts: seq<string>, n: nat, k: nat)
    requires k < |Trail(g, parts)|
    ensures |Cascade(cat, g, parts, n)| == |Trail(g, parts)|
    ensures Cascade(cat, g, parts, n)[k] == Record(cat, Trail(g, parts)[k], n + k + 1)
  {
    RecordsAt(cat, Trail(g, parts), n, k);
  }

  lemma RecordsAt(cat: Catalog, ts: seq<Graph>, n: nat, k: nat)
    requires k < |ts|
    ensures |Records(cat, ts, n)| == |ts|
    ensures Records(cat, ts, n)[k] == Record(cat, ts[k], n + k + 1)
  {
  }

  /** One working copy per distinct listed name that is a node of B: absent
      and repeated names add nothing. */
  lemma {:induction false} TrailLength(g: Graph, parts: seq<string>)
    ensures |Trail(g, parts)| == |(set x | x in parts) * NodeSet(g)|
    decreases |parts|
  {
    if parts != [] {
      var x, rest := parts[0], parts[1..];
      var listed := set y | y in parts;
      var later := set y | y in rest;
      assert listed == {x} + later;
      if IsNode(g, x) {
        var h := RemoveNode(g, x);
        assert |Trail(g, parts)| == 1 + |Trail(h, rest)|;
        TrailLength(h, rest);
        RemoveNodeSet(g, x);
        ListedPresent(x, later, NodeSet(g));
      } else {
        assert Trail(g, parts) == Trail(g, rest);
        TrailLength(g, rest);
        ListedAbsent(x, later, NodeSet(g));
      }
    } else {
      assert (set x | x in parts) == {};
    }
  }

  lemma ListedPresent(x: string, later: set<string>, nodes: set<string>)
    requires x in nodes
    ensures |({x} + later) * nodes| == 1 + |later * (nodes - {x})|
  {
    var rest := later * (nodes - {x});
    assert ({x} + later) * nodes == {x} + rest;
    assert x !in rest;
  }

  lemma ListedAbsent(x: string, later: set<string>, nodes: set<string>)
    requires x !in nodes
    ensures ({x} + later) * nodes == later * nodes
  {
  }

  /** With no working copy, removing the list changes nothing. */
  lemma {:induction false} TrailEmpty(g: Graph, parts: seq<string>)
    requires g.Valid() && Trail(g, parts) == []
    ensures RemoveNodes(g, parts) == g
    decreases |parts|
  {
    if parts != [] {
      var x, rest := parts[0], parts[1..];
      assert !IsNode(g, x);
      RemoveAbsent(g, x);
      TrailEmpty(g, rest);
    }
  }

  /** The last working copy is B with the whole list removed. */
  lemma {:induction false} TrailLast(g: Graph, parts: seq<string>)
    requires g.Valid() && Trail(g, parts) != []
    ensures Trail(g, parts)[|Trail(g, parts)| - 1] == RemoveNodes(g, parts)
    decreases |parts|
  {
    var x, rest := parts[0], parts[1..];
    if IsNode(g, x) {
      var h := RemoveNode(g, x);
      var u := Trail(h, rest);
      if u != [] {
        TrailLast(h, rest);
      } else {
        TrailEmpty(h, rest);
      }
      LastOfCons(h, u, RemoveNodes(h, rest));
      assert Trail(g, parts) == [h] + u;
      assert RemoveNodes(g, parts) == RemoveNodes(h, rest);
    } else {
      assert Trail(g, parts) == Trail(g, rest);
      RemoveAbsent(g, x);
      TrailLast(g, rest);
    }
  }

  lemma LastOfCons(h: Graph, u: seq<Graph>, last: Graph)
    requires u == [] ==> h == last
    requires u != [] ==> u[|u| - 1] == last
    ensures ([h] + u)[|u|] == last
  {
    if u != [] {
      assert ([h] + u)[|u|] == u[|u| - 1];
    }
  }

  /** One record per distinct listed name that is a node of B. */
  lemma CascadeLength(cat: Catalog, g: Graph, parts: seq<string>, n: nat)
    ensures |Cascade(cat, g, parts, n)| == |(set x | x in parts) * NodeSet(g)|
  {
    TrailLength(g, parts);
  }

  /** The k-th record of the result counts k failed parts. */
  lemma FailedCounts(cat: Catalog, g: Graph, parts: seq<string>)
    ensures forall k :: 0 <= k < |[Initial(cat, g)] + Cascade(cat, g, parts, 0)| ==>
      ([Initial(cat, g)] + Cascade(cat, g, parts, 0))[k].failed == k
  {
    var c := Cascade(cat, g, parts, 0);
    var s := [Initial(cat, g)] + c;
    forall k | 0 < k < |s| ensures s[k].failed == k {
      assert s[k] == c[k - 1];
      CascadeAt(cat, g, parts, 0, k - 1);
      RecordFields(cat, Trail(g, parts)[k - 1], k);
    }
  }

  /** A record for a graph fitting the catalog keeps every car and has a
      giant component of at most the number of cars. */
  lemma RecordBounds(cat: Catalog, h: Graph, n: nat)
    requires Fits(cat, h)
    ensures Record(cat, h, n).carsRemaining == |cat.cars|
    ensures Record(cat, h, n).giant <= |cat.cars|
  {
    DistinctCard(cat.cars);
    GiantBounds(Projected(cat, h));
  }

  /** Losing usage edges never makes the giant component larger. */
  lemma RemovalGiant(cat: Catalog, g: Graph, h: Graph)
    requires Shrinks(cat, g, h)
    ensures GiantOf(cat, h) <= GiantOf(cat, g)
  {
    ProjectionSub(cat, g, h);
    GiantMonotone(Projected(cat, h), Projected(cat, g));
  }

  /** The working copies all fit the catalog. */
  lemma TrailFitsAt(cat: Catalog, g: Graph, parts: seq<string>, k: nat)
    requires Fits(cat, g)
    requires forall k :: 0 <= k < |parts| ==> parts[k] !in cat.cars
    requires k < |Trail(g, parts)|
    ensures Fits(cat, Trail(g, parts)[k])
  {
    TrailFits(cat, g, parts);
    if k > 0 {
      assert Shrinks(cat, Trail(g, parts)[k - 1], Trail(g, parts)[k]);
    } else {
      assert Shrinks(cat, g, Trail(g, parts)[0]);
    }
  }

  /** Every appended record keeps all cars and has a giant component of at
      most the number of cars. */
  lemma CascadeCars(cat: Catalog, g: Graph, parts: seq<string>, n: nat)
    requires Fits(cat, g)
    requires forall k :: 0 <= k < |parts| ==> parts[k] !in cat.cars
    ensures forall k :: 0 <= k < |Cascade(cat, g, parts, n)| ==>
      Cascade(cat, g, parts, n)[k].carsRemaining == |cat.cars| &&
      Cascade(cat, g, parts, n)[k].giant <= |cat.cars|
  {
    forall k | 0 <= k < |Cascade(cat, g, parts, n)|
      ensures Cascade(cat, g, parts, n)[k].carsRemaining == |cat.cars|
      ensures Cascade(cat, g, parts, n)[k].giant <= |cat.cars|
    {
      CarsAt(cat, g, parts, n, k);
    }
  }

  lemma CarsAt(cat: Catalog, g: Graph, parts: seq<string>, n: nat, k: nat)
    requires Fits(cat, g)
    requires forall k :: 0 <= k < |parts| ==> parts[k] !in cat.cars
    requires k < |Cascade(cat, g, parts, n)|
    ensures Cascade(cat, g, parts, n)[k].carsRemaining == |cat.cars|
    ensures Cascade(cat, g, parts, n)[k].giant <= |cat.cars|
  {
    var t := Trail(g, parts);
    assert |Cascade(cat, g, parts, n)| == |t|;
    CascadeAt(cat, g, parts, n, k);
    TrailFitsAt(cat, g, parts, k);
    RecordBounds(cat, t[k], n + k + 1);
  }

  /** Along the appended records the giant component never grows, and the
      first of them is no larger than the giant component of g. */
  lemma CascadeMonotone(cat: Catalog, g: Graph, parts: seq<string>, n: nat)
    requires Fits(cat, g)
    requires forall k :: 0 <= k < |parts| ==> parts[k] !in cat.cars
    ensures forall k :: 0 < k < |Cascade(cat, g, parts, n)| ==>
      Cascade(cat, g, parts, n)[k].giant <= Cascade(cat, g, parts, n)[k - 1].giant
    ensures |Cascade(cat, g, parts, n)| > 0 ==> Cascade(cat, g, parts, n)[0].giant <= GiantOf(cat, g)
  {
    forall k | 0 < k < |Cascade(cat, g, parts, n)|
      ensures Cascade(cat, g, parts, n)[k].giant <= Cascade(cat, g, parts, n)[k - 1].giant
    {
      MonotoneAt(cat, g, parts, n, k);
    }
    if |Cascade(cat, g, parts, n)| > 0 {
      FirstBelowStart(cat, g, parts, n);
    }
  }

  lemma MonotoneAt(cat: Catalog, g: Graph, parts: seq<string>, n: nat, k: nat)
    requires Fits(cat, g)
    requires forall k :: 0 <= k < |parts| ==> parts[k] !in cat.cars
    requires 0 < k < |Cascade(cat, g, parts, n)|
    ensures Cascade(cat, g, parts, n)[k].giant <= Cascade(cat, g, parts, n)[k - 1].giant
  {
    var t := Trail(g, parts);
    assert |Cascade(cat, g, parts, n)| == |t|;
    CascadeAt(cat, g, parts, n, k);
    CascadeAt(cat, g, parts, n, k - 1);
    TrailFits(cat, g, parts);
    RemovalGiant(cat, t[k - 1], t[k]);
  }

  lemma FirstBelowStart(cat: Catalog, g: Graph, parts: seq<string>, n: nat)
    requires Fits(cat, g)
    requires forall k :: 0 <= k < |parts| ==> parts[k] !in cat.cars
    requires 0 < |Cascade(cat, g, parts, n)|
    ensures Cascade(cat, g, parts, n)[0].giant <= GiantOf(cat, g)
  {
    var t := Trail(g, parts);
    assert |Cascade(cat, g, parts, n)| == |t|;
    CascadeAt(cat, g, parts, n, 0);
    TrailFits(cat, g, parts);
    RemovalGiant(cat, g, t[0]);
  }

  /** The whole record list: all cars remain in every record, the giant
      component size never exceeds the number of cars and never increases. */
  lemma CumulativeFailureBounds(cat: Catalog, g: Graph, parts: seq<string>)
    requires Fits(cat, g)
    requires forall k :: 0 <= k < |parts| ==> parts[k] !in cat.cars
    ensures forall k :: 0 <= k < |[Initial(cat, g)] + Cascade(cat, g, parts, 0)| ==>
      ([Initial(cat, g)] + Cascade(cat, g, parts, 0))[k].carsRemaining == |cat.cars| &&
      ([Initial(cat, g)] + Cascade(cat, g, parts, 0))[k].giant <= |cat.cars|
    ensures forall k :: 0 < k < |[Initial(cat, g)] + Cascade(cat, g, parts, 0)| ==>
      ([Initial(cat, g)] + Cascade(cat, g, parts, 0))[k].giant <=
      ([Initial(cat, g)] + Cascade(cat, g, parts, 0))[k - 1].giant
  {
    ResultBounds(cat, g, parts);
    ResultMonotone(cat, g, parts);
  }

  lemma ResultBounds(cat: Catalog, g: Graph, parts: seq<string>)
    requires Fits(cat, g)
    requires forall k :: 0 <= k < |parts| ==> parts[k] !in cat.cars
    ensures forall k :: 0 <= k < |[Initial(cat, g)] + Cascade(cat, g, parts, 0)| ==>
      ([Initial(cat, g)] + Cascade(cat, g, parts, 0))[k].carsRemaining == |cat.cars| &&
      ([Initial(cat, g)] + Cascade(cat, g, parts, 0))[k].giant <= |cat.cars|
  {
    CascadeCars(cat, g, parts, 0);
    RecordBounds(cat, g, 0);
    RecordFields(cat, g, 0);
    BoundsCons(Initial(cat, g), Cascade(cat, g, parts, 0), |cat.cars|);
  }

  /** The bounds of ResultBounds hold of x followed by c when they hold of
      x and of each record of c. */
  lemma BoundsCons(x: Step, c: seq<Step>, n: nat)
    requires x.carsRemaining == n && x.giant <= n
    requires forall k :: 0 <= k < |c| ==> c[k].carsRemaining == n && c[k].giant <= n
    ensures forall k :: 0 <= k < |[x] + c| ==> ([x] + c)[k].carsRemaining == n && ([x] + c)[k].giant <= n
  {
    forall k | 0 < k < |[x] + c| ensures ([x] + c)[k] == c[k - 1] {
    }
  }

  lemma ResultMonotone(cat: Catalog, g: Graph, parts: seq<string>)
    requires Fits(cat, g)
    requires forall k :: 0 <= k < |parts| ==> parts[k] !in cat.cars
    ensures forall k :: 0 < k < |[Initial(cat, g)] + Cascade(cat, g, parts, 0)| ==>
      ([Initial(cat, g)] + Cascade(cat, g, parts, 0))[k].giant <=
      ([Initial(cat, g)] + Cascade(cat, g, parts, 0))[k - 1].giant
  {
    var c := Cascade(cat, g, parts, 0);
    var s := [Initial(cat, g)] + c;
    CascadeMonotone(cat, g, parts, 0);
    assert s[0] == Initial(cat, g);
    forall k | 0 < k < |s| ensures s[k].giant <= s[k - 1].giant {
      assert s[k] == c[k - 1];
      if k > 1 {
        assert s[k - 1] == c[k - 2];
      }
    }
  }

  /** A cascade that records nothing leaves B as it was. */
  lemma CascadeEmpty(cat: Catalog, g: Graph, parts: seq<string>, n: nat)
    requires g.Valid() && Cascade(cat, g, parts, n) == []
    ensures RemoveNodes(g, parts) == g
  {
    assert |Cascade(cat, g, parts, n)| == |Trail(g, parts)|;
    TrailEmpty(g, parts);
  }

  /** The last record of a cascade has the giant component of a supplier
      collapse of the whole list. */
  lemma CascadeEndsInCollapse(cat: Catalog, g: Graph, parts: seq<string>, n: nat)
    requires g.Valid() && Cascade(cat, g, parts, n) != []
    ensures Cascade(cat, g, parts, n)[|Cascade(cat, g, parts, n)| - 1].giant == GiantOf(cat, RemoveNodes(g, parts))
  {
    var t, c := Trail(g, parts), Cascade(cat, g, parts, n);
    assert c == Records(cat, t, n);
    assert t != [] by {
      assert |c| == |t|;
    }
    TrailLast(g, parts);
    LastRecordGiant(cat, c, t, n, RemoveNodes(g, parts));
  }

  lemma LastRecordGiant(cat: Catalog, c: seq<Step>, ts: seq<Graph>, n: nat, last: Graph)
    requires ts != [] && c == Records(cat, ts, n) && ts[|ts| - 1] == last
    ensures |c| > 0 && c[|c| - 1].giant == GiantOf(cat, last)
  {
    RecordsAt(cat, ts, n, |ts| - 1);
    RecordFields(cat, last, n + |ts|);
  }

  lemma RecordFields(cat: Catalog, h: Graph, n: nat)
    ensures Record(cat, h, n).failed == n
    ensures Record(cat, h, n).giant == GiantOf(cat, h)
  {
  }

  /** Once every part has failed no cars share anything: each car is its own
      component, so the last giant component has size 1, not 0. */
  lemma AllPartsFailed(cat: Catalog, g: Graph, parts: seq<string>)
    requires Fits(cat, g) && |cat.cars| > 0
    requires forall k :: 0 <= k < |parts| ==> parts[k] !in cat.cars
    requires forall p :: p in g.parts ==> p in parts
    requires Cascade(cat, g, parts, 0) != []
    ensures Cascade(cat, g, parts, 0)[|Cascade(cat, g, parts, 0)| - 1].giant == 1
  {
    AllPartsRemoved(cat, g, parts);
    CascadeEndsInCollapse(cat, g, parts, 0);
    EdgelessProjection(cat, RemoveNodes(g, parts));
  }

  /** Removing every part leaves no usage edge. */
  lemma AllPartsRemoved(cat: Catalog, g: Graph, parts: seq<string>)
    requires Fits(cat, g)
    requires forall k :: 0 <= k < |parts| ==> parts[k] !in cat.cars
    requires forall p :: p in g.parts ==> p in parts
    ensures Fits(cat, RemoveNodes(g, parts)) && RemoveNodes(g, parts).edges == {}
  {
    RemoveNodesEdges(cat, g, parts);
    forall e ensures e !in RemoveNodes(g, parts).edges {
      if e in g.edges {
        assert e.1 in g.parts;
      }
    }
  }

  /** Without usage edges the projection has no edges, so its giant
      component is a single car. */
  lemma EdgelessProjection(cat: Catalog, h: Graph)
    requires Fits(cat, h) && h.edges == {} && |cat.cars| > 0
    ensures GiantOf(cat, h) == 1
  {
    var p := Projected(cat, h);
    ProjectionEdges(cat, h);
    forall k: (string, string) ensures k !in p.links {
      assert Neighbors(h, k.0) == {};
    }
    assert p.links.Keys == {};
    EdgelessGiant(p);
  }
}
