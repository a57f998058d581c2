/** Connected components of the projected graph, as nx.connected_components
    gives them: the component of u is the set of nodes reachable from u. The
    failure simulations read the size of the largest one and their number. */
module Components {
  import opened Bipartite
  import opened Projection

  function NodeSetOf(p: CarGraph): set<string> {
    set u | u in p.nodes
  }

  /** One breadth step: s together with every node linked to a node of s. */
  function Expand(p: CarGraph, s: set<string>): (r: set<string>)
    ensures s <= r
    ensures s <= NodeSetOf(p) ==> r <= NodeSetOf(p)
  {
    s + set v | v in p.nodes && exists u | u in s :: Linked(p, u, v)
  }

  /** The least set containing s that is closed under Expand. */
  function Closure(p: CarGraph, s: set<string>): (r: set<string>)
    requires s <= NodeSetOf(p)
    ensures s <= r <= NodeSetOf(p)
    decreases |NodeSetOf(p) - s|
  {
    var t := Expand(p, s);
    if t == s then s
    else
      StrictSubsetCard(NodeSetOf(p) - t, NodeSetOf(p) - s);
      Closure(p, t)
  }

  lemma StrictSubsetCard(a: set<string>, b: set<string>)
    requires a < b
    ensures |a| < |b|
  {
    assert b == a + (b - a);
    assert a * (b - a) == {};
  }

  /** The closure is closed: one more step adds nothing. */
  lemma {:induction false} ClosureClosed(p: CarGraph, s: set<string>)
    requires s <= NodeSetOf(p)
    ensures Expand(p, Closure(p, s)) == Closure(p, s)
    decreases |NodeSetOf(p) - s|
  {
    var t := Expand(p, s);
    if t != s {
      StrictSubsetCard(NodeSetOf(p) - t, NodeSetOf(p) - s);
      ClosureClosed(p, t);
    }
  }

  /** The connected component of node u. */
  function Component(p: CarGraph, u: string): (c: set<string>)
    requires u in p.nodes
    ensures u in c && c <= NodeSetOf(p)
  {
    Closure(p, {u})
  }

  /** The size of each node's component, in node order. */
  function ComponentSizes(p: CarGraph): (z: seq<nat>)
    ensures |z| == |p.nodes|
  {
    seq(|p.nodes|, j requires 0 <= j < |p.nodes| => |Component(p, p.nodes[j])|)
  }

  /** The largest number in z, 0 for none. */
  function MaxOf(z: seq<nat>): nat {
    if z == [] then 0
    else
      var rest := MaxOf(z[1..]);
      if z[0] >= rest then z[0] else rest
  }

  /** MaxOf is the maximum: an upper bound that is one of the numbers. */
  lemma {:induction false} MaxOfIsMax(z: seq<nat>)
    ensures forall j :: 0 <= j < |z| ==> z[j] <= MaxOf(z)
    ensures z == [] ==> MaxOf(z) == 0
    ensures z != [] ==> MaxOf(z) in z
  {
    if z != [] {
      MaxOfIsMax(z[1..]);
      assert forall j :: 0 < j < |z| ==> z[j] == z[1..][j - 1];
    }
  }

  /** The number of nodes of P's largest connected component, 0 when P has
      no nodes. */
  function GiantSize(p: CarGraph): nat {
    MaxOf(ComponentSizes(p))
  }

  /** nx.number_connected_components(P). */
  function ComponentCount(p: CarGraph): nat {
    |set c | c in ComponentList(p)|
  }

  /** Each node's component, in node order (with repetitions). */
  function ComponentList(p: CarGraph): (cs: seq<set<string>>)
    ensures |cs| == |p.nodes|
    ensures forall j :: 0 <= j < |cs| ==> cs[j] == Component(p, p.nodes[j])
  {
    seq(|p.nodes|, j requires 0 <= j < |p.nodes| => Component(p, p.nodes[j]))
  }

  // ---- the reference definition: reachability along paths

  ghost predicate IsPath(p: CarGraph, path: seq<string>) {
    && |path| >= 1
    && (forall i :: 0 <= i < |path| ==> path[i] in p.nodes)
    && (forall i :: 0 <= i < |path| - 1 ==> Linked(p, path[i], path[i + 1]))
  }

  ghost predicate Reachable(p: CarGraph, u: string, v: string) {
    exists path :: IsPath(p, path) && path[0] == u && path[|path| - 1] == v
  }

  /** A path that starts in a set closed under Expand stays in it. */
  lemma {:induction false} ClosedHoldsPath(p: CarGraph, c: set<string>, path: seq<string>)
    requires Expand(p, c) == c
    requires IsPath(p, path) && path[0] in c
    ensures path[|path| - 1] in c
    decreases |path|
  {
    if |path| > 1 {
      assert Linked(p, path[0], path[1]);
      assert path[1] in Expand(p, c);
      ClosedHoldsPath(p, c, path[1..]);
    }
  }

  /** Everything in the closure of a set of nodes reachable from u is
      reachable from u. */
  lemma {:induction false} ClosureReachable(p: CarGraph, s: set<string>, u: string)
    requires s <= NodeSetOf(p)
    requires forall x :: x in s ==> Reachable(p, u, x)
    ensures forall x :: x in Closure(p, s) ==> Reachable(p, u, x)
    decreases |NodeSetOf(p) - s|
  {
    var t := Expand(p, s);
    forall v | v in t ensures Reachable(p, u, v) {
      ExpandReachable(p, s, u, v);
    }
    if t != s {
      StrictSubsetCard(NodeSetOf(p) - t, NodeSetOf(p) - s);
      ClosureReachable(p, t, u);
    }
  }

  /** One breadth step from nodes reachable from u reaches only such nodes. */
  lemma ExpandReachable(p: CarGraph, s: set<string>, u: string, v: string)
    requires forall x :: x in s ==> Reachable(p, u, x)
    requires v in Expand(p, s)
    ensures Reachable(p, u, v)
  {
    if v !in s {
      var w :| w in s && Linked(p, w, v);
      var path :| IsPath(p, path) && path[0] == u && path[|path| - 1] == w;
      PathExtend(p, path, v);
    }
  }

  /** A path extended by a node linked to its end is a path. */
  lemma PathExtend(p: CarGraph, path: seq<string>, v: string)
    requires IsPath(p, path) && v in p.nodes && Linked(p, path[|path| - 1], v)
    ensures IsPath(p, path + [v]) && (path + [v])[0] == path[0] && (path + [v])[|path|] == v
  {
    var longer := path + [v];
    forall i | 0 <= i < |longer| - 1 ensures Linked(p, longer[i], longer[i + 1]) {
      if i < |path| - 1 {
        assert longer[i] == path[i] && longer[i + 1] == path[i + 1];
      }
    }
  }

  /** The component of u is exactly the set of nodes reachable from u. */
  lemma ComponentIsReachable(p: CarGraph, u: string, v: string)
    requires u in p.nodes
    ensures v in Component(p, u) <==> Reachable(p, u, v)
  {
    assert IsPath(p, [u]);
    ClosureReachable(p, {u}, u);
    if Reachable(p, u, v) {
      var path :| IsPath(p, path) && path[0] == u && path[|path| - 1] == v;
      ClosureClosed(p, {u});
      ClosedHoldsPath(p, Component(p, u), path);
    }
  }

  // ---- fewer edges, smaller components

  /** p1 has the nodes of p2 and only edges of p2. */
  ghost predicate SubGraph(p1: CarGraph, p2: CarGraph) {
    p1.nodes == p2.nodes && forall u, v :: Linked(p1, u, v) ==> Linked(p2, u, v)
  }

  lemma {:induction false} ClosureLeast(p: CarGraph, s: set<string>, c: set<string>)
    requires s <= c <= NodeSetOf(p)
    requires Expand(p, c) <= c
    ensures Closure(p, s) <= c
    decreases |NodeSetOf(p) - s|
  {
    var t := Expand(p, s);
    assert t <= Expand(p, c);
    if t != s {
      StrictSubsetCard(NodeSetOf(p) - t, NodeSetOf(p) - s);
      ClosureLeast(p, t, c);
    }
  }

  /** Every component of a subgraph lies inside the same node's component
      of the bigger graph. */
  lemma ComponentMonotone(p1: CarGraph, p2: CarGraph, u: string)
    requires SubGraph(p1, p2) && u in p1.nodes
    ensures Component(p1, u) <= Component(p2, u)
  {
    var c := Component(p2, u);
    ClosureClosed(p2, {u});
    assert Expand(p1, c) <= Expand(p2, c);
    ClosureLeast(p1, {u}, c);
  }

  /** A pointwise smaller sequence has a smaller maximum. */
  lemma MaxPointwise(y: seq<nat>, z: seq<nat>)
    requires |y| == |z|
    requires forall j :: 0 <= j < |y| ==> y[j] <= z[j]
    ensures MaxOf(y) <= MaxOf(z)
  {
    MaxOfIsMax(y);
    MaxOfIsMax(z);
    if y != [] {
      var j :| 0 <= j < |y| && y[j] == MaxOf(y);
    }
  }

  /** Removing edges never makes the giant component larger. */
  lemma GiantMonotone(p1: CarGraph, p2: CarGraph)
    requires SubGraph(p1, p2)
    ensures GiantSize(p1) <= GiantSize(p2)
  {
    var y, z := ComponentSizes(p1), ComponentSizes(p2);
    forall j | 0 <= j < |y| ensures y[j] <= z[j] {
      ComponentMonotone(p1, p2, p1.nodes[j]);
      SubsetCard(Component(p1, p1.nodes[j]), Component(p2, p1.nodes[j]));
    }
    MaxPointwise(y, z);
  }

  /** A sequence has at least as many elements as its set. */
  lemma {:induction false} SeqSetCard<T>(s: seq<T>)
    ensures |set x | x in s| <= |s|
  {
    if s != [] {
      var t := s[..|s| - 1];
      SeqSetCard(t);
      assert (set x | x in s) == (set x | x in t) + {s[|s| - 1]};
    }
  }

  /** The giant component has at most as many nodes as P and, when P has
      nodes, at least one. */
  lemma GiantBounds(p: CarGraph)
    ensures GiantSize(p) <= |p.nodes|
    ensures |p.nodes| > 0 ==> GiantSize(p) >= 1
  {
    var z := ComponentSizes(p);
    MaxOfIsMax(z);
    SeqSetCard(p.nodes);
    if |p.nodes| > 0 {
      var j :| 0 <= j < |z| && z[j] == GiantSize(p);
      SubsetCard(Component(p, p.nodes[j]), NodeSetOf(p));
      SubsetCard({p.nodes[0]}, Component(p, p.nodes[0]));
      assert z[0] >= 1;
    }
  }

  /** With no edges every component is a single node: a non-empty edgeless
      graph has giant component size 1. */
  lemma EdgelessGiant(p: CarGraph)
    requires p.links == map[] && |p.nodes| > 0
    ensures GiantSize(p) == 1
  {
    forall j | 0 <= j < |p.nodes| ensures Component(p, p.nodes[j]) == {p.nodes[j]} {
      assert Expand(p, {p.nodes[j]}) == {p.nodes[j]};
    }
    var z := ComponentSizes(p);
    MaxOfIsMax(z);
    var j :| 0 <= j < |z| && z[j] == GiantSize(p);
  }

  /** There is at least one component when there are nodes, none when there
      are none, and never more components than nodes. */
  lemma ComponentCountBounds(p: CarGraph)
    ensures ComponentCount(p) <= |p.nodes|
    ensures ComponentCount(p) == 0 <==> |p.nodes| == 0
  {
    var cs := ComponentList(p);
    SeqSetCard(cs);
    if |cs| > 0 {
      SubsetCard({cs[0]}, set c | c in cs);
    } else {
      assert (set c | c in cs) == {};
    }
  }
}
