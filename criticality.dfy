/** get_part_criticality: every part node of B scored by its degree (the
    number of cars using it), ranked by non-increasing score. */
module Criticality {
  import opened Bipartite
  import opened Ranking

  /** The cars that use part p. */
  function Users(g: Graph, p: string): set<string> {
    set c | c in g.cars && (c, p) in g.edges
  }

  /** The list the loop builds: (part, B.degree(part)) for the given parts,
      in their order. */
  function PartScores(g: Graph, ps: seq<string>): (t: seq<(string, nat)>)
    ensures |t| == |ps|
    ensures forall i :: 0 <= i < |t| ==> t[i] == (ps[i], Degree(g, ps[i]))
  {
    if ps == [] then [] else PartScores(g, ps[..|ps| - 1]) + [(ps[|ps| - 1], Degree(g, ps[|ps| - 1]))]
  }

  /** The scores of the unsorted list add up to the degree sum. */
  lemma {:induction false} PartScoresTotal(g: Graph, ps: seq<string>)
    ensures TotalScore(PartScores(g, ps)) == DegreeSum(g, ps)
  {
    if ps != [] {
      var init, last := ps[..|ps| - 1], ps[|ps| - 1];
      PartScoresTotal(g, init);
      TotalScoreAppend(PartScores(g, init), [(last, Degree(g, last))]);
    }
  }

  /** get_part_criticality: one entry per part node, scored by the number of
      cars using it, sorted by non-increasing score with ties in part order;
      the scores add up to the number of usage pairs. */
  method GetPartCriticality(g: Graph) returns (r: seq<(string, nat)>)
    requires g.Valid()
    ensures |r| == |g.parts|
    ensures forall i :: 0 <= i < |r| ==> r[i].0 in g.parts && r[i].1 == |Users(g, r[i].0)|
    ensures forall p :: p in g.parts ==> (p, |Users(g, p)|) in r
    ensures NonIncreasing(r)
    ensures forall s :: WithScore(r, s) == WithScore(PartScores(g, g.parts), s)
    ensures TotalScore(r) == |g.edges|
  {
    var criticality: seq<(string, nat)> := [];
    for i := 0 to |g.parts|
      invariant criticality == PartScores(g, g.parts[..i])
    {
      var p := g.parts[i];
      var degree := Degree(g, p);
      criticality := criticality + [(p, degree)];
      assert g.parts[..i + 1][..i] == g.parts[..i];
    }
    assert g.parts[..|g.parts|] == g.parts;
    r := SortByScore(criticality);
    RankedEntries(g, r);
    PartScoresTotal(g, g.parts);
    PartDegreeSum(g);
  }

  /** The sorted list holds exactly the parts, each scored by its users. */
  lemma RankedEntries(g: Graph, r: seq<(string, nat)>)
    requires g.Valid()
    requires multiset(r) == multiset(PartScores(g, g.parts))
    ensures forall i :: 0 <= i < |r| ==> r[i].0 in g.parts && r[i].1 == |Users(g, r[i].0)|
    ensures forall p :: p in g.parts ==> (p, |Users(g, p)|) in r
  {
    var t := PartScores(g, g.parts);
    ScoresAreUsers(g);
    forall i | 0 <= i < |r| ensures r[i].0 in g.parts && r[i].1 == |Users(g, r[i].0)| {
      assert r[i] in multiset(t);
      var k :| 0 <= k < |t| && t[k] == r[i];
    }
    forall p | p in g.parts ensures (p, |Users(g, p)|) in r {
      var k :| 0 <= k < |g.parts| && g.parts[k] == p;
      assert t[k] in multiset(r);
    }
  }

  /** Each entry of the unsorted list scores its part by its users. */
  lemma ScoresAreUsers(g: Graph)
    requires g.Valid()
    ensures forall i :: 0 <= i < |g.parts| ==> PartScores(g, g.parts)[i].1 == |Users(g, g.parts[i])|
  {
    forall i | 0 <= i < |g.parts| ensures Degree(g, g.parts[i]) == |Users(g, g.parts[i])| {
      PartDegreeIsUserCount(g, g.parts[i]);
    }
  }
}
