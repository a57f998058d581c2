/** predict_demand: for every community of at least two cars, the parts used
    by at least 70% of its members are its standard parts, and a member that
    lacks some of them is suggested exactly those. */
module Demand {
  import opened Bipartite

  /** How many members of comm use node p. */
  function UsageCount(g: Graph, comm: set<string>, p: string): nat {
    |set c | c in comm && p in Neighbors(g, c)|
  }

  /** Every node some member of comm is joined to: the keys of part_counts. */
  function PartsOf(g: Graph, comm: set<string>): set<string> {
    set c, p | c in comm && p in Neighbors(g, c) :: p
  }

  /** A count reaches 70% of the community size, stated in integers. */
  predicate MeetsThreshold(count: nat, size: nat) {
    10 * count >= 7 * size
  }

  /** The standard parts of a community. */
  function StandardParts(g: Graph, comm: set<string>): set<string> {
    set p | p in PartsOf(g, comm) && MeetsThreshold(UsageCount(g, comm, p), |comm|)
  }

  /** The standard parts of its community that a car does not use. */
  function Gaps(g: Graph, comm: set<string>, car: string): set<string> {
    StandardParts(g, comm) - Neighbors(g, car)
  }

  /** comm_standards after the first k communities. */
  function Standards(g: Graph, cs: seq<set<string>>, k: nat): map<nat, set<string>>
    requires k <= |cs|
  {
    if k == 0 then map[]
    else if |cs[k - 1]| < 2 then Standards(g, cs, k - 1)
    else Standards(g, cs, k - 1)[k - 1 := StandardParts(g, cs[k - 1])]
  }

  /** The suggestions for the given members of a community whose standard
      parts are `standard`: each member's missing standard parts, if any. */
  function CommunitySuggestions(g: Graph, standard: set<string>, members: set<string>): map<string, set<string>> {
    map c | c in members && standard - Neighbors(g, c) != {} :: standard - Neighbors(g, c)
  }

  /** suggestions after the first k communities: a later community's entry
      for a car replaces an earlier one. */
  function Suggestions(g: Graph, cs: seq<set<string>>, k: nat): map<string, set<string>>
    requires k <= |cs|
  {
    if k == 0 then map[]
    else if |cs[k - 1]| < 2 then Suggestions(g, cs, k - 1)
    else Suggestions(g, cs, k - 1) + CommunitySuggestions(g, StandardParts(g, cs[k - 1]), cs[k - 1])
  }

  /** Every member of every community of at least two members is a node of
      B (B.neighbors fails otherwise; smaller communities are skipped before
      it is called). */
  predicate MembersPresent(g: Graph, cs: seq<set<string>>) {
    forall i, c :: 0 <= i < |cs| && |cs[i]| >= 2 && c in cs[i] ==> IsNode(g, c)
  }

  /** predict_demand: the standard parts of each community of at least two
      cars, and the gaps of each of its members that has any. */
  method PredictDemand(g: Graph, cs: seq<set<string>>)
    returns (standards: map<nat, set<string>>, suggestions: map<string, set<string>>)
    requires MembersPresent(g, cs)
    ensures standards == Standards(g, cs, |cs|)
    ensures suggestions == Suggestions(g, cs, |cs|)
  {
    standards := map[];
    suggestions := map[];
    for i := 0 to |cs|
      invariant standards == Standards(g, cs, i)
      invariant suggestions == Suggestions(g, cs, i)
    {
      var comm := cs[i];
      if |comm| < 2 {
        SmallCommunityIgnored(g, cs, i);
        continue;
      }
      var counts := CountParts(g, comm);
      var standard := set p | p in counts && 10 * counts[p] >= 7 * |comm|;
      assert standard == StandardParts(g, comm);
      LargeCommunity(g, cs, i);
      standards := standards[i := standard];
      suggestions := AddGaps(g, comm, standard, suggestions);
    }
  }

  /** The counting loop: part_counts[p] is the number of members using p. */
  method CountParts(g: Graph, comm: set<string>) returns (counts: map<string, nat>)
    ensures counts.Keys == PartsOf(g, comm)
    ensures forall p :: p in counts ==> counts[p] == UsageCount(g, comm, p)
  {
    counts := map[];
    var rest := comm;
    while rest != {}
      invariant rest <= comm
      invariant counts.Keys == PartsOf(g, comm - rest)
      invariant forall p :: p in counts ==> counts[p] == UsageCount(g, comm - rest, p)
      decreases rest
    {
      var car :| car in rest;
      ghost var done := comm - rest;
      counts := CountCar(g, done, car, counts);
      rest := rest - {car};
      assert comm - rest == done + {car};
    }
    assert comm - rest == comm;
  }

  /** One member's round of the counting loop: add one to the count of each
      of its parts. */
  method CountCar(g: Graph, ghost done: set<string>, car: string, counts0: map<string, nat>)
    returns (counts: map<string, nat>)
    requires car !in done
    requires counts0.Keys == PartsOf(g, done)
    requires forall p :: p in counts0 ==> counts0[p] == UsageCount(g, done, p)
    ensures counts.Keys == PartsOf(g, done + {car})
    ensures forall p :: p in counts ==> counts[p] == UsageCount(g, done + {car}, p)
  {
    counts := counts0;
    var todo := Neighbors(g, car);
    while todo != {}
      invariant todo <= Neighbors(g, car)
      invariant counts.Keys == PartsOf(g, done) + (Neighbors(g, car) - todo)
      invariant forall p :: p in counts ==>
        counts[p] == UsageCount(g, done, p) + (if p in Neighbors(g, car) - todo then 1 else 0)
      decreases todo
    {
      var p :| p in todo;
      var before := if p in counts then counts[p] else 0;
      UnusedCount(g, done, p);
      assert before == UsageCount(g, done, p);
      counts := counts[p := before + 1];
      todo := todo - {p};
    }
    assert Neighbors(g, car) - todo == Neighbors(g, car);
    PartsAdd(g, done, car);
    forall p | p in counts ensures counts[p] == UsageCount(g, done + {car}, p) {
      UsageAdd(g, done, car, p);
    }
  }

  /** A node no member uses has count zero. */
  lemma UnusedCount(g: Graph, done: set<string>, p: string)
    ensures p !in PartsOf(g, done) ==> UsageCount(g, done, p) == 0
  {
    if p !in PartsOf(g, done) {
      assert (set c | c in done && p in Neighbors(g, c)) == {};
    }
  }

  /** Adding a member adds its parts. */
  lemma PartsAdd(g: Graph, done: set<string>, car: string)
    ensures PartsOf(g, done + {car}) == PartsOf(g, done) + Neighbors(g, car)
  {
  }

  /** Adding a member adds one to the usage count of each of its parts. */
  lemma UsageAdd(g: Graph, done: set<string>, car: string, p: string)
    requires car !in done
    ensures UsageCount(g, done + {car}, p) == UsageCount(g, done, p) + (if p in Neighbors(g, car) then 1 else 0)
  {
    var before := set c | c in done && p in Neighbors(g, c);
    if p in Neighbors(g, car) {
      assert (set c | c in done + {car} && p in Neighbors(g, c)) == before + {car};
    } else {
      assert (set c | c in done + {car} && p in Neighbors(g, c)) == before;
    }
  }

  /** The gap loop of one community: each member with missing standard parts
      gets them as its suggestion. */
  method AddGaps(g: Graph, comm: set<string>, standard: set<string>, sug0: map<string, set<string>>)
    returns (sug: map<string, set<string>>)
    ensures sug == sug0 + CommunitySuggestions(g, standard, comm)
  {
    sug := sug0;
    var rest := comm;
    while rest != {}
      invariant rest <= comm
      invariant sug == sug0 + CommunitySuggestions(g, standard, comm - rest)
      decreases rest
    {
      var car :| car in rest;
      ghost var done := comm - rest;
      var existing := Neighbors(g, car);
      var missing := standard - existing;
      SuggestionsStep(g, standard, done, car);
      if missing != {} {
        UnionUpdate(sug0, CommunitySuggestions(g, standard, done), car, missing);
        sug := sug[car := missing];
      }
      rest := rest - {car};
      assert comm - rest == done + {car};
    }
    assert comm - rest == comm;
  }

  /** One more member adds its entry, if it has missing parts. */
  lemma SuggestionsStep(g: Graph, standard: set<string>, done: set<string>, car: string)
    ensures CommunitySuggestions(g, standard, done + {car}) ==
      if standard - Neighbors(g, car) != {}
      then CommunitySuggestions(g, standard, done)[car := standard - Neighbors(g, car)]
      else CommunitySuggestions(g, standard, done)
  {
  }

  // ---- what the outputs mean

  /** In a non-empty community a part is standard exactly when at least 70%
      of the members use it. */
  lemma StandardIff(g: Graph, comm: set<string>, p: string)
    requires |comm| >= 1
    ensures p in StandardParts(g, comm) <==> MeetsThreshold(UsageCount(g, comm, p), |comm|)
  {
    var users := set c | c in comm && p in Neighbors(g, c);
    if users != {} {
      var c :| c in users;
      assert p in PartsOf(g, comm);
    }
  }

  /** A part every member uses is standard. */
  lemma UniversalPartIsStandard(g: Graph, comm: set<string>, p: string)
    requires |comm| >= 1
    requires forall c :: c in comm ==> p in Neighbors(g, c)
    ensures p in StandardParts(g, comm)
  {
    assert (set c | c in comm && p in Neighbors(g, c)) == comm;
    StandardIff(g, comm, p);
  }

  /** comm_standards has an entry exactly for each community of at least two
      members, holding its standard parts. */
  lemma {:induction false} StandardsMeaning(g: Graph, cs: seq<set<string>>, k: nat, i: nat)
    requires k <= |cs|
    ensures i in Standards(g, cs, k) <==> i < k && |cs[i]| >= 2
    ensures i in Standards(g, cs, k) ==> Standards(g, cs, k)[i] == StandardParts(g, cs[i])
  {
    if k > 0 {
      StandardsMeaning(g, cs, k - 1, i);
    }
  }

  /** A car gets suggestions exactly when it lacks a standard part of some
      community of at least two members it belongs to. */
  lemma {:induction false} SuggestedIff(g: Graph, cs: seq<set<string>>, k: nat, c: string)
    requires k <= |cs|
    ensures c in Suggestions(g, cs, k) <==>
      exists i :: 0 <= i < k && |cs[i]| >= 2 && c in cs[i] && Gaps(g, cs[i], c) != {}
  {
    if k > 0 {
      SuggestedIff(g, cs, k - 1, c);
    }
  }

  /** Car c is a member of community j, which has at least two members, and
      lacks some of its standard parts. */
  predicate GapIn(g: Graph, cs: seq<set<string>>, j: int, c: string) {
    0 <= j < |cs| && |cs[j]| >= 2 && c in cs[j] && Gaps(g, cs[j], c) != {}
  }

  /** cs[i] is the last community among the first k with at least two
      members in which car c has gaps. */
  predicate LastGapCommunity(g: Graph, cs: seq<set<string>>, k: nat, c: string, i: int) {
    0 <= i < k && GapIn(g, cs, i, c) && forall j :: i < j < k ==> !GapIn(g, cs, j, c)
  }

  /** What a car is suggested: the gaps it has in the last community of at
      least two members in which it has any, that is standard parts of that
      community which the car does not use. */
  lemma {:induction false} SuggestionValue(g: Graph, cs: seq<set<string>>, k: nat, c: string)
    requires k <= |cs|
    requires c in Suggestions(g, cs, k)
    ensures exists i :: LastGapCommunity(g, cs, k, c, i) && Suggestions(g, cs, k)[c] == Gaps(g, cs[i], c)
    ensures Suggestions(g, cs, k)[c] != {}
    ensures Suggestions(g, cs, k)[c] * Neighbors(g, c) == {}
  {
    SuggestionsAt(g, cs, k, c);
    if !GapIn(g, cs, k - 1, c) {
      SuggestionValue(g, cs, k - 1, c);
    }
    ValueStep(g, cs, k, c, Suggestions(g, cs, k), Suggestions(g, cs, k - 1));
  }

  /** How the k-th community changes a car's entry: it sets the car's gaps
      there, if it has any, and otherwise leaves the entry alone. */
  lemma SuggestionsAt(g: Graph, cs: seq<set<string>>, k: nat, c: string)
    requires 0 < k <= |cs|
    ensures GapIn(g, cs, k - 1, c) ==>
      c in Suggestions(g, cs, k) && Suggestions(g, cs, k)[c] == Gaps(g, cs[k - 1], c)
    ensures !GapIn(g, cs, k - 1, c) ==>
      (c in Suggestions(g, cs, k) <==> c in Suggestions(g, cs, k - 1)) &&
      (c in Suggestions(g, cs, k) ==> Suggestions(g, cs, k)[c] == Suggestions(g, cs, k - 1)[c])
  {
  }

  /** The induction step of SuggestionValue, on the entries s of the first k
      communities and s0 of the first k - 1. */
  lemma ValueStep(g: Graph, cs: seq<set<string>>, k: nat, c: string, s: map<string, set<string>>, s0: map<string, set<string>>)
    requires 0 < k <= |cs| && c in s
    requires GapIn(g, cs, k - 1, c) ==> s[c] == Gaps(g, cs[k - 1], c)
    requires !GapIn(g, cs, k - 1, c) ==>
      c in s0 && s[c] == s0[c] &&
      exists i :: LastGapCommunity(g, cs, k - 1, c, i) && s0[c] == Gaps(g, cs[i], c)
    ensures exists i :: LastGapCommunity(g, cs, k, c, i) && s[c] == Gaps(g, cs[i], c)
    ensures s[c] != {}
    ensures s[c] * Neighbors(g, c) == {}
  {
    var i: int;
    if GapIn(g, cs, k - 1, c) {
      i := k - 1;
    } else {
      i :| LastGapCommunity(g, cs, k - 1, c, i) && s0[c] == Gaps(g, cs[i], c);
    }
    assert LastGapCommunity(g, cs, k, c, i);
  }

  /** A community of at least two members records its standard parts and
      adds its members' gaps. */
  lemma LargeCommunity(g: Graph, cs: seq<set<string>>, k: nat)
    requires k < |cs| && |cs[k]| >= 2
    ensures Standards(g, cs, k + 1) == Standards(g, cs, k)[k := StandardParts(g, cs[k])]
    ensures Suggestions(g, cs, k + 1) ==
      Suggestions(g, cs, k) + CommunitySuggestions(g, StandardParts(g, cs[k]), cs[k])
  {
  }

  /** Communities of fewer than two members add nothing to either output. */
  lemma SmallCommunityIgnored(g: Graph, cs: seq<set<string>>, k: nat)
    requires k < |cs| && |cs[k]| < 2
    ensures Standards(g, cs, k + 1) == Standards(g, cs, k)
    ensures Suggestions(g, cs, k + 1) == Suggestions(g, cs, k)
  {
  }
}
