/** The loop of detect_communities that flattens a partition into communities
    (given here as input) into a node -> community index map. */
module Communities {

  /** Every node of the first k communities mapped to its index; a node in
      several takes the index of the last one. */
  function Flatten(cs: seq<set<string>>, k: nat): map<string, nat>
    requires k <= |cs|
  {
    if k == 0 then map[]
    else
      var c := cs[k - 1];
      Flatten(cs, k - 1) + map n | n in c :: k - 1
  }

  /** A node is mapped iff some community among the first k holds it, and
      then to the last such community's index. */
  lemma {:induction false} FlattenMeaning(cs: seq<set<string>>, k: nat, n: string)
    requires k <= |cs|
    ensures n in Flatten(cs, k) <==> exists i :: 0 <= i < k && n in cs[i]
    ensures n in Flatten(cs, k) ==>
      var i := Flatten(cs, k)[n];
      i < k && n in cs[i] && forall j :: i < j < k ==> n !in cs[j]
  {
    if k > 0 {
      FlattenMeaning(cs, k - 1, n);
    }
  }

  /** detect_communities' loop: for each community in order, map each of its
      nodes to the community's index. */
  method CommunityMap(cs: seq<set<string>>) returns (m: map<string, nat>)
    ensures forall n :: n in m <==> exists i :: 0 <= i < |cs| && n in cs[i]
    ensures forall n :: n in m ==>
      m[n] < |cs| && n in cs[m[n]] && forall j :: m[n] < j < |cs| ==> n !in cs[j]
  {
    m := map[];
    for i := 0 to |cs|
      invariant m == Flatten(cs, i)
    {
      var rest := cs[i];
      while rest != {}
        invariant rest <= cs[i]
        invariant m == Flatten(cs, i) + map n | n in cs[i] - rest :: i
        decreases rest
      {
        var node :| node in rest;
        m := m[node := i];
        rest := rest - {node};
      }
      assert cs[i] - rest == cs[i];
    }
    forall n ensures n in m <==> exists i :: 0 <= i < |cs| && n in cs[i] {
      FlattenMeaning(cs, |cs|, n);
    }
    forall n | n in m
      ensures m[n] < |cs| && n in cs[m[n]] && forall j :: m[n] < j < |cs| ==> n !in cs[j]
    {
      FlattenMeaning(cs, |cs|, n);
    }
  }

  /** The communities do not overlap, as in a partition. */
  predicate PairwiseDisjoint(cs: seq<set<string>>) {
    forall i, j :: 0 <= i < j < |cs| ==> cs[i] * cs[j] == {}
  }

  /** For a partition every node is mapped to the one community holding it. */
  lemma PartitionIndex(cs: seq<set<string>>, i: nat, n: string)
    requires PairwiseDisjoint(cs) && i < |cs| && n in cs[i]
    ensures n in Flatten(cs, |cs|) && Flatten(cs, |cs|)[n] == i
  {
    FlattenMeaning(cs, |cs|, n);
    var k := Flatten(cs, |cs|)[n];
    assert n in cs[i] * cs[k];
  }
}
