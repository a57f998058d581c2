/** Sorting (name, score) pairs by non-increasing score. Python's sort is
    stable, also in reverse, so entries of equal score keep their input
    order. Modelled by a stable insertion sort. */
module Ranking {

  /** Scores never increase along the sequence. */
  predicate NonIncreasing<T>(xs: seq<(T, nat)>) {
    forall i, j :: 0 <= i < j < |xs| ==> xs[j].1 <= xs[i].1
  }

  /** The entries with score s, in their order in xs. */
  function WithScore<T>(xs: seq<(T, nat)>, s: nat): seq<(T, nat)> {
    if xs == [] then []
    else (if xs[0].1 == s then [xs[0]] else []) + WithScore(xs[1..], s)
  }

  /** The sum of all scores. */
  function TotalScore<T>(xs: seq<(T, nat)>): nat {
    if xs == [] then 0 else xs[0].1 + TotalScore(xs[1..])
  }

  lemma {:induction false} WithScoreAppend<T>(a: seq<(T, nat)>, b: seq<(T, nat)>, s: nat)
    ensures WithScore(a + b, s) == WithScore(a, s) + WithScore(b, s)
  {
    if a != [] {
      assert (a + b)[1..] == a[1..] + b;
      WithScoreAppend(a[1..], b, s);
    } else {
      assert a + b == b;
    }
  }

  lemma {:induction false} TotalScoreAppend<T>(a: seq<(T, nat)>, b: seq<(T, nat)>)
    ensures TotalScore(a + b) == TotalScore(a) + TotalScore(b)
  {
    if a != [] {
      assert (a + b)[1..] == a[1..] + b;
      TotalScoreAppend(a[1..], b);
    } else {
      assert a + b == b;
    }
  }

  /** In a non-increasing sequence that starts below s, nothing has score s. */
  lemma {:induction false} NoneWithHigherScore<T>(xs: seq<(T, nat)>, s: nat)
    requires NonIncreasing(xs)
    requires xs != [] ==> xs[0].1 < s
    ensures WithScore(xs, s) == []
  {
    if xs != [] {
      NoneWithHigherScore(xs[1..], s);
    }
  }

  /** Insert x after every entry whose score is at least x's. */
  function Insert<T>(ys: seq<(T, nat)>, x: (T, nat)): (r: seq<(T, nat)>)
    requires NonIncreasing(ys)
    ensures |r| == |ys| + 1
    ensures NonIncreasing(r)
    ensures r[0] == x || (ys != [] && r[0] == ys[0])
  {
    if ys == [] then [x]
    else if ys[0].1 >= x.1 then
      var rest := Insert(ys[1..], x);
      assert forall j :: 0 < j < |rest| ==> rest[j].1 <= rest[0].1;
      [ys[0]] + rest
    else [x] + ys
  }

  /** Insertion adds x at the end of the entries with x's score and leaves
      the entries of every other score as they were. */
  lemma {:induction false} InsertWithScore<T>(ys: seq<(T, nat)>, x: (T, nat), s: nat)
    requires NonIncreasing(ys)
    ensures WithScore(Insert(ys, x), s) == WithScore(ys, s) + (if x.1 == s then [x] else [])
  {
    var r := Insert(ys, x);
    if ys == [] {
      assert r[1..] == [];
    } else if ys[0].1 >= x.1 {
      InsertWithScore(ys[1..], x, s);
      assert r[1..] == Insert(ys[1..], x);
    } else {
      assert r[1..] == ys;
      if x.1 == s {
        NoneWithHigherScore(ys, s);
      }
    }
  }

  /** Insertion adds x's score to the total. */
  lemma {:induction false} InsertTotal<T>(ys: seq<(T, nat)>, x: (T, nat))
    requires NonIncreasing(ys)
    ensures TotalScore(Insert(ys, x)) == TotalScore(ys) + x.1
  {
    var r := Insert(ys, x);
    if ys == [] {
      assert r == [x];
      assert r[1..] == [];
    } else if ys[0].1 >= x.1 {
      var rest := Insert(ys[1..], x);
      InsertTotal(ys[1..], x);
      assert r == [ys[0]] + rest;
      assert r[1..] == rest;
    } else {
      assert r == [x] + ys;
      assert r[1..] == ys;
    }
  }

  /** Insertion adds x to the entries. */
  lemma {:induction false} InsertPermutes<T>(ys: seq<(T, nat)>, x: (T, nat))
    requires NonIncreasing(ys)
    ensures multiset(Insert(ys, x)) == multiset(ys) + multiset{x}
  {
    var r := Insert(ys, x);
    if ys == [] {
      assert r == [x];
    } else if ys[0].1 >= x.1 {
      var rest := Insert(ys[1..], x);
      InsertPermutes(ys[1..], x);
      assert r == [ys[0]] + rest;
      assert ys == [ys[0]] + ys[1..];
    } else {
      assert r == [x] + ys;
    }
  }

  /** The stable sort by non-increasing score. */
  function SortByScore<T>(xs: seq<(T, nat)>): (r: seq<(T, nat)>)
    ensures |r| == |xs|
    ensures NonIncreasing(r)
    ensures multiset(r) == multiset(xs)
    ensures forall s :: WithScore(r, s) == WithScore(xs, s)
    ensures TotalScore(r) == TotalScore(xs)
  {
    if xs == [] then []
    else
      var init, last := xs[..|xs| - 1], xs[|xs| - 1];
      assert xs == init + [last];
      var sorted := SortByScore(init);
      var r := Insert(sorted, last);
      forall s ensures WithScore(r, s) == WithScore(xs, s) {
        InsertWithScore(sorted, last, s);
        WithScoreAppend(init, [last], s);
        assert WithScore([last], s) == (if last.1 == s then [last] else []);
      }
      InsertTotal(sorted, last);
      InsertPermutes(sorted, last);
      TotalScoreAppend(init, [last]);
      r
  }

  lemma HeadListed<T>(xs: seq<(T, nat)>, s: nat)
    requires xs != []
    ensures WithScore(xs, s) == (if xs[0].1 == s then [xs[0]] else []) + WithScore(xs[1..], s)
  {
  }

  /** A stable sort by score is determined by its input: any non-increasing
      sequence with the same entries of each score is the sorted one. */
  lemma {:induction false} SortedUnique<T>(xs: seq<(T, nat)>, ys: seq<(T, nat)>)
    requires NonIncreasing(xs) && NonIncreasing(ys)
    requires forall s :: WithScore(xs, s) == WithScore(ys, s)
    ensures xs == ys
    decreases |xs| + |ys|
  {
    if xs == [] || ys == [] {
      if xs != [] {
        HeadListed(xs, xs[0].1);
        assert false;
      }
      if ys != [] {
        HeadListed(ys, ys[0].1);
        assert false;
      }
    } else {
      var a, b := xs[0].1, ys[0].1;
      if a < b {
        NoneWithHigherScore(xs, b);
        HeadListed(ys, b);
        assert false;
      }
      if b < a {
        NoneWithHigherScore(ys, a);
        HeadListed(xs, a);
        assert false;
      }
      HeadListed(xs, a);
      HeadListed(ys, a);
      assert xs[0] == WithScore(xs, a)[0] == WithScore(ys, a)[0] == ys[0];
      forall s ensures WithScore(xs[1..], s) == WithScore(ys[1..], s) {
        HeadListed(xs, s);
        HeadListed(ys, s);
        var pre := if a == s then [xs[0]] else [];
        assert WithScore(xs[1..], s) == WithScore(xs, s)[|pre|..];
        assert WithScore(ys[1..], s) == WithScore(ys, s)[|pre|..];
      }
      SortedUnique(xs[1..], ys[1..]);
      assert xs == [xs[0]] + xs[1..];
      assert ys == [ys[0]] + ys[1..];
    }
  }
}
