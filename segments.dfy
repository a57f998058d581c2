/** get_vehicle_segments: a car is Premium when its name contains one of
    a fixed list of brand names, Economy otherwise. */
module Segments {

  datatype Segment = Premium | Economy

  /** The brand names that mark a Premium car. */
  const PremiumBrands: seq<string> := ["Audi", "BMW", "Mercedes", "Porsche", "Volvo", "Jeep"]

  /** x occurs in v starting at position i. */
  predicate OccursAt(x: string, v: string, i: int) {
    0 <= i && i + |x| <= |v| && v[i..i + |x|] == x
  }

  /** x occurs in v as a contiguous substring, the test Python makes for
      one string inside another. */
  ghost predicate IsSubstring(x: string, v: string) {
    exists i :: OccursAt(x, v, i)
  }

  /** Substring search: x is a prefix of v or of one of its suffixes. */
  function Contains(v: string, x: string): bool
    decreases |v|
  {
    if |x| > |v| then false
    else if x <= v then true
    else v != [] && Contains(v[1..], x)
  }

  /** An occurrence in the tail is an occurrence one further on in v. */
  lemma OccursShift(x: string, v: string, i: int)
    requires v != [] && 0 <= i
    ensures OccursAt(x, v[1..], i) <==> OccursAt(x, v, i + 1)
  {
    if 0 <= i && i + |x| <= |v[1..]| {
      assert v[1..][i..i + |x|] == v[i + 1..i + 1 + |x|];
    }
  }

  /** The search finds x exactly when x occurs in v. */
  lemma {:induction false} ContainsIsSubstring(v: string, x: string)
    ensures Contains(v, x) <==> IsSubstring(x, v)
    decreases |v|
  {
    if |x| > |v| {
    } else if x <= v {
      assert OccursAt(x, v, 0);
    } else {
      assert !OccursAt(x, v, 0);
      if v != [] {
        ContainsIsSubstring(v[1..], x);
        if IsSubstring(x, v[1..]) {
          var i :| OccursAt(x, v[1..], i);
          OccursShift(x, v, i);
        }
        if IsSubstring(x, v) {
          var i :| OccursAt(x, v, i);
          OccursShift(x, v, i - 1);
        }
      }
    }
  }

  /** Some name of ks occurs in v, searched in list order. */
  function AnyContained(v: string, ks: seq<string>): bool {
    ks != [] && (Contains(v, ks[0]) || AnyContained(v, ks[1..]))
  }

  lemma {:induction false} AnyContainedIff(v: string, ks: seq<string>)
    ensures AnyContained(v, ks) <==> exists k :: k in ks && IsSubstring(k, v)
  {
    if ks != [] {
      AnyContainedIff(v, ks[1..]);
      ContainsIsSubstring(v, ks[0]);
      assert forall k :: k in ks <==> k == ks[0] || k in ks[1..];
    }
  }

  /** The label of one car. */
  function SegmentOf(v: string): Segment {
    if AnyContained(v, PremiumBrands) then Premium else Economy
  }

  /** get_vehicle_segments: every car gets exactly one label, Premium iff its
      name contains one of the brand names. */
  method GetVehicleSegments(cars: seq<string>) returns (segments: map<string, Segment>)
    ensures segments.Keys == set c | c in cars
    ensures forall c :: c in segments ==>
      (segments[c] == Premium <==> exists b :: b in PremiumBrands && IsSubstring(b, c))
  {
    segments := map[];
    for k := 0 to |cars|
      invariant segments.Keys == set c | c in cars[..k]
      invariant forall c :: c in segments ==> segments[c] == SegmentOf(c)
    {
      var v := cars[k];
      if AnyContained(v, PremiumBrands) {
        segments := segments[v := Premium];
      } else {
        segments := segments[v := Economy];
      }
      assert cars[..k + 1] == cars[..k] + [v];
    }
    assert cars[..|cars|] == cars;
    forall c | c in segments
      ensures segments[c] == Premium <==> exists b :: b in PremiumBrands && IsSubstring(b, c)
    {
      AnyContainedIff(c, PremiumBrands);
    }
  }

  /** A car whose name starts with a brand is Premium. */
  lemma PremiumExample()
    ensures SegmentOf("BMW X3") == Premium
  {
    AnyContainedIff("BMW X3", PremiumBrands);
    assert "BMW" in PremiumBrands;
    assert OccursAt("BMW", "BMW X3", 0);
  }

  /** A name holding no brand's first letter is Economy. */
  lemma NoBrandInitial(v: string)
    requires forall b :: b in PremiumBrands ==> b != [] && b[0] !in v
    ensures SegmentOf(v) == Economy
  {
    AnyContainedIff(v, PremiumBrands);
    forall b | b in PremiumBrands ensures !IsSubstring(b, v) {
      StartAbsent(b, v);
    }
  }

  /** A car whose name contains none of the brands is Economy. */
  lemma EconomyExample()
    ensures SegmentOf("Fiat Toro") == Economy
  {
    var v := "Fiat Toro";
    assert forall c :: c in v ==> c in {'F', 'i', 'a', 't', ' ', 'T', 'o', 'r'};
    NoBrandInitial(v);
  }

  /** A name whose first letter is nowhere in v does not occur in v. */
  lemma StartAbsent(x: string, v: string)
    requires x != [] && x[0] !in v
    ensures !IsSubstring(x, v)
  {
    forall i | 0 <= i && i + |x| <= |v| ensures !OccursAt(x, v, i) {
      assert v[i..i + |x|][0] == v[i] != x[0];
    }
  }
}
