/** analyze_stock_savings: how much a shared parts catalog saves compared
    with every car stocking its own parts,
    reduction = 1 - unique parts / parts needed summed over the cars. */
module Stock {
  import opened Bipartite

  /** The reduction factor: 1 - unique/needed, or 0 when nothing is needed. */
  function Reduction(unique: nat, needed: nat): (f: real)
    ensures needed > 0 ==> f * (needed as real) == (needed - unique) as real
    ensures needed == 0 ==> f == 0.0
    ensures unique <= needed ==> 0.0 <= f
    ensures needed > 0 && unique > 0 ==> f < 1.0
  {
    if needed > 0 then 1.0 - (unique as real) / (needed as real) else 0.0
  }

  /** analyze_stock_savings: the parts needed are the summed car degrees, the
      unique parts are the catalog's parts; when B fits the catalog the parts
      needed are exactly its usage pairs. */
  method AnalyzeStockSavings(cat: Catalog, g: Graph) returns (needed: nat, unique: nat, reduction: real)
    requires forall c :: c in cat.cars ==> IsNode(g, c)
    ensures needed == DegreeSum(g, cat.cars)
    ensures Fits(cat, g) ==> needed == |g.edges|
    ensures unique == |cat.parts|
    ensures reduction == Reduction(unique, needed)
  {
    unique := |cat.parts|;
    needed := 0;
    for k := 0 to |cat.cars|
      invariant needed == DegreeSum(g, cat.cars[..k])
    {
      needed := needed + Degree(g, cat.cars[k]);
      assert cat.cars[..k + 1][..k] == cat.cars[..k];
    }
    assert cat.cars[..|cat.cars|] == cat.cars;
    reduction := Reduction(unique, needed);
    if Fits(cat, g) {
      CarDegreeSum(g);
    }
  }

  /** For the graph built from a well-formed catalog the parts needed are its
      usage pairs; each used part then counts at least once, so the factor is
      never negative when every part is used. */
  lemma StockOfCatalog(cat: Catalog)
    requires cat.WellFormed()
    ensures DegreeSum(BuildBipartite(cat), cat.cars) == |cat.uses|
    ensures (forall p :: p in cat.parts ==> exists c :: (c, p) in cat.uses) ==>
      0.0 <= Reduction(|cat.parts|, |cat.uses|)
  {
    var g := BuildBipartite(cat);
    BuildBipartiteNodes(cat);
    CarDegreeSum(g);
    if forall p :: p in cat.parts ==> exists c :: (c, p) in cat.uses {
      UsedPartsBound(cat);
    }
  }

  /** When every catalog part is used, there are at least as many usage pairs
      as parts. */
  lemma UsedPartsBound(cat: Catalog)
    requires cat.WellFormed()
    requires forall p :: p in cat.parts ==> exists c :: (c, p) in cat.uses
    ensures |cat.parts| <= |cat.uses|
  {
    var g := BuildBipartite(cat);
    DistinctCard(cat.parts);
    var ps := set p | p in cat.parts;
    var pick := set e | e in cat.uses :: e.1;
    assert ps <= pick by {
      forall p | p in ps ensures p in pick {
        var c :| (c, p) in cat.uses;
      }
    }
    SubsetCard(ps, pick);
    ImageCard(cat.uses);
  }

  /** Projecting pairs onto their second component never grows a set. */
  lemma {:induction false} ImageCard(s: set<(string, string)>)
    ensures |set e | e in s :: e.1| <= |s|
  {
    if s != {} {
      var x :| x in s;
      ImageCard(s - {x});
      assert (set e | e in s :: e.1) == (set e | e in s - {x} :: e.1) + {x.1};
    }
  }

  /** Three cars sharing their only part: 3 parts needed, 1 unique, a factor
      of 2/3. */
  const Shared3 := Catalog(["c1", "c2", "c3"], ["p"], {("c1", "p"), ("c2", "p"), ("c3", "p")})

  /** The three-car catalog is well formed. */
  lemma Shared3WellFormed()
    ensures Shared3.WellFormed()
  {
    var cat := Shared3;
    assert cat.cars[0] == "c1" && cat.cars[1] == "c2" && cat.cars[2] == "c3";
    assert forall c :: c in cat.cars ==> c == "c1" || c == "c2" || c == "c3";
  }

  lemma SharedPartSaving()
    ensures DegreeSum(BuildBipartite(Shared3), Shared3.cars) == 3
    ensures Reduction(|Shared3.parts|, 3) == 2.0 / 3.0
  {
    Shared3WellFormed();
    var g := BuildBipartite(Shared3);
    assert Incident(g, "c1") == {("c1", "p")};
    assert Incident(g, "c2") == {("c2", "p")};
    assert Incident(g, "c3") == {("c3", "p")};
    var cs := Shared3.cars;
    assert cs[..2] == ["c1", "c2"] && cs[..2][..1] == ["c1"] && ["c1"][..0] == [];
    assert DegreeSum(g, ["c1"]) == 1;
    assert DegreeSum(g, ["c1", "c2"]) == 2;
    assert DegreeSum(g, cs) == DegreeSum(g, ["c1", "c2"]) + 1;
  }
}
