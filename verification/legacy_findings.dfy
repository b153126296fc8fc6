/**
 * What the older engine of src/eval_naive.cpp returns against what it
 * evidently intends: the corrected engine is optimal over the whole
 * catalog, and two concrete catalogs show where the engine as written
 * departs from it.
 */
module LegacyFindings {
  import opened Charms
  import opened Aligned
  import opened Stats
  import opened Search
  import opened Enumeration
  import opened Parallel
  import opened Prepare
  import opened Build
  import opened CatalogValue
  import opened CatalogOptimality
  import opened Engine
  import opened Legacy

  /**
   * The corrected older engine reports an admissible catalog selection
   * (upgrades play no part in it) whose whole-table utility no admissible
   * selection exceeds.
   */
  lemma LegacyFixedOptimal(t: AbilityTable, catalog: seq<Charm>, maxCp: nat, weights: seq<int>,
                           threads: nat, assign: nat -> nat)
    requires Inputs(t, catalog, weights)
    ensures var r := LegacyEvaluateFixed(t, catalog, maxCp, weights, threads, assign);
      && Admissible(catalog, maxCp, r, false)
      && forall S :: Admissible(catalog, maxCp, S, false) ==>
           FullValue(t, catalog, weights, S) <= FullValue(t, catalog, weights, r)
  {
    var r := LegacyEvaluateFixed(t, catalog, maxCp, weights, threads, assign);
    var charms := PrepareCharmData(t, catalog, weights).charms;
    var k := LegacyKernel(t, catalog, maxCp, weights);
    var e :| && ValidSelection(k, e) && r == Originals(charms, e)
             && forall e' :: ValidSelection(k, e') ==> Value(k, e') <= Value(k, e);
    NextOffsetsSkipNothing(charms);
    SelectionSound(t, catalog, weights, maxCp, NextOffsets(charms), false, e);
    CatalogOptimal(t, catalog, weights, maxCp, NextOffsets(charms), false, Best(Value(k, e), []));
  }

  /** When no admissible catalog selection gains anything, the corrected older engine returns no charms. */
  lemma LegacyFixedNoGain(t: AbilityTable, catalog: seq<Charm>, maxCp: nat, weights: seq<int>,
                          threads: nat, assign: nat -> nat)
    requires Inputs(t, catalog, weights)
    requires forall S :: Admissible(catalog, maxCp, S, false) ==> FullValue(t, catalog, weights, S) <= 0
    ensures LegacyEvaluateFixed(t, catalog, maxCp, weights, threads, assign) == []
  {
    var charms := PrepareCharmData(t, catalog, weights).charms;
    var k := LegacyKernel(t, catalog, maxCp, weights);
    NextOffsetsSkipNothing(charms);
    forall e | ValidSelection(k, e)
      ensures Value(k, e) <= 0
    {
      SelectionSound(t, catalog, weights, maxCp, NextOffsets(charms), false, e);
    }
  }

  // ---------------------------------------------------------------------
  // The reduction's value-initialised buffer.
  // ---------------------------------------------------------------------

  /** One ability with cap 1. */
  function OneAbility(): AbilityTable {
    AbilityTable(["a"], [1.0])
  }

  /** A single charm of power 1, at the cap of the only ability. */
  function SingleCharm(): seq<Charm> {
    [Charm(1, false, [1.0])]
  }

  /** Only the empty selection fits a budget of 0 when every charm has positive power. */
  lemma NothingFits(k: Kernel)
    requires Valid(k) && k.maxCp == 0
    requires forall p :: 0 <= p < |k.cp| ==> k.cp[p] >= 1
    ensures forall e :: ValidSelection(k, e) ==> e == []
  {
    forall e | ValidSelection(k, e)
      ensures e == []
    {
      CostOfFirst(k.cp, e);
      PositiveFirst(k.cp, e);
    }
  }

  /** The first pick of a nonempty pick sequence over positive powers costs at least 1. */
  lemma PositiveFirst(cp: seq<nat>, e: seq<nat>)
    requires InRange(e, |cp|)
    requires forall p :: 0 <= p < |cp| ==> cp[p] >= 1
    ensures e == [] || cp[e[0]] >= 1
  {
  }

  /** A lower bound on the power of every catalog entry bounds the power of every kept charm. */
  lemma KeptPowers(t: AbilityTable, catalog: seq<Charm>, weights: seq<int>, m: nat)
    requires Inputs(t, catalog, weights)
    requires forall i :: 0 <= i < |catalog| ==> catalog[i].power >= m
    ensures var charms := PrepareCharmData(t, catalog, weights).charms;
      forall p :: 0 <= p < |charms| ==> charms[p].power >= m
  {
    PrepareKeeps(t, catalog, weights);
  }

  /** The only ability of the single-charm catalog is important and every kept charm has power 1. */
  lemma SingleCharmPrepared(t: AbilityTable, catalog: seq<Charm>)
    requires t == OneAbility() && catalog == SingleCharm()
    ensures Inputs(t, catalog, [1])
    ensures PrepareCharmData(t, catalog, [1]).important != []
    ensures var charms := PrepareCharmData(t, catalog, [1]).charms;
      forall p :: 0 <= p < |charms| ==> charms[p].power >= 1
  {
    assert Inputs(t, catalog, [1]);
    assert ImportantAbilities(catalog, [1], 1) == [0] by {
      assert Rows(catalog, 1);
      assert AnyNonzero(catalog, 0) by {
        assert catalog[0].raw[0] != 0.0;
      }
    }
    KeptPowers(t, catalog, [1], 1);
  }

  /** At budget 0, when every kept charm has positive power, the older engine's tables admit only the empty selection. */
  lemma ZeroBudgetOnlyEmpty(t: AbilityTable, catalog: seq<Charm>, weights: seq<int>)
    requires Inputs(t, catalog, weights)
    requires var charms := PrepareCharmData(t, catalog, weights).charms;
      forall p :: 0 <= p < |charms| ==> charms[p].power >= 1
    ensures forall e :: ValidSelection(LegacyKernel(t, catalog, 0, weights), e) ==> e == []
  {
    var k := LegacyKernel(t, catalog, 0, weights);
    assert forall p :: 0 <= p < |k.cp| ==> k.cp[p] >= 1;
    NothingFits(k);
  }

  /** The search tables the older engine builds for the single-charm catalog admit only the empty selection at budget 0. */
  lemma SingleCharmKernel(t: AbilityTable, catalog: seq<Charm>)
    requires t == OneAbility() && catalog == SingleCharm()
    ensures Inputs(t, catalog, [1])
    ensures PrepareCharmData(t, catalog, [1]).important != []
    ensures forall e :: ValidSelection(LegacyKernel(t, catalog, 0, [1]), e) ==> e == []
  {
    SingleCharmPrepared(t, catalog);
    ZeroBudgetOnlyEmpty(t, catalog, [1]);
  }

  /** Eight copies of the single charm cost 8. */
  lemma EightZerosCost()
    ensures InRange(ZeroSlots(), |SingleCharm()|)
    ensures CatalogCost(SingleCharm(), ZeroSlots()) == 8
  {
    var z := ZeroSlots();
    assert z == [0, 0, 0, 0, 0, 0, 0, 0];
  }

  /**
   * When some ability is important but only the empty selection is valid,
   * the older engine as written returns the eight 0 ids of the untouched
   * reduction buffer on the parallel path, and the corrected engine
   * returns no charm.
   */
  lemma OnlyEmptyParallel(t: AbilityTable, catalog: seq<Charm>, maxCp: nat, weights: seq<int>,
                          threads: nat, assign: nat -> nat)
    requires Inputs(t, catalog, weights) && threads >= 2
    requires PrepareCharmData(t, catalog, weights).important != []
    requires forall e :: ValidSelection(LegacyKernel(t, catalog, maxCp, weights), e) ==> e == []
    ensures LegacyEvaluateNaive(t, catalog, maxCp, weights, threads, assign) == ZeroSlots()
    ensures LegacyEvaluateFixed(t, catalog, maxCp, weights, threads, assign) == []
  {
    EmptySelection(LegacyKernel(t, catalog, maxCp, weights));
  }

  /**
   * With a budget of 0 and two threads, the older engine as written
   * returns eight copies of id 0, whose total power 8 exceeds the budget,
   * where the corrected engine returns no charm.
   */
  lemma LegacyZeroIds(t: AbilityTable, catalog: seq<Charm>, threads: nat, assign: nat -> nat)
    requires t == OneAbility() && catalog == SingleCharm() && threads >= 2
    ensures Inputs(t, catalog, [1])
    ensures LegacyEvaluateNaive(t, catalog, 0, [1], threads, assign) == ZeroSlots()
    ensures LegacyEvaluateFixed(t, catalog, 0, [1], threads, assign) == []
    ensures CatalogCost(catalog, ZeroSlots()) == 8
  {
    SingleCharmKernel(t, catalog);
    EightZerosCost();
    OnlyEmptyParallel(t, catalog, 0, [1], threads, assign);
  }

  // ---------------------------------------------------------------------
  // Compacted indices returned as catalog positions.
  // ---------------------------------------------------------------------

  /** An all-zero charm followed by a charm at the cap of the only ability. */
  function ZeroThenFull(): seq<Charm> {
    [Charm(1, false, [0.0]), Charm(1, false, [1.0])]
  }

  /** The reduction of that catalog keeps only entry 1, as compacted index 0. */
  lemma ZeroThenFullPrepared()
    ensures Inputs(OneAbility(), ZeroThenFull(), [1])
    ensures PrepareCharmData(OneAbility(), ZeroThenFull(), [1]).important == [0]
    ensures PrepareCharmData(OneAbility(), ZeroThenFull(), [1]).charms == [CompactCharm(1, 1, false, [SCALE])]
  {
    var t := OneAbility();
    var c := ZeroThenFull();
    assert Inputs(t, c, [1]);
    assert Rows(c, 1);
    assert AnyNonzero(c, 0) by {
      assert c[1].raw[0] != 0.0;
    }
    assert ImportantAbilities(c, [1], 1) == [0];
    ZeroThenFullSurvivors();
    EncodeAtCap(1.0);
    assert EncodeRow(t, c[1], [0]) == [SCALE];
    assert CompactCharms(t, c, [0]) == [CompactCharm(1, 1, false, [SCALE])];
  }

  /** Entry 0 of that catalog is zero and dropped; entry 1 survives. */
  lemma ZeroThenFullSurvivors()
    ensures AllCover(ZeroThenFull(), [0])
    ensures Survivors(ZeroThenFull(), [0], 2) == [1]
  {
    var c := ZeroThenFull();
    var imp: seq<nat> := [0];
    assert AllCover(c, imp);
    assert !NonzeroIn(c[0], imp) by {
      assert c[0].raw[imp[0]] == 0.0;
    }
    assert NonzeroIn(c[1], imp) by {
      assert c[1].raw[imp[0]] != 0.0;
    }
    assert Survivors(c, imp, 1) == [];
    assert Survivors(c, imp, 2) == [] + [1];
  }

  /**
   * The search tables the older engine builds when the reduction keeps one
   * charm of power 1 worth SCALE of a single important ability of weight 1.
   */
  lemma OneCharmKernel(t: AbilityTable, catalog: seq<Charm>, maxCp: nat, weights: seq<int>, c: nat)
    requires Inputs(t, catalog, weights)
    requires PrepareCharmData(t, catalog, weights).charms == [CompactCharm(c, 1, false, [SCALE])]
    requires PrepareCharmData(t, catalog, weights).weights == [1]
    ensures var k := LegacyKernel(t, catalog, maxCp, weights);
      && k.stats == [[SCALE]] && k.cp == [1] && k.offset == [1] && k.weights == [1] && k.maxCp == maxCp
  {
    var k := LegacyKernel(t, catalog, maxCp, weights);
    assert k.stats == [k.stats[0]] && k.cp == [k.cp[0]];
  }

  /** The search tables the older engine builds for that catalog: one charm worth SCALE of the only ability. */
  lemma ZeroThenFullKernel(t: AbilityTable, catalog: seq<Charm>, maxCp: nat)
    requires t == OneAbility() && catalog == ZeroThenFull()
    ensures Inputs(t, catalog, [1])
    ensures var k := LegacyKernel(t, catalog, maxCp, [1]);
      && k.stats == [[SCALE]] && k.cp == [1] && k.offset == [1] && k.weights == [1] && k.maxCp == maxCp
  {
    ZeroThenFullPrepared();
    assert PrepareCharmData(t, catalog, [1]).weights == [1] by {
      assert Project([1], [0]) == [1];
    }
    OneCharmKernel(t, catalog, maxCp, [1], 1);
  }

  /** Picking the one charm of such a kernel is worth SCALE. */
  lemma SingleValue(k: Kernel)
    requires Valid(k) && k.stats == [[SCALE]] && k.weights == [1]
    ensures Value(k, [0]) == SCALE
  {
    ScaleValue();
    var x := Add(Zeros(1), k.stats[0]);
    assert x == [SCALE];
    assert SumFrom(k, Zeros(1), [0]) == SumFrom(k, x, []);
    assert Utility([SCALE], [1]) == Term(SCALE, 1);
  }

  /** On a one-charm kernel whose charm fits and gains, an optimal valid selection is that charm. */
  lemma SingleGain(k: Kernel, e: seq<nat>)
    requires Valid(k) && |k.stats| == 1 && k.offset == [1]
    requires Value(k, [0]) > 0
    requires ValidSelection(k, e) && Value(k, [0]) <= Value(k, e)
    ensures e == [0]
  {
    ChainSecond(k.offset, e);
    EmptySelection(k);
    assert e != [];
    assert |e| == 1 && e[0] < 1;
  }

  /** Catalog entry 0 is worth nothing and entry 1 is worth SCALE. */
  lemma ZeroThenFullValues()
    ensures Inputs(OneAbility(), ZeroThenFull(), [1])
    ensures FullValue(OneAbility(), ZeroThenFull(), [1], [0]) == 0
    ensures FullValue(OneAbility(), ZeroThenFull(), [1], [1]) == SCALE
  {
    var t := OneAbility();
    var c := ZeroThenFull();
    assert Inputs(t, c, [1]);
    EncodeAtCap(1.0);
    EncodeSign(0.0, 1.0);
    ScaleValue();
    var z: seq<nat> := [0];
    var o: seq<nat> := [1];
    assert z[1..] == [] && o[1..] == [];
    assert ColumnSum(t, c, z, 0) == 0;
    assert ColumnSum(t, c, o, 0) == SCALE;
    assert FullSum(t, c, z) == [0];
    assert FullSum(t, c, o) == [SCALE];
    assert Utility([0], [1]) == Term(0, 1);
    assert Utility([SCALE], [1]) == Term(SCALE, 1);
  }

  /** On that catalog the lone compacted charm is catalog entry 1, fits any budget of 1 or more and gains SCALE. */
  lemma ZeroThenFullGain(t: AbilityTable, catalog: seq<Charm>, maxCp: nat)
    requires t == OneAbility() && catalog == ZeroThenFull() && maxCp >= 1
    ensures Inputs(t, catalog, [1])
    ensures PrepareCharmData(t, catalog, [1]).important != []
    ensures PrepareCharmData(t, catalog, [1]).charms[0].originalIndex == 1
    ensures var k := LegacyKernel(t, catalog, maxCp, [1]);
      && |k.stats| == 1 && k.offset == [1] && ValidSelection(k, [0]) && Value(k, [0]) > 0
  {
    ZeroThenFullPrepared();
    ZeroThenFullKernel(t, catalog, maxCp);
    var k := LegacyKernel(t, catalog, maxCp, [1]);
    SingleValue(k);
    ScaleValue();
    assert Cost(k.cp, [0]) == 1;
  }

  /**
   * When the reduction keeps a single charm that fits and gains, the older
   * engine as written returns its compacted index 0 on the serial path and
   * the corrected engine returns its catalog position.
   */
  lemma SingleKept(t: AbilityTable, catalog: seq<Charm>, maxCp: nat, weights: seq<int>, assign: nat -> nat)
    requires Inputs(t, catalog, weights)
    requires PrepareCharmData(t, catalog, weights).important != []
    requires var k := LegacyKernel(t, catalog, maxCp, weights);
      && |k.stats| == 1 && k.offset == [1] && ValidSelection(k, [0]) && Value(k, [0]) > 0
    ensures LegacyEvaluateNaive(t, catalog, maxCp, weights, 1, assign) == [0]
    ensures LegacyEvaluateFixed(t, catalog, maxCp, weights, 1, assign)
         == [PrepareCharmData(t, catalog, weights).charms[0].originalIndex]
  {
    SingleKeptNaive(t, catalog, maxCp, weights, assign);
    SingleKeptFixed(t, catalog, maxCp, weights, assign);
  }

  /** The serial path of the older engine as written picks compacted index 0. */
  lemma SingleKeptNaive(t: AbilityTable, catalog: seq<Charm>, maxCp: nat, weights: seq<int>, assign: nat -> nat)
    requires Inputs(t, catalog, weights)
    requires PrepareCharmData(t, catalog, weights).important != []
    requires var k := LegacyKernel(t, catalog, maxCp, weights);
      && |k.stats| == 1 && k.offset == [1] && ValidSelection(k, [0]) && Value(k, [0]) > 0
    ensures LegacyEvaluateNaive(t, catalog, maxCp, weights, 1, assign) == [0]
  {
    var k := LegacyKernel(t, catalog, maxCp, weights);
    SingleGain(k, LegacyEvaluateNaive(t, catalog, maxCp, weights, 1, assign));
  }

  /** The corrected older engine returns the catalog position of the one kept charm. */
  lemma SingleKeptFixed(t: AbilityTable, catalog: seq<Charm>, maxCp: nat, weights: seq<int>, assign: nat -> nat)
    requires Inputs(t, catalog, weights)
    requires var k := LegacyKernel(t, catalog, maxCp, weights);
      && |k.stats| == 1 && k.offset == [1] && ValidSelection(k, [0]) && Value(k, [0]) > 0
    ensures LegacyEvaluateFixed(t, catalog, maxCp, weights, 1, assign)
         == [PrepareCharmData(t, catalog, weights).charms[0].originalIndex]
  {
    var charms := PrepareCharmData(t, catalog, weights).charms;
    var k := LegacyKernel(t, catalog, maxCp, weights);
    var f := LegacyEvaluateFixed(t, catalog, maxCp, weights, 1, assign);
    var e :| && ValidSelection(k, e) && f == Originals(charms, e)
             && forall e' :: ValidSelection(k, e') ==> Value(k, e') <= Value(k, e);
    SingleGain(k, e);
    OriginalsOne(charms);
  }

  /** The catalog position of the single pick 0. */
  lemma OriginalsOne(charms: seq<CompactCharm>)
    requires |charms| >= 1
    ensures Originals(charms, [0]) == [charms[0].originalIndex]
  {
    var o := Originals(charms, [0]);
    assert o == [o[0]];
  }

  /**
   * On a catalog whose first entry is dropped by the reduction, the older
   * engine as written returns compacted index 0, which names the all-zero
   * catalog entry 0, where the corrected engine returns catalog position 1
   * (ZeroThenFullValues: worth 0 against SCALE).
   */
  lemma LegacyCompactedIds(t: AbilityTable, catalog: seq<Charm>, maxCp: nat, assign: nat -> nat)
    requires t == OneAbility() && catalog == ZeroThenFull() && maxCp >= 1
    ensures Inputs(t, catalog, [1])
    ensures LegacyEvaluateNaive(t, catalog, maxCp, [1], 1, assign) == [0]
    ensures LegacyEvaluateFixed(t, catalog, maxCp, [1], 1, assign) == [1]
  {
    ZeroThenFullGain(t, catalog, maxCp);
    SingleKept(t, catalog, maxCp, [1], assign);
  }

}
