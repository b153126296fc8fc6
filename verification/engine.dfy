/**
 * `evaluate_naive` of src/common/eval_naive.cpp: reduce the catalog, build
 * the search tables with the upgrade offsets, dispatch to the search at
 * the aligned width, and translate the best buffer back to catalog
 * positions.
 */
module Engine {
  import opened Charms
  import opened Aligned
  import opened Stats
  import opened Search
  import opened Enumeration
  import opened Parallel
  import opened Width
  import opened Prepare
  import opened Build
  import opened CatalogValue
  import opened CatalogOptimality

  /** `eval_result`: the best utility and the catalog positions of the charms reaching it. */
  datatype EvalResult = EvalResult(utility: int, charms: seq<nat>)

  /** A buffer reached on the padded kernel is reached on the kernel itself. */
  lemma ReachedPadded(k: Kernel, width: nat, r: Best)
    requires Valid(k) && |k.weights| <= width
    requires Reached(PadKernel(k, width), r)
    ensures Reached(k, r)
  {
    var pk := PadKernel(k, width);
    var e :| ValidSelection(pk, e) && Value(pk, e) == r.utility && r.slots == Fill(EmptySlots(), 0, e);
    ValuePadded(k, width, e);
  }

  /**
   * One entry of the dispatch table: the search on the kernel zero-padded
   * to `width`. What it reports is stated against the unpadded kernel.
   */
  function SearchAtWidth(k: Kernel, width: nat, threads: nat, assign: nat -> nat): (r: Best)
    requires Valid(k) && |k.weights| <= width
    ensures forall e :: ValidSelection(k, e) ==> Value(k, e) <= r.utility
    ensures Reached(k, r)
    ensures SlotsIn(r.slots, |k.stats|)
    ensures (forall e :: ValidSelection(k, e) ==> Value(k, e) <= 0) ==> r == ReduceInit()
  {
    var pk := PadKernel(k, width);
    var r := EvalCharms(pk, threads, assign);
    forall e | ValidSelection(k, e)
      ensures ValidSelection(pk, e) && Value(k, e) == Value(pk, e)
    {
      ValuePadded(k, width, e);
    }
    ReachedPadded(k, width, r);
    r
  }

  /** The search tables `evaluate_naive` builds: the compact charms with `has_upgrade ? 2 : 1` offsets. */
  function EngineKernel(t: AbilityTable, catalog: seq<Charm>, maxCp: nat, weights: seq<int>): (k: Kernel)
    requires Inputs(t, catalog, weights)
    ensures Valid(k) && |k.stats| == |PrepareCharmData(t, catalog, weights).charms|
    ensures k.offset == UpgradeOffsets(PrepareCharmData(t, catalog, weights).charms)
  {
    CompactKernel(t, catalog, maxCp, weights, UpgradeOffsets(PrepareCharmData(t, catalog, weights).charms))
  }

  /** The width the dispatch table picks: the important-ability count rounded up to the alignment unit. */
  function DispatchWidth(t: AbilityTable, catalog: seq<Charm>, weights: seq<int>, align: nat): (w: nat)
    requires Inputs(t, catalog, weights) && align > 0
    ensures |PrepareCharmData(t, catalog, weights).weights| <= w
  {
    var n := |PrepareCharmData(t, catalog, weights).important|;
    TableSizeForLeast(n, align);
    TableSizeFor(n, align)
  }

  /**
   * `evaluate_naive`: the best utility of any valid compacted selection,
   * reported with the catalog positions of a selection reaching it.
   * `align` is TABLE_SIZE_ALIGN, `threads` the configured thread count and
   * `assign` the order in which the workers draw the jobs.
   */
  function EvaluateNaive(t: AbilityTable, catalog: seq<Charm>, maxCp: nat, weights: seq<int>,
                         threads: nat, assign: nat -> nat, align: nat): (r: EvalResult)
    requires Inputs(t, catalog, weights) && align > 0
    ensures var k := EngineKernel(t, catalog, maxCp, weights);
      forall e :: ValidSelection(k, e) ==> Value(k, e) <= r.utility
    ensures var k := EngineKernel(t, catalog, maxCp, weights);
      exists e :: && ValidSelection(k, e) && Value(k, e) == r.utility
                  && r.charms == Originals(PrepareCharmData(t, catalog, weights).charms, e)
    ensures var k := EngineKernel(t, catalog, maxCp, weights);
      (forall e :: ValidSelection(k, e) ==> Value(k, e) <= 0) ==> r == EvalResult(0, [])
  {
    var charms := PrepareCharmData(t, catalog, weights).charms;
    var k := EngineKernel(t, catalog, maxCp, weights);
    var b := SearchAtWidth(k, DispatchWidth(t, catalog, weights, align), threads, assign);
    var r := EvalResult(b.utility, Translate(b.slots, charms));
    var e :| ValidSelection(k, e) && Value(k, e) == b.utility && b.slots == Fill(EmptySlots(), 0, e);
    TranslateFilled(e, charms);
    TranslateFilled([], charms);
    r
  }

  /** `has_upgrade ? 2 : 1` skips every surviving upgrade twin. */
  lemma UpgradeSkipsTwins(charms: seq<CompactCharm>)
    ensures SkipsTwins(charms, UpgradeOffsets(charms), true)
  {
  }

  /**
   * What `evaluate_naive` reports is an admissible catalog selection (at
   * most seven positions, strictly increasing, within the budget, never a
   * charm with an upgrade together with the entry after it) and the
   * reported utility is its whole-table utility, never negative.
   */
  lemma EvaluateSound(t: AbilityTable, catalog: seq<Charm>, maxCp: nat, weights: seq<int>,
                      threads: nat, assign: nat -> nat, align: nat)
    requires Inputs(t, catalog, weights) && align > 0
    ensures var r := EvaluateNaive(t, catalog, maxCp, weights, threads, assign, align);
      && Admissible(catalog, maxCp, r.charms, true)
      && r.utility == FullValue(t, catalog, weights, r.charms)
      && r.utility >= 0
  {
    var r := EvaluateNaive(t, catalog, maxCp, weights, threads, assign, align);
    var charms := PrepareCharmData(t, catalog, weights).charms;
    var k := EngineKernel(t, catalog, maxCp, weights);
    var e :| ValidSelection(k, e) && Value(k, e) == r.utility && r.charms == Originals(charms, e);
    assert Admissible(catalog, maxCp, r.charms, true) && r.utility == FullValue(t, catalog, weights, r.charms) by {
      UpgradeSkipsTwins(charms);
      SelectionSound(t, catalog, weights, maxCp, UpgradeOffsets(charms), true, e);
    }
    assert r.utility >= 0 by {
      EmptySelection(k);
    }
  }

  /**
   * When no admissible catalog selection has positive utility,
   * `evaluate_naive` reports utility 0 and no charms.
   */
  lemma EvaluateNoGain(t: AbilityTable, catalog: seq<Charm>, maxCp: nat, weights: seq<int>,
                       threads: nat, assign: nat -> nat, align: nat)
    requires Inputs(t, catalog, weights) && align > 0
    requires forall S :: Admissible(catalog, maxCp, S, true) ==> FullValue(t, catalog, weights, S) <= 0
    ensures EvaluateNaive(t, catalog, maxCp, weights, threads, assign, align) == EvalResult(0, [])
  {
    var charms := PrepareCharmData(t, catalog, weights).charms;
    var k := EngineKernel(t, catalog, maxCp, weights);
    UpgradeSkipsTwins(charms);
    forall e | ValidSelection(k, e)
      ensures Value(k, e) <= 0
    {
      SelectionSound(t, catalog, weights, maxCp, UpgradeOffsets(charms), true, e);
    }
  }

  /** A kernel without charms admits the empty selection only, so nothing gains. */
  lemma NoCharmsNoGain(k: Kernel)
    requires Valid(k) && |k.stats| == 0
    ensures forall e :: ValidSelection(k, e) ==> Value(k, e) <= 0
  {
    NoCharmsOnlyEmpty(k);
    EmptySelection(k);
  }

  /** When the reduction keeps no charm the only selection is the empty one, worth 0. */
  lemma NothingKept(t: AbilityTable, catalog: seq<Charm>, maxCp: nat, weights: seq<int>,
                    threads: nat, assign: nat -> nat, align: nat)
    requires Inputs(t, catalog, weights) && align > 0
    requires PrepareCharmData(t, catalog, weights).charms == []
    ensures EvaluateNaive(t, catalog, maxCp, weights, threads, assign, align) == EvalResult(0, [])
  {
    NoCharmsNoGain(EngineKernel(t, catalog, maxCp, weights));
  }

  /** An empty catalog yields utility 0 and no charms, for every budget. */
  lemma EvaluateEmptyCatalog(t: AbilityTable, maxCp: nat, weights: seq<int>,
                             threads: nat, assign: nat -> nat, align: nat)
    requires Inputs(t, [], weights) && align > 0
    ensures EvaluateNaive(t, [], maxCp, weights, threads, assign, align) == EvalResult(0, [])
  {
    NothingKept(t, [], maxCp, weights, threads, assign, align);
  }

  /** With no important ability (dispatch width 0) the result is utility 0 and no charms. */
  lemma EvaluateNoImportant(t: AbilityTable, catalog: seq<Charm>, maxCp: nat, weights: seq<int>,
                            threads: nat, assign: nat -> nat, align: nat)
    requires Inputs(t, catalog, weights) && align > 0
    requires PrepareCharmData(t, catalog, weights).important == []
    ensures DispatchWidth(t, catalog, weights, align) == 0
    ensures EvaluateNaive(t, catalog, maxCp, weights, threads, assign, align) == EvalResult(0, [])
  {
    TableSizeForZero(align);
    PrepareNoImportant(t, catalog, weights);
    NothingKept(t, catalog, maxCp, weights, threads, assign, align);
  }

  /** All-zero weights make no ability important, so the result is utility 0 and no charms. */
  lemma EvaluateZeroWeights(t: AbilityTable, catalog: seq<Charm>, maxCp: nat, weights: seq<int>,
                            threads: nat, assign: nat -> nat, align: nat)
    requires Inputs(t, catalog, weights) && align > 0
    requires forall a :: 0 <= a < |weights| ==> weights[a] == 0
    ensures EvaluateNaive(t, catalog, maxCp, weights, threads, assign, align) == EvalResult(0, [])
  {
    ImportantNone(catalog, weights, |t.names|);
    EvaluateNoImportant(t, catalog, maxCp, weights, threads, assign, align);
  }

  /**
   * On a catalog whose upgrade twins cover their base entries,
   * `evaluate_naive` is optimal over the whole catalog: no admissible
   * selection has a larger whole-table utility than the one reported.
   */
  lemma EvaluateCatalogOptimal(t: AbilityTable, catalog: seq<Charm>, maxCp: nat, weights: seq<int>,
                               threads: nat, assign: nat -> nat, align: nat)
    requires Inputs(t, catalog, weights) && align > 0 && TwinsCover(catalog)
    ensures var r := EvaluateNaive(t, catalog, maxCp, weights, threads, assign, align);
      forall S :: Admissible(catalog, maxCp, S, true) ==> FullValue(t, catalog, weights, S) <= r.utility
  {
    var r := EvaluateNaive(t, catalog, maxCp, weights, threads, assign, align);
    var prep := PrepareCharmData(t, catalog, weights);
    PrepareCompaction(t, catalog, weights);
    UpgradeSkipsOnlyTwins(t, catalog, prep.important, prep.charms);
    CatalogOptimal(t, catalog, weights, maxCp, UpgradeOffsets(prep.charms), true, Best(r.utility, []));
  }

  // A catalog whose upgrade twin does not survive the reduction.

  /** Two abilities with cap 1. */
  function ExampleTable(): AbilityTable {
    AbilityTable(["a", "b"], [1.0, 1.0])
  }

  /**
   * Entry 0 has an upgrade, but its twin, entry 1, is zero everywhere and
   * is dropped; entry 2 is an unrelated charm.
   */
  function ExampleCatalog(): seq<Charm> {
    [Charm(1, true, [1.0, 0.0]), Charm(1, false, [0.0, 0.0]), Charm(1, false, [0.0, 1.0])]
  }

  /** Both abilities of the example are important. */
  lemma ExampleImportant()
    ensures Rows(ExampleCatalog(), 2)
    ensures ImportantAbilities(ExampleCatalog(), [1, 1], 2) == [0, 1]
  {
    var c := ExampleCatalog();
    assert Rows(c, 2);
    assert AnyNonzero(c, 0) by {
      assert c[0].raw[0] != 0.0;
    }
    assert AnyNonzero(c, 1) by {
      assert c[2].raw[1] != 0.0;
    }
    assert ImportantAbilities(c, [1, 1], 1) == [0];
  }

  /** Entries 0 and 2 of the example survive; entry 1 does not. */
  lemma ExampleSurvivors()
    ensures AllCover(ExampleCatalog(), [0, 1])
    ensures Survivors(ExampleCatalog(), [0, 1], 3) == [0, 2]
  {
    ExampleSurvivorsAt();
  }

  /** Entries 0 and 2 of the example are nonzero in one of its abilities; entry 1 is zero in both. */
  lemma ExampleNonzero()
    ensures AllCover(ExampleCatalog(), [0, 1])
    ensures NonzeroIn(ExampleCatalog()[0], [0, 1])
    ensures !NonzeroIn(ExampleCatalog()[1], [0, 1])
    ensures NonzeroIn(ExampleCatalog()[2], [0, 1])
  {
    var c := ExampleCatalog();
    var imp: seq<nat> := [0, 1];
    assert c[0].raw[imp[0]] != 0.0;
    assert c[2].raw[imp[1]] != 0.0;
    assert c[1].raw == [0.0, 0.0];
  }

  /** The survivors of the example, element by element. */
  lemma ExampleSurvivorsAt()
    ensures AllCover(ExampleCatalog(), [0, 1])
    ensures var s := Survivors(ExampleCatalog(), [0, 1], 3); |s| == 2 && s[0] == 0 && s[1] == 2
  {
    ExampleNonzero();
    var c := ExampleCatalog();
    var imp: seq<nat> := [0, 1];
    var s0 := Survivors(c, imp, 0);
    var s1 := Survivors(c, imp, 1);
    var s2 := Survivors(c, imp, 2);
    assert s1 == s0 + [0];
    assert s2 == s1;
    assert Survivors(c, imp, 3) == s2 + [2];
  }

  /** The compact charms when exactly two catalog entries survive. */
  lemma CompactTwo(t: AbilityTable, catalog: seq<Charm>, imp: seq<nat>, a: nat, b: nat)
    requires CapsFor(t, imp) && AllCover(catalog, imp)
    requires Survivors(catalog, imp, |catalog|) == [a, b]
    ensures a < |catalog| && b < |catalog|
    ensures CompactCharms(t, catalog, imp) == [CompactOf(t, catalog, imp, a), CompactOf(t, catalog, imp, b)]
  {
    var r := CompactCharms(t, catalog, imp);
    assert r == [r[0], r[1]];
  }

  /** The encoded rows of the two surviving entries of the example. */
  lemma ExampleRows(t: AbilityTable, c: seq<Charm>)
    requires t == ExampleTable() && c == ExampleCatalog()
    ensures CapsFor(t, [0, 1]) && AllCover(c, [0, 1])
    ensures CompactOf(t, c, [0, 1], 0) == CompactCharm(0, 1, true, [SCALE, 0])
    ensures CompactOf(t, c, [0, 1], 2) == CompactCharm(2, 1, false, [0, SCALE])
  {
    ExampleNonzero();
    var imp: seq<nat> := [0, 1];
    EncodeAtCap(1.0);
    EncodeSign(0.0, 1.0);
    assert CapsFor(t, imp);
    var r0 := EncodeRow(t, c[0], imp);
    var r2 := EncodeRow(t, c[2], imp);
    assert r0 == [r0[0], r0[1]] && r2 == [r2[0], r2[1]];
  }

  /** The reduction of the example keeps both abilities and entries 0 and 2, with entry 0 first. */
  lemma ExamplePrepared()
    ensures Inputs(ExampleTable(), ExampleCatalog(), [1, 1])
    ensures var prep := PrepareCharmData(ExampleTable(), ExampleCatalog(), [1, 1]);
      && prep.important == [0, 1]
      && prep.charms == [CompactCharm(0, 1, true, [SCALE, 0]), CompactCharm(2, 1, false, [0, SCALE])]
  {
    var t := ExampleTable();
    var c := ExampleCatalog();
    assert Inputs(t, c, [1, 1]);
    ExampleImportant();
    ExampleSurvivors();
    ExampleRows(t, c);
    CompactTwo(t, c, [0, 1], 0, 2);
  }

  /**
   * The search tables `evaluate_naive` builds when the reduction keeps two
   * charms of power 1, the first with an upgrade, each worth SCALE of one
   * of two important abilities of weight 1.
   */
  lemma TwoCharmKernel(t: AbilityTable, catalog: seq<Charm>, maxCp: nat, weights: seq<int>, a: nat, b: nat)
    requires Inputs(t, catalog, weights)
    requires PrepareCharmData(t, catalog, weights).charms
          == [CompactCharm(a, 1, true, [SCALE, 0]), CompactCharm(b, 1, false, [0, SCALE])]
    requires PrepareCharmData(t, catalog, weights).weights == [1, 1]
    ensures var k := EngineKernel(t, catalog, maxCp, weights);
      k.offset == [2, 1] && k.stats == [[SCALE, 0], [0, SCALE]] && k.weights == [1, 1]
  {
    var charms := PrepareCharmData(t, catalog, weights).charms;
    var k := EngineKernel(t, catalog, maxCp, weights);
    assert k.offset == [2, 1] by {
      var o := UpgradeOffsets(charms);
      assert o == [o[0], o[1]];
    }
    assert k.stats == [k.stats[0], k.stats[1]];
  }

  /** The kernel of the example: offset 2 after entry 0, one ability at full scale per charm. */
  lemma ExampleKernel(t: AbilityTable, c: seq<Charm>, maxCp: nat)
    requires t == ExampleTable() && c == ExampleCatalog()
    ensures Inputs(t, c, [1, 1])
    ensures var k := EngineKernel(t, c, maxCp, [1, 1]);
      k.offset == [2, 1] && k.stats == [[SCALE, 0], [0, SCALE]] && k.weights == [1, 1]
  {
    ExamplePrepared();
    assert PrepareCharmData(t, c, [1, 1]).weights == [1, 1] by {
      assert Project([1, 1], [0, 1]) == [1, 1];
    }
    TwoCharmKernel(t, c, maxCp, [1, 1], 0, 2);
  }

  /** On a kernel of that shape no valid selection is worth more than SCALE: the offset bars the pair. */
  lemma PairBarred(k: Kernel)
    requires Valid(k) && k.offset == [2, 1] && k.stats == [[SCALE, 0], [0, SCALE]] && k.weights == [1, 1]
    ensures forall e :: ValidSelection(k, e) ==> Value(k, e) <= SCALE
  {
    ScaleValue();
    forall e | ValidSelection(k, e)
      ensures Value(k, e) <= SCALE
    {
      assert |e| <= 1 by {
        ShortChain(k.offset, e);
      }
      if e == [] {
        EmptySelection(k);
      } else {
        var v := SumFrom(k, Zeros(2), e);
        var x := Add(Zeros(2), k.stats[e[0]]);
        assert v == SumFrom(k, x, e[1..]);
        assert e[1..] == [];
        assert v == x;
        assert v == k.stats[e[0]];
        UtilityPair(v, [1, 1]);
        assert Value(k, e) == Utility(v, [1, 1]);
      }
    }
  }

  /** On the example, no valid compacted selection is worth more than SCALE. */
  lemma ExampleBestCompacted(maxCp: nat)
    ensures Inputs(ExampleTable(), ExampleCatalog(), [1, 1])
    ensures var k := EngineKernel(ExampleTable(), ExampleCatalog(), maxCp, [1, 1]);
      forall e :: ValidSelection(k, e) ==> Value(k, e) <= SCALE
  {
    ExampleKernel(ExampleTable(), ExampleCatalog(), maxCp);
    PairBarred(EngineKernel(ExampleTable(), ExampleCatalog(), maxCp, [1, 1]));
  }

  /** The example catalog selection {0, 2} is worth SCALE in each ability. */
  lemma ExampleFullValue()
    ensures Inputs(ExampleTable(), ExampleCatalog(), [1, 1])
    ensures FullValue(ExampleTable(), ExampleCatalog(), [1, 1], [0, 2]) == 2 * SCALE
  {
    var t := ExampleTable();
    var c := ExampleCatalog();
    assert Inputs(t, c, [1, 1]);
    EncodeAtCap(1.0);
    EncodeSign(0.0, 1.0);
    ScaleValue();
    var S: seq<nat> := [0, 2];
    assert S[1..] == [2] && S[1..][1..] == [];
    assert ColumnSum(t, c, S, 0) == SCALE;
    assert ColumnSum(t, c, S, 1) == SCALE;
    var v := FullSum(t, c, S);
    assert v == [SCALE, SCALE];
    UtilityPair(v, [1, 1]);
  }

  /**
   * `has_upgrade ? 2 : 1` costs the optimum when an upgrade twin is dropped
   * by the reduction: on the example the twin of entry 0 is zero, entry 2
   * then follows entry 0 in the compact list and is skipped, so
   * `evaluate_naive` reports at most SCALE although the admissible catalog
   * selection {0, 2} is worth twice that.
   */
  lemma UpgradeSkipsNonTwin(maxCp: nat, threads: nat, assign: nat -> nat, align: nat)
    requires 2 <= maxCp && align > 0
    ensures !TwinsCover(ExampleCatalog())
    ensures Inputs(ExampleTable(), ExampleCatalog(), [1, 1])
    ensures Admissible(ExampleCatalog(), maxCp, [0, 2], true)
    ensures EvaluateNaive(ExampleTable(), ExampleCatalog(), maxCp, [1, 1], threads, assign, align).utility
            < FullValue(ExampleTable(), ExampleCatalog(), [1, 1], [0, 2])
  {
    ExampleUncovered(ExampleCatalog());
    ExampleAdmissible(ExampleCatalog(), maxCp);
    ExampleBestCompacted(maxCp);
    ExampleFullValue();
    ScaleValue();
  }

  /** The twin of entry 0 of the example is zero where entry 0 is not. */
  lemma ExampleUncovered(c: seq<Charm>)
    requires c == ExampleCatalog()
    ensures !TwinsCover(c)
  {
    assert c[0].hasUpgrade && c[0].raw[0] != 0.0 && c[1].raw[0] == 0.0;
  }

  /** Entries 0 and 2 of the example form an admissible selection for any budget of 2 or more. */
  lemma ExampleAdmissible(c: seq<Charm>, maxCp: nat)
    requires c == ExampleCatalog() && 2 <= maxCp
    ensures Admissible(c, maxCp, [0, 2], true)
  {
    var S: seq<nat> := [0, 2];
    assert S[1..] == [2] && S[1..][1..] == [];
    assert CatalogCost(c, S) == 2;
  }

  /** The utility of two abilities is the sum of their two terms. */
  lemma UtilityPair(v: seq<int>, w: seq<int>)
    requires |v| == 2 && |w| == 2
    ensures Utility(v, w) == Term(v[0], w[0]) + Term(v[1], w[1])
  {
    assert v[..1][..0] == [];
    assert Utility(v[..1], w[..1]) == Term(v[0], w[0]);
  }

  /** In a chain of two or more picks, the second is at least the first plus its offset. */
  lemma ChainSecond(offset: seq<nat>, e: seq<nat>)
    requires FlatChain(offset, 0, e)
    ensures |e| <= 1 || e[0] + offset[e[0]] < |offset|
  {
    if |e| >= 2 {
      assert e[0] + offset[e[0]] <= e[1] < |offset|;
    }
  }

  /** A chain over two charms whose first offset is 2 has at most one pick. */
  lemma ShortChain(offset: seq<nat>, e: seq<nat>)
    requires offset == [2, 1] && FlatChain(offset, 0, e)
    ensures |e| <= 1
  {
    ChainSecond(offset, e);
  }
}
