/**
 * `evaluate_naive` of src/common/eval_naive.cpp on the one-charm catalog
 * of the repository's `naive.single` case (src/test/test_naive.cpp): a
 * charm of power 1 with raw value -30 under weight 1. The engine reports
 * it exactly when its encoded value is positive, which for a negative raw
 * value needs a negative cap (a "lower is better" ability).
 */
module EngineCases {
  import opened Charms
  import opened Aligned
  import opened Stats
  import opened Search
  import opened Enumeration
  import opened Prepare
  import opened Build
  import opened Engine
  import opened LegacyFindings

  /** One ability whose cap is -30: lower values are the better ones. */
  function NegativeCap(): AbilityTable {
    AbilityTable(["a"], [-30.0])
  }

  /** The catalog of the `single` case: one charm of power 1 with raw value -30. */
  function SingleNegative(): seq<Charm> {
    [Charm(1, false, [-30.0])]
  }

  /** The one ability is important and the one charm survives the reduction. */
  lemma SingleNegativeKept(catalog: seq<Charm>)
    requires catalog == SingleNegative()
    ensures Rows(catalog, 1) && AllCover(catalog, [0])
    ensures ImportantAbilities(catalog, [1], 1) == [0]
    ensures Survivors(catalog, [0], 1) == [0]
  {
    assert Rows(catalog, 1);
    assert AnyNonzero(catalog, 0) by {
      assert catalog[0].raw[0] != 0.0;
    }
    assert ImportantAbilities(catalog, [1], 1) == [0];
    var imp: seq<nat> := [0];
    assert AllCover(catalog, imp);
    assert NonzeroIn(catalog[0], imp) by {
      assert catalog[0].raw[imp[0]] != 0.0;
    }
    assert Survivors(catalog, imp, 1) == [] + [0];
  }

  /** The kept charm, at the cap of its ability, encodes to SCALE. */
  lemma SingleNegativeEncoded(t: AbilityTable, catalog: seq<Charm>)
    requires t == NegativeCap() && catalog == SingleNegative()
    ensures CapsFor(t, [0]) && AllCover(catalog, [0])
    ensures CompactCharms(t, catalog, [0]) == [CompactCharm(0, 1, false, [SCALE])]
  {
    SingleNegativeKept(catalog);
    var imp: seq<nat> := [0];
    assert CapsFor(t, imp);
    var row := EncodeRow(t, catalog[0], imp);
    assert row[0] == Encode(-30.0, -30.0);
    EncodeAtCap(-30.0);
    assert row == [SCALE];
    var cs := CompactCharms(t, catalog, imp);
    assert |cs| == 1 && cs[0] == CompactOf(t, catalog, imp, 0);
  }

  /** The single-charm catalog suits the table of one ability. */
  lemma SingleNegativeInputs(t: AbilityTable, catalog: seq<Charm>)
    requires t == NegativeCap() && catalog == SingleNegative()
    ensures Inputs(t, catalog, [1]) && |t.names| == 1
  {
    assert CharmFits(t, catalog[0]);
  }

  /** The reduction keeps the one ability and the one charm, encoded at SCALE. */
  lemma SingleNegativePrepared(t: AbilityTable, catalog: seq<Charm>)
    requires t == NegativeCap() && catalog == SingleNegative()
    ensures Inputs(t, catalog, [1])
    ensures PrepareCharmData(t, catalog, [1]).charms == [CompactCharm(0, 1, false, [SCALE])]
    ensures PrepareCharmData(t, catalog, [1]).weights == [1]
  {
    SingleNegativeInputs(t, catalog);
    SingleNegativeKept(catalog);
    SingleNegativeEncoded(t, catalog);
    var prep := PrepareCharmData(t, catalog, [1]);
    assert prep.important == [0];
    assert prep.charms == CompactCharms(t, catalog, [0]);
    assert prep.weights == Project([1], [0]);
    assert Project([1], [0]) == [1];
  }

  /** The search tables `evaluate_naive` builds for it: one charm of power 1 worth SCALE, offset 1. */
  lemma SingleNegativeKernel(t: AbilityTable, catalog: seq<Charm>, maxCp: nat)
    requires t == NegativeCap() && catalog == SingleNegative()
    ensures Inputs(t, catalog, [1])
    ensures var k := EngineKernel(t, catalog, maxCp, [1]);
      && k.stats == [[SCALE]] && k.cp == [1] && k.offset == [1] && k.weights == [1] && k.maxCp == maxCp
  {
    SingleNegativePrepared(t, catalog);
    var k := EngineKernel(t, catalog, maxCp, [1]);
    assert k.stats == [k.stats[0]] && k.cp == [k.cp[0]];
    assert k.offset == [k.offset[0]];
  }

  /**
   * On a kernel that holds one charm, when picking it fits and gains,
   * `evaluate_naive` reports that charm's catalog position at its utility.
   */
  lemma OneCharmReported(t: AbilityTable, catalog: seq<Charm>, maxCp: nat, weights: seq<int>,
                         threads: nat, assign: nat -> nat, align: nat)
    requires Inputs(t, catalog, weights) && align > 0
    requires var k := EngineKernel(t, catalog, maxCp, weights);
      && |k.stats| == 1 && k.offset == [1] && ValidSelection(k, [0]) && Value(k, [0]) > 0
    ensures var k := EngineKernel(t, catalog, maxCp, weights);
      EvaluateNaive(t, catalog, maxCp, weights, threads, assign, align)
        == EvalResult(Value(k, [0]), [PrepareCharmData(t, catalog, weights).charms[0].originalIndex])
  {
    var charms := PrepareCharmData(t, catalog, weights).charms;
    var k := EngineKernel(t, catalog, maxCp, weights);
    var r := EvaluateNaive(t, catalog, maxCp, weights, threads, assign, align);
    var e :| ValidSelection(k, e) && Value(k, e) == r.utility && r.charms == Originals(charms, e);
    SingleGain(k, e);
    OriginalsOne(charms);
  }

  /**
   * The `single` case: under a negative cap of -30 and any budget of at
   * least 1, `evaluate_naive` reports catalog position 0 at utility SCALE,
   * the answer `ElementsAre(0)` the case expects.
   */
  lemma SingleNegativeReported(t: AbilityTable, catalog: seq<Charm>, maxCp: nat,
                               threads: nat, assign: nat -> nat, align: nat)
    requires t == NegativeCap() && catalog == SingleNegative() && maxCp >= 1 && align > 0
    ensures Inputs(t, catalog, [1])
    ensures EvaluateNaive(t, catalog, maxCp, [1], threads, assign, align) == EvalResult(SCALE, [0])
  {
    SingleNegativePrepared(t, catalog);
    SingleNegativeKernel(t, catalog, maxCp);
    var k := EngineKernel(t, catalog, maxCp, [1]);
    SingleValue(k);
    ScaleValue();
    assert Cost(k.cp, [0]) == 1;
    OneCharmReported(t, catalog, maxCp, [1], threads, assign, align);
  }
}
