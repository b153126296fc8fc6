/**
 * The older engine of src/eval_naive.cpp. It shares the reduction, the
 * utility and the search with the current engine, with three differences:
 * the recursion's lower bound is always i + 1 (no upgrade-twin skip), the
 * selection buffers of a helper and of the reduction start value-initialised
 * (eight 0 ids) rather than filled with MISSING_ID, and the result is the
 * list of compacted indices, returned as they are, with no utility.
 *
 * Each discrepancy with what the engine evidently intends is modelled as
 * written and next to a corrected definition whose intended property is
 * proved.
 */
module Legacy {
  import opened Charms
  import opened Aligned
  import opened Stats
  import opened Search
  import opened Enumeration
  import opened Parallel
  import opened Width
  import opened Prepare
  import opened Build
  import opened CatalogValue
  import opened CatalogOptimality

  /** TABLE_SIZE_ALIGN of the older engine: a 512-bit block over 4-byte values. */
  const LEGACY_ALIGN: nat := 512 / 8 / 4

  /** A value-initialised `charm_set_buffer`: eight 0 ids. */
  function ZeroSlots(): (r: seq<nat>)
    ensures |r| == SLOT_COUNT && forall i :: 0 <= i < SLOT_COUNT ==> r[i] == 0
  {
    seq(SLOT_COUNT, i => 0)
  }

  /** `prepare_result`: every slot that is not MISSING_ID, front to back. */
  function PrepareResult(slots: seq<nat>): (r: seq<nat>)
    ensures forall j :: 0 <= j < |r| ==> r[j] != MISSING_ID && r[j] in slots
    ensures |r| <= |slots|
    decreases |slots|
  {
    if slots == [] then []
    else
      var rest := PrepareResult(slots[1..]);
      assert forall j :: 0 <= j < |rest| ==> rest[j] in slots by {
        forall j | 0 <= j < |rest|
          ensures rest[j] in slots
        {
          assert rest[j] in slots[1..];
        }
      }
      (if slots[0] == MISSING_ID then [] else [slots[0]]) + rest
  }

  /** A buffer of n ids followed by MISSING_ID gives back those n ids. */
  lemma {:induction false} PrepareResultPicks(slots: seq<nat>, n: nat)
    requires n <= |slots|
    requires forall i :: 0 <= i < n ==> slots[i] != MISSING_ID
    requires forall i :: n <= i < |slots| ==> slots[i] == MISSING_ID
    ensures PrepareResult(slots) == slots[..n]
    decreases |slots|
  {
    if slots != [] {
      if n == 0 {
        PrepareResultPicks(slots[1..], 0);
      } else {
        PrepareResultPicks(slots[1..], n - 1);
        assert slots[1..][..n - 1] == slots[..n][1..];
      }
    }
  }

  /** The buffer a selection of compacted indices fills gives back that selection. */
  lemma PrepareResultFilled(e: seq<nat>, n: nat)
    requires InRange(e, n) && |e| <= SLOT_COUNT && n < MISSING_ID
    ensures PrepareResult(Fill(EmptySlots(), 0, e)) == e
  {
    FilledGivesBack(EmptySlots(), e, n);
  }

  /** Ids filled into a buffer of MISSING_ID come back in order. */
  lemma FilledGivesBack(base: seq<nat>, e: seq<nat>, n: nat)
    requires InRange(e, n) && |e| <= |base| && n < MISSING_ID
    requires forall i :: 0 <= i < |base| ==> base[i] == MISSING_ID
    ensures PrepareResult(Fill(base, 0, e)) == e
  {
    var slots := Fill(base, 0, e);
    FillAt(base, 0, e);
    assert forall i :: 0 <= i < |e| ==> slots[i] == e[i] && e[i] < n;
    assert slots[..|e|] == e;
    PrepareResultPicks(slots, |e|);
  }

  /** A value-initialised buffer holds no MISSING_ID, so all eight 0 ids come back. */
  lemma {:induction false} PrepareResultZeros(slots: seq<nat>)
    requires forall i :: 0 <= i < |slots| ==> slots[i] == 0
    ensures PrepareResult(slots) == slots
    decreases |slots|
  {
    if slots != [] {
      PrepareResultZeros(slots[1..]);
    }
  }

  /** The older recursion's lower bound i + 1: an offset of 1 for every compact charm. */
  function NextOffsets(charms: seq<CompactCharm>): (r: seq<nat>)
    ensures OffsetsFor(charms, r)
    ensures forall p :: 0 <= p < |r| ==> r[p] == 1
  {
    seq(|charms|, p => 1)
  }

  /** An offset of 1 skips no twin and nothing else; the older engine ignores upgrades. */
  lemma NextOffsetsSkipNothing(charms: seq<CompactCharm>)
    ensures SkipsTwins(charms, NextOffsets(charms), false)
    ensures SkipsOnlyTwins(charms, NextOffsets(charms), false)
  {
  }

  /** The search tables the older `eval_charms_dyn` builds before padding. */
  function LegacyKernel(t: AbilityTable, catalog: seq<Charm>, maxCp: nat, weights: seq<int>): (k: Kernel)
    requires Inputs(t, catalog, weights)
    ensures Valid(k) && |k.stats| == |PrepareCharmData(t, catalog, weights).charms|
    ensures |k.weights| == |PrepareCharmData(t, catalog, weights).important|
  {
    CompactKernel(t, catalog, maxCp, weights, NextOffsets(PrepareCharmData(t, catalog, weights).charms))
  }

  /**
   * The serial path of the older `eval_charms`: a helper with running best
   * -1 and a value-initialised buffer, started at the zero table with an
   * all-MISSING_ID id buffer.
   */
  function LegacySerial(k: Kernel): (r: Best)
    requires Valid(k)
    ensures r.utility >= 0
  {
    UtilityOfZeros(k.weights);
    EvalCharm(k, CHARM_COUNT_MAX, Zeros(|k.weights|), 0, EmptySlots(), 0, Best(-1, ZeroSlots()))
  }

  /**
   * The root is always within budget and worth 0 > -1, so it replaces the
   * value-initialised buffer before anything reads it: the older serial
   * path is the serial search.
   */
  lemma LegacySerialIsSerial(k: Kernel)
    requires Valid(k)
    ensures LegacySerial(k) == Serial(k)
  {
    UtilityOfZeros(k.weights);
  }

  /**
   * The parallel path of the older `eval_charms`: helpers with running best
   * -1 and a value-initialised buffer, reduced from utility 0 and another
   * value-initialised buffer.
   */
  function LegacyParallel(k: Kernel, threads: nat, assign: nat -> nat): (r: Best)
    requires Valid(k) && threads > 0
    ensures r.utility >= 0
  {
    Reduce(k, threads, assign, threads, Best(-1, ZeroSlots()), Best(0, ZeroSlots()))
  }

  /**
   * The older `eval_charms` as written. The returned ids are an optimal
   * valid selection, except on the parallel path when no nonempty
   * selection gains anything: then the untouched reduction buffer yields
   * eight 0 ids.
   */
  function LegacyEvalCharms(k: Kernel, threads: nat, assign: nat -> nat): (r: seq<nat>)
    requires Valid(k)
    ensures threads > 1 && (forall e :: e != [] && ValidSelection(k, e) ==> Value(k, e) <= 0) ==> r == ZeroSlots()
    ensures (threads <= 1 || exists e :: e != [] && ValidSelection(k, e) && Value(k, e) > 0) ==>
      && ValidSelection(k, r)
      && forall e :: ValidSelection(k, e) ==> Value(k, e) <= Value(k, r)
  {
    SerialOptimal(k);
    if threads <= 1 then
      LegacySerialIsSerial(k);
      var e :| ValidSelection(k, e) && Value(k, e) == Serial(k).utility && Serial(k).slots == Fill(EmptySlots(), 0, e);
      PrepareResultFilled(e, |k.stats|);
      PrepareResult(LegacySerial(k).slots)
    else
      var b := LegacyParallel(k, threads, assign);
      ReduceMatchesSerial(k, threads, assign, Best(-1, ZeroSlots()), Best(0, ZeroSlots()));
      ReduceShape(k, threads, assign, Best(-1, ZeroSlots()), Best(0, ZeroSlots()));
      PrepareResultZeros(ZeroSlots());
      if b == Best(0, ZeroSlots()) then PrepareResult(b.slots)
      else
        var e :| && e != [] && ValidSelection(k, e) && Value(k, e) > 0
                 && b == Best(Value(k, e), Fill(EmptySlots(), 0, e));
        PrepareResultFilled(e, |k.stats|);
        PrepareResult(b.slots)
  }

  /** The older search at a padded width, stated against the unpadded kernel. */
  function LegacyAtWidth(k: Kernel, width: nat, threads: nat, assign: nat -> nat): (r: seq<nat>)
    requires Valid(k) && |k.weights| <= width
    ensures threads > 1 && (forall e :: e != [] && ValidSelection(k, e) ==> Value(k, e) <= 0) ==> r == ZeroSlots()
    ensures (threads <= 1 || exists e :: e != [] && ValidSelection(k, e) && Value(k, e) > 0) ==>
      && ValidSelection(k, r)
      && forall e :: ValidSelection(k, e) ==> Value(k, e) <= Value(k, r)
  {
    var pk := PadKernel(k, width);
    forall e
      ensures ValidSelection(pk, e) <==> ValidSelection(k, e)
      ensures InRange(e, |k.stats|) ==> Value(pk, e) == Value(k, e)
    {
      ValuePadded(k, width, e);
    }
    LegacyEvalCharms(pk, threads, assign)
  }

  /**
   * The older `evaluate_naive` as written: no important ability gives the
   * empty list before any search; otherwise the search at the aligned width
   * returns compacted indices, not catalog positions.
   */
  function LegacyEvaluateNaive(t: AbilityTable, catalog: seq<Charm>, maxCp: nat, weights: seq<int>,
                               threads: nat, assign: nat -> nat): (r: seq<nat>)
    requires Inputs(t, catalog, weights)
    ensures PrepareCharmData(t, catalog, weights).important == [] ==> r == []
    ensures var k := LegacyKernel(t, catalog, maxCp, weights);
      && PrepareCharmData(t, catalog, weights).important != []
      && threads > 1 && (forall e :: e != [] && ValidSelection(k, e) ==> Value(k, e) <= 0)
      ==> r == ZeroSlots()
    ensures var k := LegacyKernel(t, catalog, maxCp, weights);
      && PrepareCharmData(t, catalog, weights).important != []
      && (threads <= 1 || exists e :: e != [] && ValidSelection(k, e) && Value(k, e) > 0)
      ==> ValidSelection(k, r) && forall e :: ValidSelection(k, e) ==> Value(k, e) <= Value(k, r)
  {
    var n := |PrepareCharmData(t, catalog, weights).important|;
    if n == 0 then []
    else
      TableSizeForLeast(n, LEGACY_ALIGN);
      LegacyAtWidth(LegacyKernel(t, catalog, maxCp, weights), TableSizeFor(n, LEGACY_ALIGN), threads, assign)
  }

  // ---------------------------------------------------------------------
  // The corrected engine: reduction from an all-MISSING_ID buffer, result
  // mapped through the catalog positions.
  // ---------------------------------------------------------------------

  /**
   * The older `eval_charms` with the reduction starting from an
   * all-MISSING_ID buffer: an optimal reached selection on both paths, and
   * utility 0 with an empty buffer when nothing gains.
   */
  function LegacyEvalCharmsFixed(k: Kernel, threads: nat, assign: nat -> nat): (r: Best)
    requires Valid(k)
    ensures forall e :: ValidSelection(k, e) ==> Value(k, e) <= r.utility
    ensures Reached(k, r)
    ensures (forall e :: ValidSelection(k, e) ==> Value(k, e) <= 0) ==> r == ReduceInit()
  {
    SerialOptimal(k);
    SerialNoGain(k);
    LegacySerialIsSerial(k);
    if threads <= 1 then LegacySerial(k)
    else
      var b := Reduce(k, threads, assign, threads, Best(-1, ZeroSlots()), ReduceInit());
      ReduceMatchesSerial(k, threads, assign, Best(-1, ZeroSlots()), ReduceInit());
      ReduceShape(k, threads, assign, Best(-1, ZeroSlots()), ReduceInit());
      EmptySelection(k);
      assert Fill(EmptySlots(), 0, []) == EmptySlots();
      b
  }

  /** The corrected search at a padded width, stated against the unpadded kernel. */
  function LegacyFixedAtWidth(k: Kernel, width: nat, threads: nat, assign: nat -> nat): (r: Best)
    requires Valid(k) && |k.weights| <= width
    ensures forall e :: ValidSelection(k, e) ==> Value(k, e) <= r.utility
    ensures Reached(k, r)
    ensures (forall e :: ValidSelection(k, e) ==> Value(k, e) <= 0) ==> r == ReduceInit()
  {
    var pk := PadKernel(k, width);
    var r := LegacyEvalCharmsFixed(pk, threads, assign);
    forall e | ValidSelection(k, e)
      ensures ValidSelection(pk, e) && Value(k, e) == Value(pk, e)
    {
      ValuePadded(k, width, e);
    }
    var e :| ValidSelection(pk, e) && Value(pk, e) == r.utility && r.slots == Fill(EmptySlots(), 0, e);
    ValuePadded(k, width, e);
    r
  }

  /**
   * The older `evaluate_naive` corrected: the reduction starts from an
   * all-MISSING_ID buffer and the ids are mapped through the catalog
   * positions, as the current engine does. It reports the catalog
   * positions of an optimal valid selection.
   */
  function LegacyEvaluateFixed(t: AbilityTable, catalog: seq<Charm>, maxCp: nat, weights: seq<int>,
                               threads: nat, assign: nat -> nat): (r: seq<nat>)
    requires Inputs(t, catalog, weights)
    ensures var k := LegacyKernel(t, catalog, maxCp, weights);
      exists e :: && ValidSelection(k, e) && r == Originals(PrepareCharmData(t, catalog, weights).charms, e)
                  && forall e' :: ValidSelection(k, e') ==> Value(k, e') <= Value(k, e)
    ensures var k := LegacyKernel(t, catalog, maxCp, weights);
      (forall e :: ValidSelection(k, e) ==> Value(k, e) <= 0) ==> r == []
  {
    var prep := PrepareCharmData(t, catalog, weights);
    var k := LegacyKernel(t, catalog, maxCp, weights);
    var n := |prep.important|;
    EmptySelection(k);
    TranslateFilled([], prep.charms);
    if n == 0 then
      PrepareNoImportant(t, catalog, weights);
      NoCharmsOnlyEmpty(k);
      []
    else
      TableSizeForLeast(n, LEGACY_ALIGN);
      var b := LegacyFixedAtWidth(k, TableSizeFor(n, LEGACY_ALIGN), threads, assign);
      var e :| ValidSelection(k, e) && Value(k, e) == b.utility && b.slots == Fill(EmptySlots(), 0, e);
      TranslateFilled(e, prep.charms);
      Translate(b.slots, prep.charms)
  }
}
