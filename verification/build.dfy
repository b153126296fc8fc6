/**
 * The bridge `eval_charms_dyn` of src/common/eval_naive.cpp (and of
 * src/eval_naive.cpp): the stat, power and offset tables the search runs
 * on, built from the compact charms of the reduction, and the mapping of
 * compacted indices back to catalog positions.
 */
module Build {
  import opened Charms
  import opened Aligned
  import opened Search
  import opened Enumeration
  import opened Prepare

  /** The inputs `evaluate_naive` accepts: a well-formed table, a fitting catalog, one weight per ability. */
  predicate Inputs(t: AbilityTable, catalog: seq<Charm>, weights: seq<int>) {
    && ValidTable(t)
    && CatalogFits(t, catalog)
    && |weights| == |t.names|
    && |catalog| < MISSING_ID
  }

  /** Every compact charm carries `n` encoded stats. */
  predicate StatsWidth(charms: seq<CompactCharm>, n: nat) {
    forall p :: 0 <= p < |charms| ==> |charms[p].stats| == n
  }

  /** An offset table for the compact charms: one entry each, every entry 1 or 2. */
  predicate OffsetsFor(charms: seq<CompactCharm>, offset: seq<nat>) {
    && |offset| == |charms|
    && forall p :: 0 <= p < |offset| ==> 1 <= offset[p] <= 2
  }

  /** `charm.has_upgrade ? 2 : 1` for every compact charm. */
  function UpgradeOffsets(charms: seq<CompactCharm>): (r: seq<nat>)
    ensures OffsetsFor(charms, r)
    ensures forall p :: 0 <= p < |charms| ==> (r[p] == 2 <==> charms[p].hasUpgrade)
  {
    seq(|charms|, p requires 0 <= p < |charms| => if charms[p].hasUpgrade then 2 else 1)
  }

  /**
   * The search tables before padding: the compact weights, each compact
   * charm's stats and power, the given offsets and the power budget.
   */
  function BuildKernel(charms: seq<CompactCharm>, maxCp: nat, weights: seq<int>, offset: seq<nat>): (k: Kernel)
    requires StatsWidth(charms, |weights|) && |charms| < MISSING_ID && OffsetsFor(charms, offset)
    ensures Valid(k)
    ensures k.weights == weights && k.offset == offset && k.maxCp == maxCp && |k.stats| == |charms|
    ensures forall p :: 0 <= p < |charms| ==> k.stats[p] == charms[p].stats && k.cp[p] == charms[p].power
  {
    Kernel(weights,
           seq(|charms|, p requires 0 <= p < |charms| => charms[p].stats),
           seq(|charms|, p requires 0 <= p < |charms| => charms[p].power),
           offset, maxCp)
  }

  /** The reduction of valid inputs yields at most as many compact charms as catalog entries, each of the compact width. */
  lemma PrepareShape(t: AbilityTable, catalog: seq<Charm>, weights: seq<int>)
    requires Inputs(t, catalog, weights)
    ensures var prep := PrepareCharmData(t, catalog, weights);
      && |prep.charms| <= |catalog|
      && StatsWidth(prep.charms, |prep.weights|)
      && |prep.weights| == |prep.important| <= |t.names|
  {
    PrepareKeeps(t, catalog, weights);
  }

  /** The search tables `evaluate_naive` hands to the search, before padding, for a given offset table. */
  function CompactKernel(t: AbilityTable, catalog: seq<Charm>, maxCp: nat, weights: seq<int>, offset: seq<nat>): (k: Kernel)
    requires Inputs(t, catalog, weights)
    requires OffsetsFor(PrepareCharmData(t, catalog, weights).charms, offset)
    ensures var prep := PrepareCharmData(t, catalog, weights);
      && Valid(k)
      && k.weights == prep.weights && k.offset == offset && k.maxCp == maxCp && |k.stats| == |prep.charms|
      && (forall p :: 0 <= p < |prep.charms| ==> k.stats[p] == prep.charms[p].stats && k.cp[p] == prep.charms[p].power)
  {
    PrepareShape(t, catalog, weights);
    var prep := PrepareCharmData(t, catalog, weights);
    BuildKernel(prep.charms, maxCp, prep.weights, offset)
  }

  /** The catalog positions of the compacted picks `e`, in order. */
  function Originals(charms: seq<CompactCharm>, e: seq<nat>): (r: seq<nat>)
    requires InRange(e, |charms|)
    ensures |r| == |e|
    ensures forall j :: 0 <= j < |e| ==> r[j] == charms[e[j]].originalIndex
  {
    seq(|e|, j requires 0 <= j < |e| => charms[e[j]].originalIndex)
  }

  /**
   * The translation loop of `evaluate_naive`: every slot that is not
   * MISSING_ID, front to back, as the catalog position of that compact
   * charm.
   */
  function Translate(slots: seq<nat>, charms: seq<CompactCharm>): (r: seq<nat>)
    requires forall i :: 0 <= i < |slots| ==> slots[i] == MISSING_ID || slots[i] < |charms|
    ensures |r| <= |slots|
    ensures forall x :: x in r ==> exists p :: 0 <= p < |charms| && charms[p].originalIndex == x
    decreases |slots|
  {
    if slots == [] then []
    else (if slots[0] == MISSING_ID then [] else [charms[slots[0]].originalIndex]) + Translate(slots[1..], charms)
  }

  /**
   * A buffer holding n compacted picks followed by MISSING_ID translates
   * to the catalog positions of those picks.
   */
  lemma {:induction false} TranslatePicks(slots: seq<nat>, n: nat, charms: seq<CompactCharm>)
    requires n <= |slots| && |charms| < MISSING_ID
    requires forall i :: 0 <= i < n ==> slots[i] < |charms|
    requires forall i :: n <= i < |slots| ==> slots[i] == MISSING_ID
    ensures Translate(slots, charms) == Originals(charms, slots[..n])
    decreases |slots|
  {
    if slots != [] {
      if n == 0 {
        TranslatePicks(slots[1..], 0, charms);
      } else {
        TranslatePicks(slots[1..], n - 1, charms);
        assert slots[1..][..n - 1] == slots[..n][1..];
        assert Originals(charms, slots[..n]) == [charms[slots[0]].originalIndex] + Originals(charms, slots[..n][1..]);
      }
    }
  }

  /** Translating the buffer that a selection of at most eight compacted picks fills gives their catalog positions. */
  lemma TranslateFilled(e: seq<nat>, charms: seq<CompactCharm>)
    requires InRange(e, |charms|) && |e| <= SLOT_COUNT && |charms| < MISSING_ID
    ensures forall i :: 0 <= i < SLOT_COUNT ==> Fill(EmptySlots(), 0, e)[i] == MISSING_ID || Fill(EmptySlots(), 0, e)[i] < |charms|
    ensures Translate(Fill(EmptySlots(), 0, e), charms) == Originals(charms, e)
  {
    var slots := Fill(EmptySlots(), 0, e);
    FillAt(EmptySlots(), 0, e);
    assert slots[..|e|] == e;
    TranslatePicks(slots, |e|, charms);
  }
}
