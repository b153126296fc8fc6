/**
 * The reduction step `prepare_charm_data` of src/common/eval_naive.cpp
 * (and the identical `prepare` of src/eval_naive.cpp): keep the important
 * abilities, keep the charms nonzero in one of them, encode their values
 * as fixed-point integers and project the weights.
 *
 * Raw charm values and caps are exact reals here; the source computes in
 * double precision, so rounding before the cast is not modelled.
 */
module Prepare {
  import opened Charms
  import opened Aligned
  import opened Stats

  /** The C++ conversion of a floating value to an integer: truncation toward zero. */
  function Trunc(x: real): (r: int)
    ensures x >= 0.0 ==> 0 <= r && r as real <= x < r as real + 1.0
    ensures x < 0.0 ==> r <= 0 && r as real - 1.0 < x <= r as real
  {
    if x >= 0.0 then x.Floor else -((-x).Floor)
  }

  /** Truncation drops the fractional part toward zero. */
  lemma TruncBounds(x: real)
    ensures x >= 0.0 ==> Trunc(x) >= 0 && Trunc(x) as real <= x < Trunc(x) as real + 1.0
    ensures x < 0.0 ==> Trunc(x) <= 0 && Trunc(x) as real - 1.0 < x <= Trunc(x) as real
  {
  }

  /**
   * `(int32_t)(raw / cap * ENCODED_CHARM_STAT_SCALE)`: the value relative
   * to its cap, scaled and truncated. There is no clamp: a value beyond
   * its cap encodes beyond SCALE.
   */
  function Encode(raw: real, cap: real): (r: int)
    requires cap != 0.0
    ensures r as real - 1.0 < raw / cap * SCALE as real < r as real + 1.0
  {
    Trunc(raw / cap * SCALE as real)
  }

  /** A zero value encodes to 0, and the code keeps the sign of raw / cap. */
  lemma EncodeSign(raw: real, cap: real)
    requires cap != 0.0
    ensures raw == 0.0 ==> Encode(raw, cap) == 0
    ensures raw / cap >= 0.0 ==> Encode(raw, cap) >= 0
    ensures raw / cap <= 0.0 ==> Encode(raw, cap) <= 0
  {
    TruncBounds(raw / cap * SCALE as real);
  }

  /** A value exactly at its cap encodes to SCALE; twice the cap encodes to twice SCALE. */
  lemma EncodeAtCap(cap: real)
    requires cap != 0.0
    ensures Encode(cap, cap) == SCALE
    ensures Encode(2.0 * cap, cap) == 2 * SCALE
  {
    ScaleValue();
    assert cap / cap == 1.0;
    assert 2.0 * cap / cap == 2.0;
    assert (SCALE as real).Floor == SCALE;
    assert ((2 * SCALE) as real).Floor == 2 * SCALE;
  }

  /** Every charm of the catalog carries at least `n` raw values. */
  predicate Rows(catalog: seq<Charm>, n: nat) {
    forall i :: 0 <= i < |catalog| ==> n <= |catalog[i].raw|
  }

  /**
   * The scan `for (charm : charms) if (charm_data[a] != 0) { has_nonzero = true; break; }`:
   * some charm has a nonzero raw value for ability a.
   */
  function AnyNonzero(catalog: seq<Charm>, a: nat): (r: bool)
    requires Rows(catalog, a + 1)
    ensures r <==> exists i :: 0 <= i < |catalog| && catalog[i].raw[a] != 0.0
    decreases |catalog|
  {
    if catalog == [] then false
    else if catalog[0].raw[a] != 0.0 then true
    else
      assert forall i :: 1 <= i < |catalog| ==> catalog[1..][i - 1] == catalog[i];
      AnyNonzero(catalog[1..], a)
  }

  /** An ability matters iff its weight is nonzero and some charm has a nonzero value for it. */
  predicate Important(catalog: seq<Charm>, weights: seq<int>, a: nat)
    requires a < |weights| && Rows(catalog, a + 1)
  {
    weights[a] != 0 && exists i :: 0 <= i < |catalog| && catalog[i].raw[a] != 0.0
  }

  /** The first loop of the reduction over abilities 0 .. n-1: the important ones, ascending. */
  function ImportantAbilities(catalog: seq<Charm>, weights: seq<int>, n: nat): (r: seq<nat>)
    requires n <= |weights| && Rows(catalog, n)
    ensures |r| <= n
    ensures forall p :: 0 <= p < |r| ==> r[p] < n
    ensures forall p, q :: 0 <= p < q < |r| ==> r[p] < r[q]
    ensures forall a: nat :: a in r <==> a < n && Important(catalog, weights, a)
    decreases n
  {
    if n == 0 then []
    else
      var prev := ImportantAbilities(catalog, weights, n - 1);
      if weights[n - 1] != 0 && AnyNonzero(catalog, n - 1) then prev + [n - 1] else prev
  }

  /** `charm_compact_dyn`: catalog position, power, upgrade flag and encoded important stats. */
  datatype CompactCharm = CompactCharm(originalIndex: nat, power: nat, hasUpgrade: bool, stats: seq<int>)

  /** The table caps exist for every listed ability and none is zero. */
  predicate CapsFor(t: AbilityTable, imp: seq<nat>) {
    forall p :: 0 <= p < |imp| ==> imp[p] < |t.caps| && t.caps[imp[p]] != 0.0
  }

  /** Every listed ability is a raw value of charm c. */
  predicate Covers(c: Charm, imp: seq<nat>) {
    forall p :: 0 <= p < |imp| ==> imp[p] < |c.raw|
  }

  /** The encoded values of charm c at the abilities `imp`, in that order. */
  function EncodeRow(t: AbilityTable, c: Charm, imp: seq<nat>): (r: seq<int>)
    requires CapsFor(t, imp) && Covers(c, imp)
    ensures |r| == |imp|
    ensures forall p :: 0 <= p < |imp| ==> r[p] == Encode(c.raw[imp[p]], t.caps[imp[p]])
  {
    seq(|imp|, p requires 0 <= p < |imp| => Encode(c.raw[imp[p]], t.caps[imp[p]]))
  }

  /** The `has_nonzero |= (charm_data[a] != 0)` accumulation over the listed abilities. */
  function NonzeroIn(c: Charm, imp: seq<nat>): (r: bool)
    requires Covers(c, imp)
    ensures r <==> exists p :: 0 <= p < |imp| && c.raw[imp[p]] != 0.0
    decreases |imp|
  {
    if imp == [] then false
    else NonzeroIn(c, imp[..|imp| - 1]) || c.raw[imp[|imp| - 1]] != 0.0
  }

  /** Every charm of the catalog has a raw value for every listed ability. */
  predicate AllCover(catalog: seq<Charm>, imp: seq<nat>) {
    forall i :: 0 <= i < |catalog| ==> Covers(catalog[i], imp)
  }

  /** The compact form of catalog entry i. */
  function CompactOf(t: AbilityTable, catalog: seq<Charm>, imp: seq<nat>, i: nat): CompactCharm
    requires i < |catalog| && CapsFor(t, imp) && AllCover(catalog, imp)
  {
    CompactCharm(i, catalog[i].power, catalog[i].hasUpgrade, EncodeRow(t, catalog[i], imp))
  }

  /**
   * The catalog entries among 0 .. n-1 the second loop of the reduction
   * keeps: those nonzero in some listed ability, in catalog order.
   */
  function Survivors(catalog: seq<Charm>, imp: seq<nat>, n: nat): (r: seq<nat>)
    requires n <= |catalog| && AllCover(catalog, imp)
    ensures |r| <= n
    ensures forall p :: 0 <= p < |r| ==> r[p] < n
    ensures forall p, q :: 0 <= p < q < |r| ==> r[p] < r[q]
    ensures forall i: nat :: i < n ==> (i in r <==> NonzeroIn(catalog[i], imp))
    ensures forall i: nat :: i in r ==> i < n
    decreases n
  {
    if n == 0 then []
    else
      var prev := Survivors(catalog, imp, n - 1);
      if NonzeroIn(catalog[n - 1], imp) then prev + [n - 1] else prev
  }

  /**
   * The kept entries in compact form: the second loop of the reduction
   * builds the compact form of every catalog entry and keeps the survivors.
   */
  function CompactCharms(t: AbilityTable, catalog: seq<Charm>, imp: seq<nat>): (r: seq<CompactCharm>)
    requires CapsFor(t, imp) && AllCover(catalog, imp)
    ensures var s := Survivors(catalog, imp, |catalog|);
      |r| == |s| && forall p :: 0 <= p < |r| ==> r[p] == CompactOf(t, catalog, imp, s[p])
  {
    var s := Survivors(catalog, imp, |catalog|);
    seq(|s|, p requires 0 <= p < |s| => CompactOf(t, catalog, imp, s[p]))
  }

  /** `eval_prep_result`. */
  datatype PrepResult = PrepResult(important: seq<nat>, charms: seq<CompactCharm>, weights: seq<int>)

  /** The catalog suits the table: one raw value per ability. */
  predicate CatalogFits(t: AbilityTable, catalog: seq<Charm>) {
    forall i :: 0 <= i < |catalog| ==> CharmFits(t, catalog[i])
  }

  /** `prepare_charm_data`, with ABILITY_COUNT the size of the ability table. */
  function PrepareCharmData(t: AbilityTable, catalog: seq<Charm>, weights: seq<int>): (r: PrepResult)
    requires ValidTable(t) && CatalogFits(t, catalog) && |weights| == |t.names|
    ensures r.important == ImportantAbilities(catalog, weights, |t.names|)
    ensures CapsFor(t, r.important) && AllCover(catalog, r.important)
    ensures r.charms == CompactCharms(t, catalog, r.important)
    ensures r.weights == Project(weights, r.important)
    ensures forall p :: 0 <= p < |r.weights| ==> r.weights[p] != 0
  {
    var imp := ImportantAbilities(catalog, weights, |t.names|);
    assert forall p :: 0 <= p < |imp| ==> imp[p] in imp;
    PrepResult(imp, CompactCharms(t, catalog, imp), Project(weights, imp))
  }

  /**
   * The compact charms are the catalog entries nonzero in some important
   * ability, in catalog order, each carrying its catalog position, power,
   * upgrade flag and one encoded stat per important ability.
   */
  lemma PrepareKeeps(t: AbilityTable, catalog: seq<Charm>, weights: seq<int>)
    requires ValidTable(t) && CatalogFits(t, catalog) && |weights| == |t.names|
    ensures var r := PrepareCharmData(t, catalog, weights);
      forall p :: 0 <= p < |r.charms| ==> && r.charms[p].originalIndex < |catalog|
                                          && r.charms[p] == CompactOf(t, catalog, r.important, r.charms[p].originalIndex)
                                          && |r.charms[p].stats| == |r.weights|
    ensures var r := PrepareCharmData(t, catalog, weights);
      forall p, q :: 0 <= p < q < |r.charms| ==> r.charms[p].originalIndex < r.charms[q].originalIndex
    ensures var r := PrepareCharmData(t, catalog, weights);
      forall i :: 0 <= i < |catalog| ==> (NonzeroIn(catalog[i], r.important) <==> exists p :: 0 <= p < |r.charms| && r.charms[p].originalIndex == i)
  {
    var r := PrepareCharmData(t, catalog, weights);
    var surv := Survivors(catalog, r.important, |catalog|);
    assert forall p :: 0 <= p < |r.charms| ==> r.charms[p].originalIndex == surv[p];
    forall i | 0 <= i < |catalog| && NonzeroIn(catalog[i], r.important)
      ensures exists p :: 0 <= p < |r.charms| && r.charms[p].originalIndex == i
    {
      assert i in surv;
      var p :| 0 <= p < |surv| && surv[p] == i;
      assert r.charms[p].originalIndex == i;
    }
  }

  /** With all weights zero no ability is important. */
  lemma {:induction false} ImportantNone(catalog: seq<Charm>, weights: seq<int>, n: nat)
    requires n <= |weights| && Rows(catalog, n)
    requires forall a :: 0 <= a < |weights| ==> weights[a] == 0
    ensures ImportantAbilities(catalog, weights, n) == []
    decreases n
  {
    if n > 0 {
      ImportantNone(catalog, weights, n - 1);
    }
  }

  /** No charm is nonzero in an empty list of abilities, so none survives. */
  lemma {:induction false} SurvivorsNone(catalog: seq<Charm>, n: nat)
    requires n <= |catalog|
    ensures Survivors(catalog, [], n) == []
    decreases n
  {
    if n > 0 {
      SurvivorsNone(catalog, n - 1);
    }
  }

  /** Without important abilities the reduction keeps no charm. */
  lemma PrepareNoImportant(t: AbilityTable, catalog: seq<Charm>, weights: seq<int>)
    requires ValidTable(t) && CatalogFits(t, catalog) && |weights| == |t.names|
    requires PrepareCharmData(t, catalog, weights).important == []
    ensures PrepareCharmData(t, catalog, weights).charms == []
  {
    SurvivorsNone(catalog, |catalog|);
  }
}
