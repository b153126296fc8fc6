/**
 * What a selection of catalog positions is worth before any reduction:
 * every ability of the table, every raw value encoded as
 * src/common/eval_naive.cpp encodes it, summed per ability, clamped and
 * weighted as `eval_stats` weighs it. The reduction of `prepare_charm_data`
 * is proved lossless for this value, and the search's value of a compacted
 * selection is proved to be this value of its catalog positions.
 */
module CatalogValue {
  import opened Charms
  import opened Aligned
  import opened Stats
  import opened Search
  import opened Enumeration
  import opened Prepare
  import opened Build

  /** The encoded value of ability a summed over the catalog positions S. */
  function ColumnSum(t: AbilityTable, catalog: seq<Charm>, S: seq<nat>, a: nat): int
    requires ValidTable(t) && CatalogFits(t, catalog) && a < |t.names| && InRange(S, |catalog|)
    decreases |S|
  {
    if S == [] then 0 else Encode(catalog[S[0]].raw[a], t.caps[a]) + ColumnSum(t, catalog, S[1..], a)
  }

  /** The accumulated encoded stats of the catalog positions S, one per ability of the table. */
  function FullSum(t: AbilityTable, catalog: seq<Charm>, S: seq<nat>): (r: seq<int>)
    requires ValidTable(t) && CatalogFits(t, catalog) && InRange(S, |catalog|)
    ensures |r| == |t.names|
    ensures forall a :: 0 <= a < |t.names| ==> r[a] == ColumnSum(t, catalog, S, a)
  {
    seq(|t.names|, a requires 0 <= a < |t.names| => ColumnSum(t, catalog, S, a))
  }

  /** The utility of the catalog positions S over the whole ability table with the full weights. */
  function FullValue(t: AbilityTable, catalog: seq<Charm>, weights: seq<int>, S: seq<nat>): int
    requires Inputs(t, catalog, weights) && InRange(S, |catalog|)
  {
    Utility(FullSum(t, catalog, S), weights)
  }

  /** Total power of the catalog positions S. */
  function CatalogCost(catalog: seq<Charm>, S: seq<nat>): nat
    requires InRange(S, |catalog|)
    decreases |S|
  {
    if S == [] then 0 else catalog[S[0]].power + CatalogCost(catalog, S[1..])
  }

  /**
   * A selection of catalog positions the optimiser may return: at most
   * seven picks, strictly increasing, within the power budget, and, when
   * `twins` holds, never a charm that has an upgrade together with the
   * entry right after it (its upgraded twin).
   */
  predicate Admissible(catalog: seq<Charm>, maxCp: nat, S: seq<nat>, twins: bool) {
    && |S| <= CHARM_COUNT_MAX
    && InRange(S, |catalog|)
    && (forall j, j' :: 0 <= j < j' < |S| ==> S[j] < S[j'])
    && CatalogCost(catalog, S) <= maxCp
    && (twins ==> forall j, j' :: 0 <= j < |S| && 0 <= j' < |S| && catalog[S[j]].hasUpgrade ==> S[j'] != S[j] + 1)
  }

  /** An ability no catalog entry has a nonzero value for sums to 0 over any selection. */
  lemma {:induction false} ColumnZero(t: AbilityTable, catalog: seq<Charm>, S: seq<nat>, a: nat)
    requires ValidTable(t) && CatalogFits(t, catalog) && a < |t.names| && InRange(S, |catalog|)
    requires forall j :: 0 <= j < |S| ==> catalog[S[j]].raw[a] == 0.0
    ensures ColumnSum(t, catalog, S, a) == 0
    decreases |S|
  {
    if S != [] {
      EncodeSign(catalog[S[0]].raw[a], t.caps[a]);
      ColumnZero(t, catalog, S[1..], a);
    }
  }

  /**
   * The reduction loses nothing: the utility over the whole table with the
   * full weights equals the utility over the important abilities with the
   * compact weights, for every selection of catalog positions.
   */
  lemma Lossless(t: AbilityTable, catalog: seq<Charm>, weights: seq<int>, S: seq<nat>)
    requires Inputs(t, catalog, weights) && InRange(S, |catalog|)
    ensures var imp := ImportantAbilities(catalog, weights, |t.names|);
      FullValue(t, catalog, weights, S) == Utility(Project(FullSum(t, catalog, S), imp), Project(weights, imp))
  {
    var imp := ImportantAbilities(catalog, weights, |t.names|);
    var v := FullSum(t, catalog, S);
    forall a | 0 <= a < |v| && a !in imp
      ensures Term(v[a], weights[a]) == 0
    {
      assert !Important(catalog, weights, a);
      if weights[a] != 0 {
        ColumnZero(t, catalog, S, a);
      }
    }
    UtilityProjected(v, weights, imp);
  }

  /** The compact charms are encoded catalog entries at the listed abilities. */
  predicate Encodes(t: AbilityTable, catalog: seq<Charm>, imp: seq<nat>, charms: seq<CompactCharm>) {
    && ValidTable(t) && CatalogFits(t, catalog)
    && CapsFor(t, imp) && AllCover(catalog, imp)
    && (forall q :: 0 <= q < |imp| ==> imp[q] < |t.names|)
    && (forall p :: 0 <= p < |charms| ==> && charms[p].originalIndex < |catalog|
                                           && charms[p] == CompactOf(t, catalog, imp, charms[p].originalIndex))
  }

  /** The reduction's output is encoded catalog entries. */
  lemma PrepareEncodes(t: AbilityTable, catalog: seq<Charm>, weights: seq<int>)
    requires Inputs(t, catalog, weights)
    ensures var prep := PrepareCharmData(t, catalog, weights);
      Encodes(t, catalog, prep.important, prep.charms)
  {
    PrepareKeeps(t, catalog, weights);
  }

  /**
   * A kernel whose stat table is the compact charms' stats accumulates, at
   * compact ability q, the column sum of important ability imp[q] over the
   * picks' catalog positions.
   */
  lemma {:induction false} SumFromColumns(t: AbilityTable, catalog: seq<Charm>, imp: seq<nat>, charms: seq<CompactCharm>,
                                          k: Kernel, curr: seq<int>, e: seq<nat>)
    requires Encodes(t, catalog, imp, charms)
    requires Valid(k) && |k.weights| == |imp| && |k.stats| == |charms|
    requires forall p :: 0 <= p < |charms| ==> k.stats[p] == charms[p].stats
    requires |curr| == |imp| && InRange(e, |charms|)
    ensures forall q :: 0 <= q < |imp| ==>
      SumFrom(k, curr, e)[q] == curr[q] + ColumnSum(t, catalog, Originals(charms, e), imp[q])
    decreases |e|
  {
    if e != [] {
      var c := charms[e[0]];
      var next := Add(curr, k.stats[e[0]]);
      SumFromColumns(t, catalog, imp, charms, k, next, e[1..]);
      assert Originals(charms, e)[1..] == Originals(charms, e[1..]);
      forall q | 0 <= q < |imp|
        ensures SumFrom(k, curr, e)[q] == curr[q] + ColumnSum(t, catalog, Originals(charms, e), imp[q])
      {
        assert k.stats[e[0]][q] == Encode(catalog[c.originalIndex].raw[imp[q]], t.caps[imp[q]]);
      }
    }
  }

  /** The power a kernel charges for compacted picks is the catalog power of their positions. */
  lemma {:induction false} CostIsCatalogCost(t: AbilityTable, catalog: seq<Charm>, imp: seq<nat>, charms: seq<CompactCharm>,
                                             cp: seq<nat>, e: seq<nat>)
    requires Encodes(t, catalog, imp, charms)
    requires |cp| == |charms| && forall p :: 0 <= p < |charms| ==> cp[p] == charms[p].power
    requires InRange(e, |charms|)
    ensures Cost(cp, e) == CatalogCost(catalog, Originals(charms, e))
    decreases |e|
  {
    if e != [] {
      CostIsCatalogCost(t, catalog, imp, charms, cp, e[1..]);
      assert Originals(charms, e)[1..] == Originals(charms, e[1..]);
    }
  }

  /** From the zero table, the accumulated stats are the important columns of the whole-table sum. */
  lemma SumIsProjection(t: AbilityTable, catalog: seq<Charm>, imp: seq<nat>, charms: seq<CompactCharm>, k: Kernel, e: seq<nat>)
    requires Encodes(t, catalog, imp, charms)
    requires Valid(k) && |k.weights| == |imp| && |k.stats| == |charms|
    requires forall p :: 0 <= p < |charms| ==> k.stats[p] == charms[p].stats
    requires InRange(e, |charms|)
    ensures InRange(Originals(charms, e), |catalog|)
    ensures SumFrom(k, Zeros(|imp|), e) == Project(FullSum(t, catalog, Originals(charms, e)), imp)
  {
    SumFromColumns(t, catalog, imp, charms, k, Zeros(|imp|), e);
    var l := SumFrom(k, Zeros(|imp|), e);
    var r := Project(FullSum(t, catalog, Originals(charms, e)), imp);
    forall q | 0 <= q < |imp|
      ensures l[q] == r[q]
    {
    }
  }

  /**
   * The search's value of a compacted selection, on any kernel built from
   * the reduction's output, is the whole-table utility of its catalog
   * positions.
   */
  lemma ValueIsFullValue(t: AbilityTable, catalog: seq<Charm>, weights: seq<int>, k: Kernel, e: seq<nat>)
    requires Inputs(t, catalog, weights)
    requires var prep := PrepareCharmData(t, catalog, weights);
      && Valid(k) && k.weights == prep.weights && |k.stats| == |prep.charms|
      && (forall p :: 0 <= p < |prep.charms| ==> k.stats[p] == prep.charms[p].stats)
    requires InRange(e, |k.stats|)
    ensures var prep := PrepareCharmData(t, catalog, weights);
      && InRange(Originals(prep.charms, e), |catalog|)
      && Value(k, e) == FullValue(t, catalog, weights, Originals(prep.charms, e))
  {
    var prep := PrepareCharmData(t, catalog, weights);
    PrepareEncodes(t, catalog, weights);
    SumIsProjection(t, catalog, prep.important, prep.charms, k, e);
    Lossless(t, catalog, weights, Originals(prep.charms, e));
  }
}
