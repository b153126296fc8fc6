/**
 * The compacted search against the whole catalog. A valid compacted
 * selection maps to an admissible selection of catalog positions with the
 * same value whenever the offsets skip every surviving upgrade twin; an
 * admissible catalog selection has a valid compacted selection of the
 * same value whenever the offsets skip nothing but surviving upgrade
 * twins. With both, the best compacted selection is the best catalog
 * selection.
 */
module CatalogOptimality {
  import opened Charms
  import opened Aligned
  import opened Stats
  import opened Search
  import opened Enumeration
  import opened Prepare
  import opened Build
  import opened CatalogValue

  /** Compact charms in strictly increasing catalog order. */
  predicate Ordered(charms: seq<CompactCharm>) {
    forall p, q :: 0 <= p < q < |charms| ==> charms[p].originalIndex < charms[q].originalIndex
  }

  /** Exactly the catalog entries nonzero in some listed ability survive. */
  predicate Survive(catalog: seq<Charm>, imp: seq<nat>, charms: seq<CompactCharm>) {
    && AllCover(catalog, imp)
    && forall x :: 0 <= x < |catalog| ==> (NonzeroIn(catalog[x], imp) <==> exists p :: 0 <= p < |charms| && charms[p].originalIndex == x)
  }

  /**
   * The compaction `prepare_charm_data` performs: encoded catalog entries,
   * in strictly increasing catalog order, exactly the entries nonzero in
   * some listed ability.
   */
  predicate Compaction(t: AbilityTable, catalog: seq<Charm>, imp: seq<nat>, charms: seq<CompactCharm>) {
    && Encodes(t, catalog, imp, charms)
    && Ordered(charms)
    && Survive(catalog, imp, charms)
  }

  lemma PrepareCompaction(t: AbilityTable, catalog: seq<Charm>, weights: seq<int>)
    requires Inputs(t, catalog, weights)
    ensures var prep := PrepareCharmData(t, catalog, weights);
      Compaction(t, catalog, prep.important, prep.charms)
  {
    PrepareKeeps(t, catalog, weights);
    PrepareEncodes(t, catalog, weights);
  }

  /**
   * The compact successor of p is the upgraded twin of p: p has an
   * upgrade and the next surviving entry is the catalog entry right after
   * it.
   */
  predicate TwinFollows(charms: seq<CompactCharm>, p: nat) {
    && p + 1 < |charms|
    && charms[p].hasUpgrade
    && charms[p + 1].originalIndex == charms[p].originalIndex + 1
  }

  /** Offsets that skip every surviving upgrade twin (when `twins` holds). */
  predicate SkipsTwins(charms: seq<CompactCharm>, offset: seq<nat>, twins: bool) {
    && OffsetsFor(charms, offset)
    && forall p :: 0 <= p < |charms| && twins && TwinFollows(charms, p) ==> offset[p] == 2
  }

  /** Offsets that skip nothing but surviving upgrade twins (none when `twins` fails). */
  predicate SkipsOnlyTwins(charms: seq<CompactCharm>, offset: seq<nat>, twins: bool) {
    && OffsetsFor(charms, offset)
    && forall p :: 0 <= p < |charms| && offset[p] == 2 ==> twins && TwinFollows(charms, p)
  }

  /** Strictly increasing picks. */
  predicate Increasing(e: seq<nat>) {
    forall a, b :: 0 <= a < b < |e| ==> e[a] < e[b]
  }

  /** Consecutive increase is increase. */
  lemma {:induction false} Ascending(e: seq<nat>)
    requires forall j :: 0 <= j < |e| - 1 ==> e[j] < e[j + 1]
    ensures forall j, j' :: 0 <= j < j' < |e| ==> e[j] < e[j']
    decreases |e|
  {
    if |e| > 1 {
      Ascending(e[1..]);
      forall j, j' | 0 <= j < j' < |e|
        ensures e[j] < e[j']
      {
        if j > 0 {
          assert e[j] == e[1..][j - 1] && e[j'] == e[1..][j' - 1];
        } else if j' > 1 {
          assert e[1] == e[1..][0] && e[j'] == e[1..][j' - 1];
        }
      }
    }
  }

  // ---------------------------------------------------------------------
  // Soundness: a valid compacted selection is an admissible catalog one.
  // ---------------------------------------------------------------------

  /**
   * Twin exclusion carries over: when the offsets skip every surviving
   * twin, the catalog positions of a chain never hold an entry with an
   * upgrade together with the entry right after it.
   */
  lemma TwinsExcluded(charms: seq<CompactCharm>, offset: seq<nat>, e: seq<nat>, j: nat, j': nat)
    requires Ordered(charms) && SkipsTwins(charms, offset, true)
    requires FlatChain(offset, 0, e)
    requires forall a, b :: 0 <= a < b < |e| ==> e[a] < e[b]
    requires j < |e| && j' < |e| && charms[e[j]].hasUpgrade
    ensures charms[e[j']].originalIndex != charms[e[j]].originalIndex + 1
  {
    var x := e[j];
    var y := e[j'];
    if y <= x {
      assert charms[y].originalIndex <= charms[x].originalIndex;
    } else if y == x + 1 {
      assert j < j';
      assert e[j + 1] <= y;
      assert offset[x] == 1;
      assert !TwinFollows(charms, x);
    } else {
      assert charms[x].originalIndex < charms[x + 1].originalIndex < charms[y].originalIndex;
    }
  }

  /**
   * With offsets that skip every surviving twin, a valid compacted
   * selection names an admissible catalog selection, and the search's
   * value of it is the whole-table utility of those catalog positions.
   */
  lemma SelectionSound(t: AbilityTable, catalog: seq<Charm>, weights: seq<int>, maxCp: nat, offset: seq<nat>,
                       twins: bool, e: seq<nat>)
    requires Inputs(t, catalog, weights)
    requires SkipsTwins(PrepareCharmData(t, catalog, weights).charms, offset, twins)
    requires ValidSelection(CompactKernel(t, catalog, maxCp, weights, offset), e)
    ensures var prep := PrepareCharmData(t, catalog, weights);
      && Admissible(catalog, maxCp, Originals(prep.charms, e), twins)
      && Value(CompactKernel(t, catalog, maxCp, weights, offset), e) == FullValue(t, catalog, weights, Originals(prep.charms, e))
  {
    var prep := PrepareCharmData(t, catalog, weights);
    var k := CompactKernel(t, catalog, maxCp, weights, offset);
    var S := Originals(prep.charms, e);
    PrepareCompaction(t, catalog, weights);
    assert InRange(S, |catalog|) && Value(k, e) == FullValue(t, catalog, weights, S) by {
      ValueIsFullValue(t, catalog, weights, k, e);
    }
    assert CatalogCost(catalog, S) <= maxCp by {
      CostIsCatalogCost(t, catalog, prep.important, prep.charms, k.cp, e);
    }
    assert Increasing(e) by {
      Ascending(e);
    }
    OriginalsAscend(prep.charms, e);
    if twins {
      OriginalsTwinFree(t, catalog, prep.important, prep.charms, offset, e);
    }
  }

  /** The catalog positions of increasing picks over ordered charms increase. */
  lemma OriginalsAscend(charms: seq<CompactCharm>, e: seq<nat>)
    requires Ordered(charms) && InRange(e, |charms|) && Increasing(e)
    ensures var S := Originals(charms, e);
      forall j, j' :: 0 <= j < j' < |S| ==> S[j] < S[j']
  {
    var S := Originals(charms, e);
    forall j, j' | 0 <= j < j' < |S|
      ensures S[j] < S[j']
    {
      assert e[j] < e[j'];
    }
  }

  /** The catalog positions of a chain over offsets that skip every surviving twin hold no upgrade with its twin. */
  lemma OriginalsTwinFree(t: AbilityTable, catalog: seq<Charm>, imp: seq<nat>, charms: seq<CompactCharm>,
                          offset: seq<nat>, e: seq<nat>)
    requires Encodes(t, catalog, imp, charms) && Ordered(charms) && SkipsTwins(charms, offset, true)
    requires FlatChain(offset, 0, e) && Increasing(e)
    ensures var S := Originals(charms, e);
      forall j, j' :: 0 <= j < |S| && 0 <= j' < |S| && catalog[S[j]].hasUpgrade ==> S[j'] != S[j] + 1
  {
    var S := Originals(charms, e);
    forall j, j' | 0 <= j < |S| && 0 <= j' < |S| && catalog[S[j]].hasUpgrade
      ensures S[j'] != S[j] + 1
    {
      assert charms[e[j]].hasUpgrade;
      TwinsExcluded(charms, offset, e, j, j');
    }
  }

  // ---------------------------------------------------------------------
  // Completeness: an admissible catalog selection has a compacted twin.
  // ---------------------------------------------------------------------

  /** The first compacted index from `from` on whose catalog position is x, or |charms| when there is none. */
  function IndexOf(charms: seq<CompactCharm>, x: nat, from: nat): (r: nat)
    ensures from <= r || r == |charms|
    ensures r <= |charms|
    ensures r < |charms| ==> charms[r].originalIndex == x
    ensures r == |charms| ==> forall p :: from <= p < |charms| ==> charms[p].originalIndex != x
    decreases |charms| - from
  {
    if from >= |charms| then |charms|
    else if charms[from].originalIndex == x then from
    else IndexOf(charms, x, from + 1)
  }

  /** The picks of a catalog selection that survived compaction, as compacted indices, in order. */
  function Lifted(charms: seq<CompactCharm>, S: seq<nat>): (e: seq<nat>)
    ensures InRange(e, |charms|) && |e| <= |S|
    ensures forall a :: 0 <= a < |e| ==> charms[e[a]].originalIndex in S
    decreases |S|
  {
    if S == [] then []
    else
      var p := IndexOf(charms, S[0], 0);
      var rest := Lifted(charms, S[1..]);
      assert forall a :: 0 <= a < |rest| ==> charms[rest[a]].originalIndex in S by {
        forall a | 0 <= a < |rest|
          ensures charms[rest[a]].originalIndex in S
        {
          assert charms[rest[a]].originalIndex in S[1..];
        }
      }
      if p < |charms| then [p] + rest else rest
  }

  /** Lifted picks come from entries of S, so they all lie beyond any bound S lies beyond. */
  lemma {:induction false} LiftedAbove(charms: seq<CompactCharm>, S: seq<nat>, x: nat)
    requires forall j :: 0 <= j < |S| ==> x < S[j]
    ensures var e := Lifted(charms, S);
      forall a :: 0 <= a < |e| ==> x < charms[e[a]].originalIndex
  {
    var e := Lifted(charms, S);
    forall a | 0 <= a < |e|
      ensures x < charms[e[a]].originalIndex
    {
      var y := charms[e[a]].originalIndex;
      assert y in S;
    }
  }

  /** A pick in front of ascending picks of later catalog positions keeps them ascending. */
  lemma ConsAscends(charms: seq<CompactCharm>, p: nat, rest: seq<nat>)
    requires Ordered(charms) && p < |charms| && InRange(rest, |charms|)
    requires Increasing(rest)
    requires forall a :: 0 <= a < |rest| ==> charms[p].originalIndex < charms[rest[a]].originalIndex
    ensures Increasing([p] + rest)
  {
    var e := [p] + rest;
    forall a, b | 0 <= a < b < |e|
      ensures e[a] < e[b]
    {
      if a > 0 {
        assert e[a] == rest[a - 1] && e[b] == rest[b - 1];
      } else {
        assert e[b] == rest[b - 1];
      }
    }
  }

  /** The lifted picks of an ascending selection ascend. */
  lemma {:induction false} LiftedAscends(charms: seq<CompactCharm>, S: seq<nat>)
    requires Ordered(charms)
    requires forall j, j' :: 0 <= j < j' < |S| ==> S[j] < S[j']
    ensures Increasing(Lifted(charms, S))
    decreases |S|
  {
    if S != [] {
      var p := IndexOf(charms, S[0], 0);
      var rest := Lifted(charms, S[1..]);
      LiftedAscends(charms, S[1..]);
      if p < |charms| {
        assert forall j :: 0 <= j < |S[1..]| ==> S[0] < S[1..][j] by {
          forall j | 0 <= j < |S[1..]|
            ensures S[0] < S[1..][j]
          {
            assert S[1..][j] == S[j + 1];
          }
        }
        LiftedAbove(charms, S[1..], S[0]);
        ConsAscends(charms, p, rest);
      }
    }
  }

  /** Dropping the picks that did not survive never raises the power. */
  lemma {:induction false} LiftedCost(catalog: seq<Charm>, charms: seq<CompactCharm>, S: seq<nat>)
    requires InRange(S, |catalog|)
    requires forall p :: 0 <= p < |charms| ==> charms[p].originalIndex < |catalog|
    ensures var e := Lifted(charms, S);
      CatalogCost(catalog, Originals(charms, e)) <= CatalogCost(catalog, S)
    decreases |S|
  {
    if S != [] {
      var p := IndexOf(charms, S[0], 0);
      var rest := Lifted(charms, S[1..]);
      LiftedCost(catalog, charms, S[1..]);
      if p < |charms| {
        var e := [p] + rest;
        assert Originals(charms, e)[1..] == Originals(charms, rest);
      }
    }
  }

  /** Dropping the picks that did not survive keeps every listed ability's column sum. */
  lemma {:induction false} LiftedColumns(t: AbilityTable, catalog: seq<Charm>, imp: seq<nat>, charms: seq<CompactCharm>, S: seq<nat>)
    requires Encodes(t, catalog, imp, charms) && Survive(catalog, imp, charms)
    requires InRange(S, |catalog|)
    ensures var e := Lifted(charms, S);
      forall q :: 0 <= q < |imp| ==> ColumnSum(t, catalog, Originals(charms, e), imp[q]) == ColumnSum(t, catalog, S, imp[q])
    decreases |S|
  {
    if S != [] {
      LiftedColumns(t, catalog, imp, charms, S[1..]);
      if IndexOf(charms, S[0], 0) < |charms| {
        KeptColumns(t, catalog, imp, charms, S);
      } else {
        DroppedColumns(t, catalog, imp, charms, S);
      }
    }
  }

  /** A first pick that survived heads the lifted picks, so the column sums gain the same term. */
  lemma KeptColumns(t: AbilityTable, catalog: seq<Charm>, imp: seq<nat>, charms: seq<CompactCharm>, S: seq<nat>)
    requires Encodes(t, catalog, imp, charms)
    requires InRange(S, |catalog|) && S != [] && IndexOf(charms, S[0], 0) < |charms|
    requires forall q :: 0 <= q < |imp| ==>
      ColumnSum(t, catalog, Originals(charms, Lifted(charms, S[1..])), imp[q]) == ColumnSum(t, catalog, S[1..], imp[q])
    ensures forall q :: 0 <= q < |imp| ==>
      ColumnSum(t, catalog, Originals(charms, Lifted(charms, S)), imp[q]) == ColumnSum(t, catalog, S, imp[q])
  {
    var p := IndexOf(charms, S[0], 0);
    var rest := Lifted(charms, S[1..]);
    var S' := Originals(charms, [p] + rest);
    assert Lifted(charms, S) == [p] + rest;
    assert S'[0] == S[0] && S'[1..] == Originals(charms, rest);
  }

  /** A first pick that did not survive is zero in every listed ability, so it adds nothing to their column sums. */
  lemma DroppedColumns(t: AbilityTable, catalog: seq<Charm>, imp: seq<nat>, charms: seq<CompactCharm>, S: seq<nat>)
    requires Encodes(t, catalog, imp, charms) && Survive(catalog, imp, charms)
    requires InRange(S, |catalog|) && S != [] && IndexOf(charms, S[0], 0) == |charms|
    requires forall q :: 0 <= q < |imp| ==>
      ColumnSum(t, catalog, Originals(charms, Lifted(charms, S[1..])), imp[q]) == ColumnSum(t, catalog, S[1..], imp[q])
    ensures forall q :: 0 <= q < |imp| ==>
      ColumnSum(t, catalog, Originals(charms, Lifted(charms, S)), imp[q]) == ColumnSum(t, catalog, S, imp[q])
  {
    assert Lifted(charms, S) == Lifted(charms, S[1..]);
    assert !NonzeroIn(catalog[S[0]], imp);
    forall q | 0 <= q < |imp|
      ensures ColumnSum(t, catalog, S, imp[q]) == ColumnSum(t, catalog, S[1..], imp[q])
    {
      EncodeSign(catalog[S[0]].raw[imp[q]], t.caps[imp[q]]);
    }
  }

  /**
   * With offsets that skip nothing but surviving twins, the lifted picks
   * of an admissible catalog selection form a chain of the search.
   */
  lemma LiftChains(t: AbilityTable, catalog: seq<Charm>, imp: seq<nat>, charms: seq<CompactCharm>,
                   offset: seq<nat>, twins: bool, maxCp: nat, S: seq<nat>, e: seq<nat>)
    requires Compaction(t, catalog, imp, charms) && SkipsOnlyTwins(charms, offset, twins)
    requires Admissible(catalog, maxCp, S, twins)
    requires InRange(e, |charms|) && Increasing(e)
    requires forall a :: 0 <= a < |e| ==> charms[e[a]].originalIndex in S
    ensures FlatChain(offset, 0, e)
  {
    forall a | 0 <= a < |e| - 1
      ensures e[a] + offset[e[a]] <= e[a + 1]
    {
      var x := e[a];
      if offset[x] == 2 {
        assert TwinFollows(charms, x);
        var j :| 0 <= j < |S| && S[j] == charms[x].originalIndex;
        var j' :| 0 <= j' < |S| && S[j'] == charms[e[a + 1]].originalIndex;
        assert catalog[S[j]].hasUpgrade;
        assert S[j'] != S[j] + 1;
        assert e[a + 1] != x + 1;
      }
    }
  }

  /**
   * For any compaction and any kernel over it: the lifted picks of an
   * admissible catalog selection are a valid selection whose catalog
   * positions agree with the selection on every listed ability.
   */
  lemma LiftedValid(t: AbilityTable, catalog: seq<Charm>, imp: seq<nat>, charms: seq<CompactCharm>,
                    k: Kernel, twins: bool, S: seq<nat>)
    requires Compaction(t, catalog, imp, charms) && SkipsOnlyTwins(charms, k.offset, twins)
    requires Valid(k) && |k.cp| == |charms| && forall p :: 0 <= p < |charms| ==> k.cp[p] == charms[p].power
    requires Admissible(catalog, k.maxCp, S, twins)
    ensures ValidSelection(k, Lifted(charms, S))
    ensures InRange(Originals(charms, Lifted(charms, S)), |catalog|)
    ensures Project(FullSum(t, catalog, Originals(charms, Lifted(charms, S))), imp) == Project(FullSum(t, catalog, S), imp)
  {
    var e := Lifted(charms, S);
    LiftedAscends(charms, S);
    LiftedCost(catalog, charms, S);
    LiftedColumns(t, catalog, imp, charms, S);
    LiftChains(t, catalog, imp, charms, k.offset, twins, k.maxCp, S, e);
    CostIsCatalogCost(t, catalog, imp, charms, k.cp, e);
    var S' := Originals(charms, e);
    var l := Project(FullSum(t, catalog, S'), imp);
    var r := Project(FullSum(t, catalog, S), imp);
    forall q | 0 <= q < |imp|
      ensures l[q] == r[q]
    {
    }
  }

  /** Catalog selections that agree on every important ability have the same whole-table value. */
  lemma SameImportantSums(t: AbilityTable, catalog: seq<Charm>, weights: seq<int>, S: seq<nat>, S': seq<nat>)
    requires Inputs(t, catalog, weights) && InRange(S, |catalog|) && InRange(S', |catalog|)
    requires var imp := ImportantAbilities(catalog, weights, |t.names|);
      Project(FullSum(t, catalog, S'), imp) == Project(FullSum(t, catalog, S), imp)
    ensures FullValue(t, catalog, weights, S') == FullValue(t, catalog, weights, S)
  {
    Lossless(t, catalog, weights, S');
    Lossless(t, catalog, weights, S);
  }

  /**
   * With offsets that skip nothing but surviving twins, every admissible
   * catalog selection is matched by a valid compacted selection of the
   * same whole-table value.
   */
  lemma SelectionComplete(t: AbilityTable, catalog: seq<Charm>, weights: seq<int>, maxCp: nat, offset: seq<nat>,
                          twins: bool, S: seq<nat>) returns (e: seq<nat>)
    requires Inputs(t, catalog, weights)
    requires SkipsOnlyTwins(PrepareCharmData(t, catalog, weights).charms, offset, twins)
    requires Admissible(catalog, maxCp, S, twins)
    ensures ValidSelection(CompactKernel(t, catalog, maxCp, weights, offset), e)
    ensures Value(CompactKernel(t, catalog, maxCp, weights, offset), e) == FullValue(t, catalog, weights, S)
  {
    var prep := PrepareCharmData(t, catalog, weights);
    var k := CompactKernel(t, catalog, maxCp, weights, offset);
    PrepareCompaction(t, catalog, weights);
    e := Lifted(prep.charms, S);
    LiftedValid(t, catalog, prep.important, prep.charms, k, twins, S);
    ValueIsFullValue(t, catalog, weights, k, e);
    SameImportantSums(t, catalog, weights, S, Originals(prep.charms, e));
  }

  /**
   * The best compacted selection is the best catalog selection: a result
   * that beats every valid compacted selection beats every admissible
   * catalog selection, when the offsets skip nothing but surviving twins.
   */
  lemma CatalogOptimal(t: AbilityTable, catalog: seq<Charm>, weights: seq<int>, maxCp: nat, offset: seq<nat>,
                       twins: bool, best: Best)
    requires Inputs(t, catalog, weights)
    requires SkipsOnlyTwins(PrepareCharmData(t, catalog, weights).charms, offset, twins)
    requires var k := CompactKernel(t, catalog, maxCp, weights, offset);
      forall e :: ValidSelection(k, e) ==> Value(k, e) <= best.utility
    ensures forall S :: Admissible(catalog, maxCp, S, twins) ==> FullValue(t, catalog, weights, S) <= best.utility
  {
    forall S | Admissible(catalog, maxCp, S, twins)
      ensures FullValue(t, catalog, weights, S) <= best.utility
    {
      var e := SelectionComplete(t, catalog, weights, maxCp, offset, twins, S);
    }
  }

  /**
   * Every catalog entry with an upgrade is followed by its upgraded twin,
   * which is nonzero wherever the entry is.
   */
  predicate TwinsCover(catalog: seq<Charm>) {
    forall i :: 0 <= i < |catalog| && catalog[i].hasUpgrade ==>
      && i + 1 < |catalog|
      && forall a :: 0 <= a < |catalog[i].raw| && catalog[i].raw[a] != 0.0 ==>
           a < |catalog[i + 1].raw| && catalog[i + 1].raw[a] != 0.0
  }

  /** The upgraded twin of a surviving entry survives as well, right after it. */
  lemma TwinSurvives(t: AbilityTable, catalog: seq<Charm>, imp: seq<nat>, charms: seq<CompactCharm>, p: nat)
    requires Compaction(t, catalog, imp, charms) && TwinsCover(catalog)
    requires p < |charms| && charms[p].hasUpgrade
    ensures TwinFollows(charms, p)
  {
    var i := charms[p].originalIndex;
    assert catalog[i].hasUpgrade;
    assert NonzeroIn(catalog[i], imp);
    var q :| 0 <= q < |imp| && catalog[i].raw[imp[q]] != 0.0;
    assert catalog[i + 1].raw[imp[q]] != 0.0;
    assert NonzeroIn(catalog[i + 1], imp);
    var p' :| 0 <= p' < |charms| && charms[p'].originalIndex == i + 1;
    assert p < p';
    assert charms[p].originalIndex < charms[p + 1].originalIndex <= charms[p'].originalIndex;
  }

  /**
   * On a catalog whose twins cover their base entries, `has_upgrade ? 2 : 1`
   * skips nothing but surviving twins.
   */
  lemma UpgradeSkipsOnlyTwins(t: AbilityTable, catalog: seq<Charm>, imp: seq<nat>, charms: seq<CompactCharm>)
    requires Compaction(t, catalog, imp, charms) && TwinsCover(catalog)
    ensures SkipsOnlyTwins(charms, UpgradeOffsets(charms), true)
  {
    forall p | 0 <= p < |charms| && UpgradeOffsets(charms)[p] == 2
      ensures TwinFollows(charms, p)
    {
      TwinSurvives(t, catalog, imp, charms, p);
    }
  }
}
