/**
 * What the search of src/common/eval_naive.cpp visits, made explicit.
 *
 * `Cands(offset, left, lo)` lists, in the pre-order the recursion uses,
 * every index sequence the subtree below a node can append (the empty
 * one first). `FoldSel` replays the strict-`>` running-best update over
 * such a list. The search is proved to be exactly that fold, and the
 * fold's maximum property then gives optimality of the serial search.
 */
module Enumeration {
  import opened Charms
  import opened Aligned
  import opened Stats
  import opened Search

  /** Every index of `e` names one of `n` compacted charms. */
  predicate InRange(e: seq<nat>, n: nat) {
    forall j :: 0 <= j < |e| ==> e[j] < n
  }

  /** Picks below n exist only when n is positive. */
  lemma PicksNeedCharms(e: seq<nat>, n: nat)
    requires InRange(e, n)
    ensures e == [] || n > 0
  {
    if e != [] {
      assert e[0] < n;
    }
  }

  /**
   * A pick sequence the recursion can take below lower bound `lo`: the
   * first pick is at least `lo`, and after picking i the next one is at
   * least i + offset[i].
   */
  predicate Chain(offset: seq<nat>, lo: nat, e: seq<nat>)
    decreases |e|
  {
    e == [] || (lo <= e[0] < |offset| && Chain(offset, e[0] + offset[e[0]], e[1..]))
  }

  /** The same shape, stated position by position. */
  predicate FlatChain(offset: seq<nat>, lo: nat, e: seq<nat>) {
    && InRange(e, |offset|)
    && (|e| > 0 ==> lo <= e[0])
    && (forall j :: 0 <= j < |e| - 1 ==> e[j] < e[j + 1])
    && (forall j :: 0 <= j < |e| - 1 ==> e[j] + offset[e[j]] <= e[j + 1])
  }

  /** `[i] + c` for every `c`, in order. */
  function Prepend(i: nat, cs: seq<seq<nat>>): (r: seq<seq<nat>>)
    ensures |r| == |cs|
    ensures forall j :: 0 <= j < |cs| ==> r[j] == [i] + cs[j]
  {
    seq(|cs|, j requires 0 <= j < |cs| => [i] + cs[j])
  }

  /**
   * The pick sequences a node with `left` picks remaining and lower bound
   * `lo` appends, in visiting order: the node itself (nothing appended),
   * then the subtrees of lo, lo+1, ...
   */
  function Cands(offset: seq<nat>, left: nat, lo: nat): (r: seq<seq<nat>>)
    ensures |r| > 0 && r[0] == []
    ensures forall j :: 0 <= j < |r| ==> |r[j]| <= left && Chain(offset, lo, r[j]) && InRange(r[j], |offset|)
    decreases left, 1, 0
  {
    [[]] + (if left == 0 then [] else CandsFrom(offset, left, lo))
  }

  /** The subtrees of candidates i, i+1, ... of a node with `left` picks remaining. */
  function CandsFrom(offset: seq<nat>, left: nat, i: nat): (r: seq<seq<nat>>)
    requires left > 0
    ensures forall j :: 0 <= j < |r| ==> 0 < |r[j]| <= left && Chain(offset, i, r[j]) && InRange(r[j], |offset|)
    decreases left, 0, |offset| - i
  {
    if i >= |offset| then []
    else
      var here := Prepend(i, Cands(offset, left - 1, i + offset[i]));
      var rest := CandsFrom(offset, left, i + 1);
      assert forall j :: 0 <= j < |here| ==> here[j][1..] == Cands(offset, left - 1, i + offset[i])[j];
      here + rest
  }

  /** Total power of a pick sequence. */
  function Cost(cp: seq<nat>, e: seq<nat>): nat
    requires InRange(e, |cp|)
    decreases |e|
  {
    if e == [] then 0 else cp[e[0]] + Cost(cp, e[1..])
  }

  /** A nonempty pick sequence costs at least its first charm's power. */
  lemma CostOfFirst(cp: seq<nat>, e: seq<nat>)
    requires InRange(e, |cp|)
    ensures e == [] || cp[e[0]] <= Cost(cp, e)
  {
  }

  /** The stats accumulated by adding the picks of `e` to `curr`, first pick first. */
  function SumFrom(k: Kernel, curr: seq<int>, e: seq<nat>): (r: seq<int>)
    requires Valid(k) && |curr| == |k.weights| && InRange(e, |k.stats|)
    ensures |r| == |curr|
    decreases |e|
  {
    if e == [] then curr else SumFrom(k, Add(curr, k.stats[e[0]]), e[1..])
  }

  /** Writing the picks of `e` into the buffer from slot `pos` on. */
  function Fill(slots: seq<nat>, pos: nat, e: seq<nat>): (r: seq<nat>)
    ensures |r| == |slots|
    decreases |e|
  {
    if e == [] || pos >= |slots| then slots else Fill(slots[pos := e[0]], pos + 1, e[1..])
  }

  /** Slots pos .. pos + |e| - 1 receive the picks of `e`; the others keep their contents. */
  lemma {:induction false} FillAt(slots: seq<nat>, pos: nat, e: seq<nat>)
    requires pos + |e| <= |slots|
    ensures forall i :: 0 <= i < |slots| ==> Fill(slots, pos, e)[i] == if pos <= i < pos + |e| then e[i - pos] else slots[i]
    decreases |e|
  {
    if e != [] {
      FillAt(slots[pos := e[0]], pos + 1, e[1..]);
    }
  }

  /** The state of a search node: accumulated stats, accumulated power, buffer, next slot. */
  datatype Node = Node(curr: seq<int>, cp: nat, slots: seq<nat>, pos: nat)

  predicate NodeOk(k: Kernel, n: Node) {
    Valid(k) && |n.curr| == |k.weights| && |n.slots| == SLOT_COUNT
  }

  /** The root of the serial search. */
  function Root(k: Kernel): Node {
    Node(Zeros(|k.weights|), 0, EmptySlots(), 0)
  }

  /** The node reached from `n` by picking charm i. */
  function Child(k: Kernel, n: Node, i: nat): Node
    requires NodeOk(k, n) && i < |k.stats| && n.pos < SLOT_COUNT
  {
    Node(Add(n.curr, k.stats[i]), n.cp + k.cp[i], n.slots[n.pos := i], n.pos + 1)
  }

  /** Utility of the node reached from `n` by the picks `e`. */
  function Score(k: Kernel, n: Node, e: seq<nat>): int
    requires NodeOk(k, n) && InRange(e, |k.stats|)
  {
    Utility(SumFrom(k, n.curr, e), k.weights)
  }

  /** The node reached from `n` by the picks `e` is within the power budget. */
  predicate Fits(k: Kernel, n: Node, e: seq<nat>)
    requires NodeOk(k, n) && InRange(e, |k.stats|)
  {
    n.cp + Cost(k.cp, e) <= k.maxCp
  }

  /** The running best recorded at the node reached from `n` by `e`. */
  function Record(k: Kernel, n: Node, e: seq<nat>): Best
    requires NodeOk(k, n) && InRange(e, |k.stats|)
  {
    Best(Score(k, n, e), Fill(n.slots, n.pos, e))
  }

  /** One visit: a node within budget replaces the running best when strictly better. */
  function Step(k: Kernel, n: Node, e: seq<nat>, best: Best): Best
    requires NodeOk(k, n) && InRange(e, |k.stats|)
  {
    if Fits(k, n, e) && Score(k, n, e) > best.utility then Record(k, n, e) else best
  }

  predicate AllInRange(cs: seq<seq<nat>>, n: nat) {
    forall j :: 0 <= j < |cs| ==> InRange(cs[j], n)
  }

  /** Visiting the candidates of `cs` in order. */
  function FoldSel(k: Kernel, n: Node, cs: seq<seq<nat>>, best: Best): Best
    requires NodeOk(k, n) && AllInRange(cs, |k.stats|)
    decreases |cs|
  {
    if cs == [] then best else FoldSel(k, n, cs[1..], Step(k, n, cs[0], best))
  }

  // ---------------------------------------------------------------------
  // The search is the fold over its enumeration.
  // ---------------------------------------------------------------------

  lemma {:induction false} FoldAppend(k: Kernel, n: Node, a: seq<seq<nat>>, b: seq<seq<nat>>, best: Best)
    requires NodeOk(k, n) && AllInRange(a, |k.stats|) && AllInRange(b, |k.stats|)
    ensures AllInRange(a + b, |k.stats|)
    ensures FoldSel(k, n, a + b, best) == FoldSel(k, n, b, FoldSel(k, n, a, best))
    decreases |a|
  {
    if a != [] {
      assert (a + b)[0] == a[0];
      assert (a + b)[1..] == a[1..] + b;
      FoldAppend(k, n, a[1..], b, Step(k, n, a[0], best));
    } else {
      assert a + b == b;
    }
  }

  /** Visiting `[i] + c` from `n` is visiting `c` from the child of `n` at i. */
  lemma StepPrepend(k: Kernel, n: Node, i: nat, c: seq<nat>, best: Best)
    requires NodeOk(k, n) && i < |k.stats| && n.pos < SLOT_COUNT && InRange(c, |k.stats|)
    ensures InRange([i] + c, |k.stats|)
    ensures Step(k, n, [i] + c, best) == Step(k, Child(k, n, i), c, best)
  {
    var e := [i] + c;
    assert e[0] == i && e[1..] == c;
    assert Cost(k.cp, e) == k.cp[i] + Cost(k.cp, c);
    assert SumFrom(k, n.curr, e) == SumFrom(k, Add(n.curr, k.stats[i]), c);
    assert Fill(n.slots, n.pos, e) == Fill(n.slots[n.pos := i], n.pos + 1, c);
  }

  lemma {:induction false} FoldPrepend(k: Kernel, n: Node, i: nat, cs: seq<seq<nat>>, best: Best)
    requires NodeOk(k, n) && i < |k.stats| && n.pos < SLOT_COUNT && AllInRange(cs, |k.stats|)
    ensures AllInRange(Prepend(i, cs), |k.stats|)
    ensures FoldSel(k, n, Prepend(i, cs), best) == FoldSel(k, Child(k, n, i), cs, best)
    decreases |cs|
  {
    var p := Prepend(i, cs);
    forall j | 0 <= j < |p|
      ensures InRange(p[j], |k.stats|)
    {
      StepPrepend(k, n, i, cs[j], best);
    }
    if cs != [] {
      StepPrepend(k, n, i, cs[0], best);
      assert p[1..] == Prepend(i, cs[1..]);
      FoldPrepend(k, n, i, cs[1..], Step(k, n, p[0], best));
    }
  }

  /** Below a node over budget nothing fits, so the running best is kept. */
  lemma {:induction false} FoldOverBudget(k: Kernel, n: Node, cs: seq<seq<nat>>, best: Best)
    requires NodeOk(k, n) && AllInRange(cs, |k.stats|) && n.cp > k.maxCp
    ensures FoldSel(k, n, cs, best) == best
    decreases |cs|
  {
    if cs != [] {
      FoldOverBudget(k, n, cs[1..], best);
    }
  }

  /** `eval_charm<left>` visits exactly `Cands(offset, left, lo)`, in order. */
  lemma {:induction false} SearchIsFold(k: Kernel, left: nat, curr: seq<int>, currCp: nat, buf: seq<nat>, lo: nat, best: Best)
    requires Valid(k) && |curr| == |k.weights| && |buf| == SLOT_COUNT && left <= CHARM_COUNT_MAX
    ensures EvalCharm(k, left, curr, currCp, buf, lo, best)
         == FoldSel(k, Node(curr, currCp, buf, CHARM_COUNT_MAX - left), Cands(k.offset, left, lo), best)
    decreases left, 1, 0
  {
    var n := Node(curr, currCp, buf, CHARM_COUNT_MAX - left);
    var cs := Cands(k.offset, left, lo);
    if currCp > k.maxCp {
      FoldOverBudget(k, n, cs, best);
    } else {
      var utility := Utility(curr, k.weights);
      var best' := if utility > best.utility then Best(utility, buf) else best;
      assert Step(k, n, [], best) == best';
      assert FoldSel(k, n, cs, best) == FoldSel(k, n, cs[1..], best');
      if left == 0 {
        assert cs[1..] == [];
      } else {
        assert cs[1..] == CandsFrom(k.offset, left, lo);
        ExtendIsFold(k, left, curr, currCp, buf, lo, best');
      }
    }
  }

  /** One iteration of the candidate loop: the subtree of i, then the rest. */
  lemma CandsFromStep(k: Kernel, n: Node, left: nat, i: nat, best: Best)
    requires NodeOk(k, n) && 0 < left && i < |k.stats| && n.pos < SLOT_COUNT
    ensures FoldSel(k, n, CandsFrom(k.offset, left, i), best)
         == FoldSel(k, n, CandsFrom(k.offset, left, i + 1),
                    FoldSel(k, Child(k, n, i), Cands(k.offset, left - 1, i + k.offset[i]), best))
  {
    var sub := Cands(k.offset, left - 1, i + k.offset[i]);
    var here := Prepend(i, sub);
    var rest := CandsFrom(k.offset, left, i + 1);
    assert CandsFrom(k.offset, left, i) == here + rest;
    FoldAppend(k, n, here, rest, best);
    FoldPrepend(k, n, i, sub, best);
  }

  /** One turn of the candidate loop of `Extend`, unfolded. */
  lemma ExtendUnfold(k: Kernel, left: nat, curr: seq<int>, currCp: nat, buf: seq<nat>, i: nat, best: Best)
    requires Valid(k) && |curr| == |k.weights| && |buf| == SLOT_COUNT && 0 < left <= CHARM_COUNT_MAX && i < |k.stats|
    ensures Extend(k, left, curr, currCp, buf, i, best)
         == Extend(k, left, curr, currCp, buf, i + 1,
                   EvalCharm(k, left - 1, Add(curr, k.stats[i]), currCp + k.cp[i],
                             buf[CHARM_COUNT_MAX - left := i], i + k.offset[i], best))
  {
  }

  /** Past the last candidate the loop visits nothing. */
  lemma ExtendPastEnd(k: Kernel, left: nat, curr: seq<int>, currCp: nat, buf: seq<nat>, i: nat, best: Best)
    requires Valid(k) && |curr| == |k.weights| && |buf| == SLOT_COUNT && 0 < left <= CHARM_COUNT_MAX && i >= |k.stats|
    ensures Extend(k, left, curr, currCp, buf, i, best) == best
    ensures CandsFrom(k.offset, left, i) == []
  {
  }

  /** The child node the loop descends into at candidate i. */
  lemma ChildOf(k: Kernel, left: nat, curr: seq<int>, currCp: nat, buf: seq<nat>, i: nat)
    requires Valid(k) && |curr| == |k.weights| && |buf| == SLOT_COUNT && 0 < left <= CHARM_COUNT_MAX && i < |k.stats|
    ensures Child(k, Node(curr, currCp, buf, CHARM_COUNT_MAX - left), i)
         == Node(Add(curr, k.stats[i]), currCp + k.cp[i], buf[CHARM_COUNT_MAX - left := i], CHARM_COUNT_MAX - (left - 1))
  {
  }

  /** The candidate loop from i visits exactly `CandsFrom(offset, left, i)`, in order. */
  lemma {:induction false} ExtendIsFold(k: Kernel, left: nat, curr: seq<int>, currCp: nat, buf: seq<nat>, i: nat, best: Best)
    requires Valid(k) && |curr| == |k.weights| && |buf| == SLOT_COUNT && 0 < left <= CHARM_COUNT_MAX
    ensures Extend(k, left, curr, currCp, buf, i, best)
         == FoldSel(k, Node(curr, currCp, buf, CHARM_COUNT_MAX - left), CandsFrom(k.offset, left, i), best)
    decreases left, 0, |k.stats| - i
  {
    if i < |k.stats| {
      var n := Node(curr, currCp, buf, CHARM_COUNT_MAX - left);
      var c := Child(k, n, i);
      ChildOf(k, left, curr, currCp, buf, i);
      var best' := EvalCharm(k, left - 1, c.curr, c.cp, c.slots, i + k.offset[i], best);
      var sub := Cands(k.offset, left - 1, i + k.offset[i]);
      ExtendUnfold(k, left, curr, currCp, buf, i, best);
      assert Extend(k, left, curr, currCp, buf, i, best) == Extend(k, left, curr, currCp, buf, i + 1, best');
      SearchIsFold(k, left - 1, c.curr, c.cp, c.slots, i + k.offset[i], best);
      assert best' == FoldSel(k, c, sub, best);
      CandsFromStep(k, n, left, i, best);
      ExtendIsFold(k, left, curr, currCp, buf, i + 1, best');
    } else {
      ExtendPastEnd(k, left, curr, currCp, buf, i, best);
    }
  }

  // ---------------------------------------------------------------------
  // The fold keeps the first strictly best fitting candidate.
  // ---------------------------------------------------------------------

  /**
   * Visiting `cs` from running best `best` ends with a utility no lower
   * than `best` and no lower than any fitting candidate; unless `best`
   * survives, the result is the record of the first fitting candidate
   * that reaches the final utility, and that utility beats `best`.
   */
  lemma {:induction false} FoldBest(k: Kernel, n: Node, cs: seq<seq<nat>>, best: Best)
    requires NodeOk(k, n) && AllInRange(cs, |k.stats|)
    ensures FoldSel(k, n, cs, best).utility >= best.utility
    ensures forall j :: 0 <= j < |cs| && Fits(k, n, cs[j]) ==> Score(k, n, cs[j]) <= FoldSel(k, n, cs, best).utility
    ensures var r := FoldSel(k, n, cs, best);
      || r == best
      || exists j :: && 0 <= j < |cs| && Fits(k, n, cs[j]) && r == Record(k, n, cs[j]) && r.utility > best.utility
                     && (forall j' :: 0 <= j' < j && Fits(k, n, cs[j']) ==> Score(k, n, cs[j']) < r.utility)
    decreases |cs|
  {
    if cs != [] {
      var b1 := Step(k, n, cs[0], best);
      var rest := cs[1..];
      FoldBest(k, n, rest, b1);
      var r := FoldSel(k, n, cs, best);
      assert r == FoldSel(k, n, rest, b1);
      forall j | 0 <= j < |cs| && Fits(k, n, cs[j])
        ensures Score(k, n, cs[j]) <= r.utility
      {
        if j > 0 {
          assert cs[j] == rest[j - 1];
        }
      }
      if r != best {
        if r == b1 {
          assert r == Record(k, n, cs[0]);
        } else {
          var j :| && 0 <= j < |rest| && Fits(k, n, rest[j]) && r == Record(k, n, rest[j]) && r.utility > b1.utility
                   && (forall j' :: 0 <= j' < j && Fits(k, n, rest[j']) ==> Score(k, n, rest[j']) < r.utility);
          assert cs[j + 1] == rest[j];
          forall j' | 0 <= j' < j + 1 && Fits(k, n, cs[j'])
            ensures Score(k, n, cs[j']) < r.utility
          {
            if j' > 0 {
              assert cs[j'] == rest[j' - 1];
            }
          }
        }
      }
    }
  }

  // ---------------------------------------------------------------------
  // The enumeration holds every chain.
  // ---------------------------------------------------------------------

  /** One step of `CandsFrom`: the subtree of i, then the candidates from i + 1. */
  lemma CandsFromUnfold(offset: seq<nat>, left: nat, i: nat)
    requires left > 0 && i < |offset|
    ensures CandsFrom(offset, left, i)
         == Prepend(i, Cands(offset, left - 1, i + offset[i])) + CandsFrom(offset, left, i + 1)
  {
  }

  lemma {:induction false} CandsFromMono(offset: seq<nat>, left: nat, lo: nat, i: nat, e: seq<nat>)
    requires left > 0 && lo <= i && e in CandsFrom(offset, left, i)
    ensures e in CandsFrom(offset, left, lo)
    decreases i - lo
  {
    if lo < i {
      CandsFromMono(offset, left, lo + 1, i, e);
      var rest := CandsFrom(offset, left, lo + 1);
      assert rest != [];
      assert lo < |offset|;
      var here := Prepend(lo, Cands(offset, left - 1, lo + offset[lo]));
      assert CandsFrom(offset, left, lo) == here + rest;
    }
  }

  lemma PrependHas(i: nat, cs: seq<seq<nat>>, t: seq<nat>)
    requires t in cs
    ensures [i] + t in Prepend(i, cs)
  {
    var j :| 0 <= j < |cs| && cs[j] == t;
    assert Prepend(i, cs)[j] == [i] + t;
  }

  /** Every chain of at most `left` picks below `lo` is enumerated. */
  lemma {:induction false} CandsComplete(offset: seq<nat>, left: nat, lo: nat, e: seq<nat>)
    requires Chain(offset, lo, e) && |e| <= left
    ensures e in Cands(offset, left, lo)
    decreases left
  {
    if e != [] {
      var i := e[0];
      var t := e[1..];
      assert e == [i] + t;
      assert i < |offset| && Chain(offset, i + offset[i], t);
      assert e in CandsFrom(offset, left, i) by {
        CandsComplete(offset, left - 1, i + offset[i], t);
        PrependHas(i, Cands(offset, left - 1, i + offset[i]), t);
        CandsFromUnfold(offset, left, i);
      }
      assert e in CandsFrom(offset, left, lo) by {
        CandsFromMono(offset, left, lo, i, e);
      }
      assert Cands(offset, left, lo) == [[]] + CandsFrom(offset, left, lo);
    }
  }

  /** The enumeration below a node is exactly the chains of at most `left` picks from `lo`. */
  lemma CandsMembers(offset: seq<nat>, left: nat, lo: nat, c: seq<nat>)
    ensures c in Cands(offset, left, lo) <==> |c| <= left && Chain(offset, lo, c)
  {
    if |c| <= left && Chain(offset, lo, c) {
      CandsComplete(offset, left, lo, c);
    }
  }

  /** The members of `Prepend(i, cs)` are i followed by a member of `cs`. */
  lemma PrependMembers(i: nat, cs: seq<seq<nat>>, e: seq<nat>)
    ensures e in Prepend(i, cs) <==> e != [] && e[0] == i && e[1..] in cs
  {
    if e != [] && e[0] == i && e[1..] in cs {
      assert e == [i] + e[1..];
      PrependHas(i, cs, e[1..]);
    }
    if e in Prepend(i, cs) {
      var a :| 0 <= a < |cs| && Prepend(i, cs)[a] == e;
      assert e[1..] == cs[a];
    }
  }

  lemma {:induction false} ChainIsFlat(offset: seq<nat>, lo: nat, e: seq<nat>)
    requires forall i :: 0 <= i < |offset| ==> offset[i] >= 1
    ensures Chain(offset, lo, e) <==> FlatChain(offset, lo, e)
    decreases |e|
  {
    if e != [] {
      if e[0] < |offset| {
        ChainIsFlat(offset, e[0] + offset[e[0]], e[1..]);
        var t := e[1..];
        if FlatChain(offset, lo, e) {
          assert forall j :: 0 <= j < |t| ==> t[j] == e[j + 1];
          assert FlatChain(offset, e[0] + offset[e[0]], t);
        }
        if Chain(offset, lo, e) {
          assert FlatChain(offset, e[0] + offset[e[0]], t);
          forall j | 0 <= j < |e| - 1
            ensures e[j] + offset[e[j]] <= e[j + 1]
          {
            if j > 0 {
              assert e[j] == t[j - 1] && e[j + 1] == t[j];
            }
          }
        }
      }
    }
  }

  // ---------------------------------------------------------------------
  // Optimality of the serial search.
  // ---------------------------------------------------------------------

  /**
   * A selection the source promises to consider: at most seven picks of
   * compacted indices, strictly increasing, each next index at least the
   * previous index plus its offset, total power within the budget.
   */
  predicate ValidSelection(k: Kernel, e: seq<nat>)
    requires Valid(k)
  {
    && |e| <= CHARM_COUNT_MAX
    && FlatChain(k.offset, 0, e)
    && Cost(k.cp, e) <= k.maxCp
  }

  /** The utility the search assigns to selection `e`. */
  function Value(k: Kernel, e: seq<nat>): int
    requires Valid(k) && InRange(e, |k.stats|)
  {
    Score(k, Root(k), e)
  }

  lemma SerialIsFold(k: Kernel)
    requires Valid(k)
    ensures Serial(k) == FoldSel(k, Root(k), Cands(k.offset, CHARM_COUNT_MAX, 0), InitialBest())
  {
    SearchIsFold(k, CHARM_COUNT_MAX, Zeros(|k.weights|), 0, EmptySlots(), 0, InitialBest());
  }

  /** The enumeration of the serial search is exactly the valid selections, with budget aside. */
  lemma SerialCands(k: Kernel, e: seq<nat>)
    requires Valid(k)
    ensures e in Cands(k.offset, CHARM_COUNT_MAX, 0) <==> |e| <= CHARM_COUNT_MAX && FlatChain(k.offset, 0, e)
  {
    ChainIsFlat(k.offset, 0, e);
    if |e| <= CHARM_COUNT_MAX && Chain(k.offset, 0, e) {
      CandsComplete(k.offset, CHARM_COUNT_MAX, 0, e);
    }
  }

  /**
   * The serial search returns the maximum utility over all valid
   * selections (never below 0, the empty selection's), and its buffer
   * holds a valid selection reaching it, slot by slot.
   */
  lemma SerialOptimal(k: Kernel)
    requires Valid(k)
    ensures Serial(k).utility >= 0
    ensures forall e :: ValidSelection(k, e) ==> Value(k, e) <= Serial(k).utility
    ensures exists e :: ValidSelection(k, e) && Value(k, e) == Serial(k).utility && Serial(k).slots == Fill(EmptySlots(), 0, e)
  {
    var cs := Cands(k.offset, CHARM_COUNT_MAX, 0);
    var root := Root(k);
    SerialIsFold(k);
    FoldBest(k, root, cs, InitialBest());
    var r := Serial(k);
    UtilityOfZeros(k.weights);
    assert Score(k, root, cs[0]) == 0 && Fits(k, root, cs[0]);
    forall e | ValidSelection(k, e)
      ensures Value(k, e) <= r.utility
    {
      SerialCands(k, e);
      var j :| 0 <= j < |cs| && cs[j] == e;
    }
    assert r != InitialBest();
    var j :| 0 <= j < |cs| && Fits(k, root, cs[j]) && r == Record(k, root, cs[j]);
    SerialCands(k, cs[j]);
    assert ValidSelection(k, cs[j]);
  }

  /**
   * Ties go to the pre-order: the serial result is the record of a valid
   * selection, and every valid selection the recursion visits before it
   * is worth strictly less.
   */
  lemma SerialFirst(k: Kernel)
    requires Valid(k)
    ensures var cs := Cands(k.offset, CHARM_COUNT_MAX, 0);
      exists j :: && 0 <= j < |cs| && ValidSelection(k, cs[j]) && Serial(k) == Record(k, Root(k), cs[j])
                  && forall j' :: 0 <= j' < j && ValidSelection(k, cs[j']) ==> Value(k, cs[j']) < Serial(k).utility
  {
    var cs := Cands(k.offset, CHARM_COUNT_MAX, 0);
    var root := Root(k);
    SerialIsFold(k);
    FoldBest(k, root, cs, InitialBest());
    UtilityOfZeros(k.weights);
    assert Score(k, root, cs[0]) == 0 && Fits(k, root, cs[0]);
    var r := Serial(k);
    assert r != InitialBest();
    var j :| && 0 <= j < |cs| && Fits(k, root, cs[j]) && r == Record(k, root, cs[j]) && r.utility > InitialBest().utility
             && (forall j' :: 0 <= j' < j && Fits(k, root, cs[j']) ==> Score(k, root, cs[j']) < r.utility);
    assert ValidSelection(k, cs[j]) by {
      SerialCands(k, cs[j]);
    }
    forall j' | 0 <= j' < j && ValidSelection(k, cs[j'])
      ensures Value(k, cs[j']) < r.utility
    {
      assert Fits(k, root, cs[j']);
    }
  }

  /** When no valid selection is worth more than nothing, the serial search reports 0 and an empty buffer. */
  lemma SerialNoGain(k: Kernel)
    requires Valid(k)
    ensures (forall e :: ValidSelection(k, e) ==> Value(k, e) <= 0) ==> Serial(k) == Best(0, EmptySlots())
  {
    if forall e :: ValidSelection(k, e) ==> Value(k, e) <= 0 {
      SerialOptimal(k);
      SerialZero(k);
    }
  }

  /**
   * A serial result worth nothing is the record of the empty selection:
   * the root is visited first, and later selections worth no more than it
   * never replace it.
   */
  lemma SerialZero(k: Kernel)
    requires Valid(k)
    ensures Serial(k).utility <= 0 ==> Serial(k) == Best(0, EmptySlots())
  {
    var cs := Cands(k.offset, CHARM_COUNT_MAX, 0);
    var root := Root(k);
    SerialIsFold(k);
    FoldBest(k, root, cs, InitialBest());
    UtilityOfZeros(k.weights);
    assert Score(k, root, cs[0]) == 0 && Fits(k, root, cs[0]);
    var r := Serial(k);
    assert r != InitialBest();
    var j :| && 0 <= j < |cs| && Fits(k, root, cs[j]) && r == Record(k, root, cs[j]) && r.utility > InitialBest().utility
             && (forall j' :: 0 <= j' < j && Fits(k, root, cs[j']) ==> Score(k, root, cs[j']) < r.utility);
    if r.utility <= 0 {
      assert j == 0;
      assert r == Record(k, root, []);
    }
  }
}
