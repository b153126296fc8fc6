/**
 * The width-specialised branch-and-bound search of
 * src/common/eval_naive.cpp: `charm_eval_helper::eval_charm` (the
 * recursion and its candidate loop) and `eval_charms_serial`.
 *
 * The compile-time width N is the length of the kernel's weight vector;
 * the template parameter `CharmsLeft` is the argument `left`. The
 * helper's mutable running best is threaded through the calls as a
 * `Best` value.
 */
module Search {
  import opened Charms
  import opened Aligned
  import opened Stats

  /** A running best: its utility and the selection buffer that reached it. */
  datatype Best = Best(utility: int, slots: seq<nat>)

  /**
   * The read-only search configuration (`eval_config_static`): compacted
   * weights, one stat table per compacted charm, the power table, the
   * index-offset table (1, or 2 when the next entry is the upgrade twin)
   * and the power budget.
   */
  datatype Kernel = Kernel(weights: seq<int>, stats: seq<seq<int>>, cp: seq<nat>, offset: seq<nat>, maxCp: nat)

  /** Parallel tables of one length, every stat table of the kernel's width, offsets positive. */
  predicate Valid(k: Kernel) {
    && |k.cp| == |k.stats|
    && |k.offset| == |k.stats|
    && |k.stats| < MISSING_ID
    && (forall i :: 0 <= i < |k.stats| ==> |k.stats[i]| == |k.weights|)
    && (forall i :: 0 <= i < |k.offset| ==> k.offset[i] >= 1)
  }

  /** A selection buffer of eight slots, each MISSING_ID or a compacted index below `n`. */
  predicate SlotsIn(slots: seq<nat>, n: nat) {
    && |slots| == SLOT_COUNT
    && forall i :: 0 <= i < |slots| ==> slots[i] == MISSING_ID || slots[i] < n
  }

  /**
   * `eval_charm<left>` at a node with accumulated stats `curr`, accumulated
   * power `currCp`, buffer `buf` and lower bound `lo`: prune when over
   * budget, otherwise record the node if its utility strictly beats the
   * running best, then try every candidate from `lo` on while picks remain.
   */
  function EvalCharm(k: Kernel, left: nat, curr: seq<int>, currCp: nat, buf: seq<nat>, lo: nat, best: Best): (r: Best)
    requires Valid(k) && |curr| == |k.weights| && |buf| == SLOT_COUNT && left <= CHARM_COUNT_MAX
    ensures r.utility >= best.utility
    ensures SlotsIn(best.slots, |k.stats|) && SlotsIn(buf, |k.stats|) ==> SlotsIn(r.slots, |k.stats|)
    decreases left, 1, 0
  {
    if currCp > k.maxCp then best
    else
      var utility := Utility(curr, k.weights);
      var best' := if utility > best.utility then Best(utility, buf) else best;
      if left == 0 then best' else Extend(k, left, curr, currCp, buf, lo, best')
  }

  /**
   * The candidate loop `for (i = prev_idx; i < charms.size(); i++)` of
   * `eval_charm<left>`: slot 7 - left receives i, the stats and power of
   * charm i are added, and the recursion continues from i + offset[i].
   */
  function Extend(k: Kernel, left: nat, curr: seq<int>, currCp: nat, buf: seq<nat>, i: nat, best: Best): (r: Best)
    requires Valid(k) && |curr| == |k.weights| && |buf| == SLOT_COUNT && 0 < left <= CHARM_COUNT_MAX
    ensures r.utility >= best.utility
    ensures SlotsIn(best.slots, |k.stats|) && SlotsIn(buf, |k.stats|) ==> SlotsIn(r.slots, |k.stats|)
    decreases left, 0, |k.stats| - i
  {
    if i >= |k.stats| then best
    else
      var best' := EvalCharm(k, left - 1, Add(curr, k.stats[i]), currCp + k.cp[i],
                             buf[CHARM_COUNT_MAX - left := i], i + k.offset[i], best);
      Extend(k, left, curr, currCp, buf, i + 1, best')
  }

  /** The running best a fresh helper starts from: utility -1, an empty buffer. */
  function InitialBest(): (r: Best)
    ensures r.utility < 0 && SlotsIn(r.slots, 0)
  {
    Best(-1, EmptySlots())
  }

  /**
   * `eval_charms_serial`: one helper, the zero stat table, power 0, an
   * empty buffer, lower bound 0 and all seven picks available.
   */
  function Serial(k: Kernel): (r: Best)
    requires Valid(k)
    ensures SlotsIn(r.slots, |k.stats|)
  {
    EvalCharm(k, CHARM_COUNT_MAX, Zeros(|k.weights|), 0, EmptySlots(), 0, InitialBest())
  }
}
