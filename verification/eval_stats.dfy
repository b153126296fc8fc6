/**
 * Stat vectors and the utility of an accumulated vector
 * (`charm_eval_helper::eval_stats` in src/common/eval_naive.cpp and its
 * twin in src/eval_naive.cpp).
 *
 * The source accumulates in 64 bits and adds stats in 32 bits without
 * overflow checks; integers here are unbounded.
 */
module Stats {
  import opened Aligned

  /** Upper-only clamp: values above SCALE become SCALE, all others stay. */
  function ClampHigh(x: int): (r: int)
    ensures r <= x && r <= SCALE
    ensures r == x || r == SCALE
  {
    if x < SCALE then x else SCALE
  }

  /** One ability's contribution: the clamped accumulated value times its weight. */
  function Term(x: int, w: int): int {
    ClampHigh(x) * w
  }

  /** Reference definition: the weighted sum over all abilities, last term peeled. */
  function Utility(v: seq<int>, w: seq<int>): int
    requires |v| == |w|
    decreases |v|
  {
    if |v| == 0 then 0
    else Utility(v[..|v| - 1], w[..|w| - 1]) + Term(v[|v| - 1], w[|w| - 1])
  }

  /** Pointwise sum of two stat vectors of one width. */
  function Add(a: seq<int>, b: seq<int>): (r: seq<int>)
    requires |a| == |b|
    ensures |r| == |a|
    ensures forall i :: 0 <= i < |a| ==> r[i] == a[i] + b[i]
  {
    seq(|a|, i requires 0 <= i < |a| => a[i] + b[i])
  }

  /**
   * `eval_stats`: the loop over the N abilities of the table, accumulating
   * min(stat, SCALE) * weight. Its result is the reference utility.
   */
  method EvalStats(stats: seq<int>, weights: seq<int>) returns (result: int)
    requires |stats| == |weights|
    ensures result == Utility(stats, weights)
  {
    result := 0;
    var i := 0;
    while i < |stats|
      invariant 0 <= i <= |stats|
      invariant result == Utility(stats[..i], weights[..i])
    {
      assert stats[..i + 1][..i] == stats[..i];
      assert weights[..i + 1][..i] == weights[..i];
      result := result + (if stats[i] < SCALE then stats[i] else SCALE) * weights[i];
      i := i + 1;
    }
    assert stats[..i] == stats && weights[..i] == weights;
  }

  /** The empty selection's vector (all zeros) has utility 0, whatever the weights. */
  lemma {:induction false} UtilityOfZeros(w: seq<int>)
    ensures Utility(Zeros(|w|), w) == 0
    decreases |w|
  {
    if |w| > 0 {
      assert Zeros(|w|)[..|w| - 1] == Zeros(|w| - 1);
      UtilityOfZeros(w[..|w| - 1]);
    }
  }

  /**
   * The clamp is upper-only: when no accumulated value exceeds SCALE,
   * the utility is the plain dot product, negative values included.
   */
  lemma {:induction false} UtilityUnclampedIsDot(v: seq<int>, w: seq<int>)
    requires |v| == |w|
    requires forall i :: 0 <= i < |v| ==> v[i] <= SCALE
    ensures Utility(v, w) == Dot(v, w)
    decreases |v|
  {
    if |v| > 0 {
      UtilityUnclampedIsDot(v[..|v| - 1], w[..|w| - 1]);
    }
  }

  /** The unclamped weighted sum. */
  function Dot(v: seq<int>, w: seq<int>): int
    requires |v| == |w|
    decreases |v|
  {
    if |v| == 0 then 0 else Dot(v[..|v| - 1], w[..|w| - 1]) + v[|v| - 1] * w[|w| - 1]
  }

  /**
   * Zero-padded slots beyond the important-ability count contribute
   * nothing: padding a vector and its weights to any wider table keeps
   * the utility.
   */
  lemma {:induction false} UtilityOfPadded(v: seq<int>, w: seq<int>, width: nat)
    requires |v| == |w| <= width
    ensures Utility(Pad(v, width), Pad(w, width)) == Utility(v, w)
    decreases width
  {
    if width > |v| {
      PadPrefix(v, width);
      PadPrefix(w, width);
      UtilityOfPadded(v, w, width - 1);
      assert Term(0, 0) == 0;
    } else {
      assert Pad(v, width) == v && Pad(w, width) == w;
    }
  }

  /** Padding one slot wider appends a zero. */
  lemma PadPrefix(v: seq<int>, width: nat)
    requires |v| < width
    ensures Pad(v, width)[..width - 1] == Pad(v, width - 1)
    ensures Pad(v, width)[width - 1] == 0
  {
    var l := Pad(v, width)[..width - 1];
    var r := Pad(v, width - 1);
    forall i | 0 <= i < width - 1
      ensures l[i] == r[i]
    {
      if i < |v| {
        assert Pad(v, width)[..|v|][i] == r[..|v|][i];
      }
    }
  }

  /** Adding padded vectors is padding the sum. */
  lemma AddPadded(a: seq<int>, b: seq<int>, width: nat)
    requires |a| == |b| <= width
    ensures Add(Pad(a, width), Pad(b, width)) == Pad(Add(a, b), width)
  {
    var l := Add(Pad(a, width), Pad(b, width));
    var r := Pad(Add(a, b), width);
    forall i | 0 <= i < width
      ensures l[i] == r[i]
    {
      if i < |a| {
        assert Pad(a, width)[..|a|][i] == a[i];
        assert Pad(b, width)[..|b|][i] == b[i];
        assert r[..|a|][i] == Add(a, b)[i];
      }
    }
  }

  /** Adding to the zero table copies the other operand. */
  lemma AddZerosLeft(v: seq<int>)
    ensures Add(Zeros(|v|), v) == v
  {
  }

  /** The entries of v at the positions `idx`, in that order. */
  function Project(v: seq<int>, idx: seq<nat>): (r: seq<int>)
    requires forall p :: 0 <= p < |idx| ==> idx[p] < |v|
    ensures |r| == |idx|
    ensures forall p :: 0 <= p < |idx| ==> r[p] == v[idx[p]]
  {
    seq(|idx|, p requires 0 <= p < |idx| => v[idx[p]])
  }

  /** An ascending list of positions below n has at most n entries. */
  lemma {:induction false} AscendingBound(idx: seq<nat>, n: nat)
    requires forall p :: 0 <= p < |idx| ==> idx[p] < n
    requires forall p, q :: 0 <= p < q < |idx| ==> idx[p] < idx[q]
    ensures |idx| <= n
    decreases |idx|
  {
    if |idx| > 0 {
      AscendingBound(idx[..|idx| - 1], idx[|idx| - 1]);
    }
  }

  /**
   * Positions whose term is zero can be dropped: when every position
   * outside the ascending list `idx` contributes nothing, the utility over
   * `idx` alone is the utility over all positions.
   */
  lemma {:induction false} UtilityProjected(v: seq<int>, w: seq<int>, idx: seq<nat>)
    requires |v| == |w|
    requires forall p :: 0 <= p < |idx| ==> idx[p] < |v|
    requires forall p, q :: 0 <= p < q < |idx| ==> idx[p] < idx[q]
    requires forall a :: 0 <= a < |v| && a !in idx ==> Term(v[a], w[a]) == 0
    ensures Utility(Project(v, idx), Project(w, idx)) == Utility(v, w)
    decreases |v|, 1
  {
    if |v| == 0 {
      AscendingBound(idx, 0);
    } else if |idx| > 0 && idx[|idx| - 1] == |v| - 1 {
      ProjectedKeepsLast(v, w, idx);
    } else {
      ProjectedDropsLast(v, w, idx);
    }
  }

  /** The induction step when the last position is listed: both sums end with its term. */
  lemma {:induction false} ProjectedKeepsLast(v: seq<int>, w: seq<int>, idx: seq<nat>)
    requires |v| == |w| && |idx| > 0 && idx[|idx| - 1] == |v| - 1
    requires forall p :: 0 <= p < |idx| ==> idx[p] < |v|
    requires forall p, q :: 0 <= p < q < |idx| ==> idx[p] < idx[q]
    requires forall a :: 0 <= a < |v| && a !in idx ==> Term(v[a], w[a]) == 0
    ensures Utility(Project(v, idx), Project(w, idx)) == Utility(v, w)
    decreases |v|, 0
  {
    var n, m := |v|, |idx|;
    var idx' := idx[..m - 1];
    UnlistedBeforeLast(v, w, idx, v[..n - 1], w[..n - 1], idx');
    UtilityProjected(v[..n - 1], w[..n - 1], idx');
    ProjectPrefix(v, idx);
    ProjectPrefix(w, idx);
    var pv, pw := Project(v, idx), Project(w, idx);
    assert Utility(pv, pw) == Utility(pv[..m - 1], pw[..m - 1]) + Term(v[n - 1], w[n - 1]);
  }

  /** Before a listed last position, a position missing from the rest of the list contributes nothing. */
  lemma UnlistedBeforeLast(v: seq<int>, w: seq<int>, idx: seq<nat>, v': seq<int>, w': seq<int>, idx': seq<nat>)
    requires |v| == |w| && |idx| > 0 && idx[|idx| - 1] == |v| - 1
    requires v' == v[..|v| - 1] && w' == w[..|w| - 1] && idx' == idx[..|idx| - 1]
    requires forall a :: 0 <= a < |v| && a !in idx ==> Term(v[a], w[a]) == 0
    ensures forall a :: 0 <= a < |v'| && a !in idx' ==> Term(v'[a], w'[a]) == 0
  {
    forall a | 0 <= a < |v'| && a !in idx'
      ensures Term(v'[a], w'[a]) == 0
    {
      assert idx == idx' + [|v| - 1];
    }
  }

  /** Projecting on all but the last listed position, which is the last position, is projecting the prefix. */
  lemma ProjectPrefix(v: seq<int>, idx: seq<nat>)
    requires |idx| > 0 && idx[|idx| - 1] == |v| - 1
    requires forall p :: 0 <= p < |idx| ==> idx[p] < |v|
    requires forall p, q :: 0 <= p < q < |idx| ==> idx[p] < idx[q]
    ensures forall p :: 0 <= p < |idx| - 1 ==> idx[p] < |v| - 1
    ensures Project(v, idx)[..|idx| - 1] == Project(v[..|v| - 1], idx[..|idx| - 1])
  {
    assert forall p :: 0 <= p < |idx| - 1 ==> idx[p] < idx[|idx| - 1];
  }

  /** The induction step when the last position is not listed: its term is zero. */
  lemma {:induction false} ProjectedDropsLast(v: seq<int>, w: seq<int>, idx: seq<nat>)
    requires |v| == |w| && |v| > 0 && (|idx| == 0 || idx[|idx| - 1] != |v| - 1)
    requires forall p :: 0 <= p < |idx| ==> idx[p] < |v|
    requires forall p, q :: 0 <= p < q < |idx| ==> idx[p] < idx[q]
    requires forall a :: 0 <= a < |v| && a !in idx ==> Term(v[a], w[a]) == 0
    ensures Utility(Project(v, idx), Project(w, idx)) == Utility(v, w)
    decreases |v|, 0
  {
    var n, m := |v|, |idx|;
    forall p | 0 <= p < m
      ensures idx[p] < n - 1
    {
      if p < m - 1 {
        assert idx[p] < idx[m - 1];
      }
    }
    UtilityProjected(v[..n - 1], w[..n - 1], idx);
    assert Utility(v, w) == Utility(v[..n - 1], w[..n - 1]) + Term(v[n - 1], w[n - 1]);
    assert Project(v, idx) == Project(v[..n - 1], idx);
    assert Project(w, idx) == Project(w[..n - 1], idx);
  }
}
