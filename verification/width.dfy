/**
 * Width dispatch (`TABLE_SIZE_FOR` and the delegate table of
 * src/common/eval_naive.cpp): the search runs at the important-ability
 * count rounded up to a multiple of the alignment unit, with the extra
 * slots of every table zero. The rounding is proved to be the least
 * aligned width, and the padding is proved not to change what the search
 * returns.
 */
module Width {
  import opened Charms
  import opened Aligned
  import opened Stats
  import opened Search
  import opened Enumeration

  /** `TABLE_SIZE_FOR<n>`: n rounded up to a multiple of `align`. */
  function TableSizeFor(n: nat, align: nat): (r: nat)
    requires align > 0
  {
    ((n + align - 1) / align) * align
  }

  /** The q-th multiple of the alignment unit. */
  function Multiple(q: nat, align: nat): nat {
    q * align
  }

  /**
   * The rounded width is a multiple of the alignment unit, holds n stats,
   * wastes less than one unit, and is the least such multiple.
   */
  lemma TableSizeForLeast(n: nat, align: nat)
    requires align > 0
    ensures TableSizeFor(n, align) >= n
    ensures TableSizeFor(n, align) < n + align
    ensures exists q: nat :: TableSizeFor(n, align) == Multiple(q, align)
    ensures forall q: nat :: Multiple(q, align) >= n ==> TableSizeFor(n, align) <= Multiple(q, align)
  {
    var q := (n + align - 1) / align;
    var r := (n + align - 1) % align;
    assert n + align - 1 == q * align + r;
    assert TableSizeFor(n, align) == Multiple(q, align);
    forall mq: nat | Multiple(mq, align) >= n
      ensures q * align <= Multiple(mq, align)
    {
      assert q * align < (mq + 1) * align;
      MulLtCancel(q, mq + 1, align);
      MulMono(q, mq, align);
    }
  }

  /** Nothing to hold rounds to width 0. */
  lemma TableSizeForZero(align: nat)
    requires align > 0
    ensures TableSizeFor(0, align) == 0
  {
    assert (align - 1) / align == 0;
  }

  lemma MulMono(a: nat, b: nat, c: nat)
    requires a <= b
    ensures a * c <= b * c
  {
  }

  lemma MulLtCancel(a: nat, b: nat, c: nat)
    requires a * c < b * c
    ensures a < b
  {
  }

  /** The zero-padding of every kernel table to `width` (`std::copy` into fresh tables). */
  function PadKernel(k: Kernel, width: nat): (r: Kernel)
    requires Valid(k) && |k.weights| <= width
    ensures Valid(r) && |r.weights| == width && |r.stats| == |k.stats|
    ensures r.cp == k.cp && r.offset == k.offset && r.maxCp == k.maxCp
  {
    Kernel(Pad(k.weights, width), seq(|k.stats|, i requires 0 <= i < |k.stats| => Pad(k.stats[i], width)),
           k.cp, k.offset, k.maxCp)
  }

  /** A search node with its stats padded. */
  function PadNode(n: Node, width: nat): Node
    requires |n.curr| <= width
  {
    Node(Pad(n.curr, width), n.cp, n.slots, n.pos)
  }

  lemma {:induction false} SumFromPadded(k: Kernel, width: nat, curr: seq<int>, e: seq<nat>)
    requires Valid(k) && |k.weights| <= width && |curr| == |k.weights| && InRange(e, |k.stats|)
    ensures SumFrom(PadKernel(k, width), Pad(curr, width), e) == Pad(SumFrom(k, curr, e), width)
    decreases |e|
  {
    if e != [] {
      var pk := PadKernel(k, width);
      AddPadded(curr, k.stats[e[0]], width);
      assert pk.stats[e[0]] == Pad(k.stats[e[0]], width);
      SumFromPadded(k, width, Add(curr, k.stats[e[0]]), e[1..]);
    }
  }

  /** Padding changes neither the score nor the budget test nor the record of a candidate. */
  lemma StepPadded(k: Kernel, width: nat, n: Node, e: seq<nat>, best: Best)
    requires NodeOk(k, n) && |k.weights| <= width && InRange(e, |k.stats|)
    ensures NodeOk(PadKernel(k, width), PadNode(n, width))
    ensures Score(PadKernel(k, width), PadNode(n, width), e) == Score(k, n, e)
    ensures Step(PadKernel(k, width), PadNode(n, width), e, best) == Step(k, n, e, best)
  {
    SumFromPadded(k, width, n.curr, e);
    UtilityOfPadded(SumFrom(k, n.curr, e), k.weights, width);
  }

  lemma {:induction false} FoldPadded(k: Kernel, width: nat, n: Node, cs: seq<seq<nat>>, best: Best)
    requires NodeOk(k, n) && |k.weights| <= width && AllInRange(cs, |k.stats|)
    ensures NodeOk(PadKernel(k, width), PadNode(n, width))
    ensures FoldSel(PadKernel(k, width), PadNode(n, width), cs, best) == FoldSel(k, n, cs, best)
    decreases |cs|
  {
    StepPadded(k, width, n, [], best);
    if cs != [] {
      StepPadded(k, width, n, cs[0], best);
      FoldPadded(k, width, n, cs[1..], Step(k, n, cs[0], best));
    }
  }

  /**
   * Zero-padded slots contribute nothing: the serial search at any wider
   * table returns exactly what it returns at the important-ability count.
   */
  lemma SerialPadded(k: Kernel, width: nat)
    requires Valid(k) && |k.weights| <= width
    ensures Serial(PadKernel(k, width)) == Serial(k)
  {
    var pk := PadKernel(k, width);
    SerialIsFold(k);
    SerialIsFold(pk);
    RootPadded(k, width);
    FoldPadded(k, width, Root(k), Cands(k.offset, CHARM_COUNT_MAX, 0), InitialBest());
  }

  /** The root of the padded kernel is the padded root. */
  lemma RootPadded(k: Kernel, width: nat)
    requires Valid(k) && |k.weights| <= width
    ensures Root(PadKernel(k, width)) == PadNode(Root(k), width)
  {
    assert Pad(Zeros(|k.weights|), width) == Zeros(width);
  }

  /** A selection is valid for the padded kernel iff it is valid for the kernel, with the same value. */
  lemma ValuePadded(k: Kernel, width: nat, e: seq<nat>)
    requires Valid(k) && |k.weights| <= width
    ensures ValidSelection(PadKernel(k, width), e) <==> ValidSelection(k, e)
    ensures InRange(e, |k.stats|) ==> Value(PadKernel(k, width), e) == Value(k, e)
  {
    if InRange(e, |k.stats|) {
      RootPadded(k, width);
      StepPadded(k, width, Root(k), e, InitialBest());
    }
  }
}
