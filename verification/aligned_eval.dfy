/**
 * Fixed-point scale, fixed-width stat tables and the selection buffer
 * (include/common/aligned_eval.h). Alignment and vectorisation attributes
 * have no behavioural content and are left out; a `table_t<N>` is a
 * sequence of N integers.
 */
module Aligned {
  import opened Charms

  /** Bits of precision of an encoded stat. */
  const ENCODED_CHARM_STAT_BITS: nat := 26

  /** 2^bits, the left shift `1 << bits` of the source. */
  function Pow2(bits: nat): (r: nat)
    ensures r >= 1
  {
    if bits == 0 then 1 else 2 * Pow2(bits - 1)
  }

  /** The encoded value of a stat that sits exactly at its cap. */
  const SCALE: int := Pow2(ENCODED_CHARM_STAT_BITS) - 1

  /** The selection buffer has one slot more than the selection size. */
  const SLOT_COUNT: nat := CHARM_COUNT_MAX + 1

  /** The value of SCALE, 2^26 - 1. */
  lemma ScaleValue()
    ensures SCALE == 0x3FF_FFFF
  {
    assert Pow2(10) == 1024;
    assert Pow2(20) == 1024 * 1024 by {
      assert Pow2(20) == Pow2(10) * 1024 by { Pow2Add(10, 10); }
    }
    assert Pow2(26) == Pow2(20) * 64 by { Pow2Add(20, 6); }
  }

  lemma {:induction false} Pow2Add(a: nat, b: nat)
    ensures Pow2(a + b) == Pow2(a) * Pow2(b)
    decreases b
  {
    if b > 0 {
      Pow2Add(a, b - 1);
    }
  }

  /** A default-constructed `charm_set_buffer`: every slot holds MISSING_ID. */
  function EmptySlots(): (r: seq<nat>)
    ensures |r| == SLOT_COUNT
    ensures forall i :: 0 <= i < |r| ==> r[i] == MISSING_ID
  {
    seq(SLOT_COUNT, _ => MISSING_ID)
  }

  /** A value-initialised `table_t<n>`: n zero stats. */
  function Zeros(n: nat): (r: seq<int>)
    ensures |r| == n
    ensures forall i :: 0 <= i < n ==> r[i] == 0
  {
    seq(n, _ => 0)
  }

  /**
   * Copying a shorter stat list into a zero-initialised `table_t<width>`,
   * as `std::copy` into a fresh table does: the prefix is the list, the
   * rest stays zero.
   */
  function Pad(v: seq<int>, width: nat): (r: seq<int>)
    requires |v| <= width
    ensures |r| == width
    ensures r[..|v|] == v
    ensures forall i :: |v| <= i < width ==> r[i] == 0
  {
    v + Zeros(width - |v|)
  }
}
