/**
 * Level-of-detail masks over 32-bit Java `int` hash codes.
 *
 * Level k selects the low-order bits 0 .. k-1 of a code. Masking clears
 * those bits, so codes that differ only in them fall into one coarser bucket.
 * Java takes a shift distance modulo 32, so `1 << x` for x >= 32 equals
 * `1 << (x % 32)`, and every level from 32 on selects all 32 bits.
 *
 * Integer-to-bit-vector conversions are costly for the solver, so each proof
 * here converts its integer arguments once, through `SmallBits`, and then
 * argues on bit-vectors alone.
 */
module Lod {

  const AllBits: bv32 := 0xFFFF_FFFF

  /** Java's `1 << x` on an `int`, for a non-negative shift distance x. */
  function ShiftOne(x: int): (r: bv32)
    requires x >= 0
  {
    (1 as bv32) << ((x % 32) as bv8)
  }

  /** The mask of level k in closed form. */
  function LowBits(k: int): (m: bv32)
  {
    if k <= 0 then 0
    else if k >= 32 then AllBits
    else AllBits >> ((32 - k) as bv8)
  }

  /** Bit b (0 .. 31) of w. */
  predicate BitSet(w: bv32, b: int)
    requires 0 <= b < 32
  {
    (w >> (b as bv8)) & 1 == 1
  }

  /** The bit-vector that stands for a small integer. */
  lemma SmallBits(x: int) returns (s: bv8)
    requires 0 <= x <= 32
    ensures s as int == x
  {
    s := x as bv8;
  }

  lemma BitsRoundTrip(s: bv8)
    ensures (s as int) as bv8 == s
  {
  }

  lemma BitsOrder(a: bv8, b: bv8)
    ensures a as int <= b as int <==> a <= b
    ensures a as int < b as int <==> a < b
  {
  }

  lemma MinusBits32(s: bv8, t: bv8)
    requires s as int + t as int == 32
    ensures t == 32 - s
  {
  }

  lemma MinusBits31(s: bv8, t: bv8)
    requires s as int + t as int == 31
    ensures t == 31 - s
  {
  }

  lemma ShiftOneAt(x: int, s: bv8)
    requires 0 <= x < 32 && s as int == x
    ensures ShiftOne(x) == 1 << s
  {
    BitsRoundTrip(s);
    assert x % 32 == x;
  }

  lemma LowBitsAt(k: int, t: bv8)
    requires 0 < k < 32 && t as int == 32 - k
    ensures LowBits(k) == AllBits >> t
  {
    BitsRoundTrip(t);
  }

  lemma BitSetAt(w: bv32, b: int, s: bv8)
    requires 0 <= b < 32 && s as int == b
    ensures BitSet(w, b) <==> (w >> s) & 1 == 1
  {
    BitsRoundTrip(s);
  }

  lemma ShiftedOnesStep(s: bv8)
    requires 0 < s < 32
    ensures (AllBits >> (32 - s)) | (1 << s) == AllBits >> (31 - s)
  {
  }

  lemma ShiftedOnesBits(t: bv8, s: bv8)
    requires 0 < t < 32 && s < 32
    ensures ((AllBits >> t) >> s) & 1 == 1 <==> s < 32 - t
  {
  }

  lemma ShiftedOnesClosedForm(s: bv8)
    requires 0 < s < 32
    ensures AllBits >> (32 - s) == (1 << s) - 1
  {
  }

  lemma ShiftedOnesNest(t: bv8, t': bv8)
    requires 0 < t' <= t < 32
    ensures (AllBits >> t) & (AllBits >> t') == AllBits >> t
  {
  }

  lemma OrAllBits(y: bv32)
    ensures AllBits | y == AllBits
  {
  }

  lemma LowBitsStepBelow(x: int)
    requires 0 < x < 32
    ensures LowBits(x) | ShiftOne(x) == LowBits(x + 1)
  {
    var s := SmallBits(x);
    ShiftOneAt(x, s);
    var t := SmallBits(32 - x);
    LowBitsAt(x, t);
    MinusBits32(s, t);
    if x < 31 {
      var t' := SmallBits(31 - x);
      LowBitsAt(x + 1, t');
      MinusBits31(s, t');
    }
    ShiftedOnesStep(s);
  }

  /**
   * One turn of the mask-building loop of `setLOD`: or-ing `1 << x` into the
   * mask of level x yields the mask of level x + 1.
   */
  lemma LowBitsStep(x: int)
    requires x >= 0
    ensures LowBits(x) | ShiftOne(x) == LowBits(x + 1)
  {
    if x == 0 {
    } else if x < 32 {
      LowBitsStepBelow(x);
    } else {
      OrAllBits(ShiftOne(x));
    }
  }

  lemma LowBitsExactlyBelow(k: int, b: int)
    requires 0 <= b < 32 && 0 < k < 32
    ensures BitSet(LowBits(k), b) <==> b < k
  {
    var s := SmallBits(b);
    BitSetAt(LowBits(k), b, s);
    var t := SmallBits(32 - k);
    LowBitsAt(k, t);
    ShiftedOnesBits(t, s);
  }

  lemma LowBitsExactlyOutside(k: int, b: int)
    requires 0 <= b < 32 && (k <= 0 || k >= 32)
    ensures BitSet(LowBits(k), b) <==> b < k
  {
  }

  /** The mask of level k has bit b set exactly when b < k. */
  lemma LowBitsExactly(k: int, b: int)
    requires 0 <= b < 32
    ensures BitSet(LowBits(k), b) <==> b < k
  {
    if 0 < k < 32 {
      LowBitsExactlyBelow(k, b);
    } else {
      LowBitsExactlyOutside(k, b);
    }
  }

  /** Below 32 the mask of level k is 2^k - 1, that is `(1 << k) - 1`. */
  lemma LowBitsClosedForm(k: int)
    requires 0 <= k < 32
    ensures LowBits(k) == ShiftOne(k) - 1
  {
    if k > 0 {
      var s := SmallBits(k);
      ShiftOneAt(k, s);
      var t := SmallBits(32 - k);
      LowBitsAt(k, t);
      MinusBits32(s, t);
      ShiftedOnesClosedForm(s);
    }
  }

  lemma LowBitsGrowBelow(k: int, k': int)
    requires 0 < k <= k' < 32
    ensures LowBits(k) & LowBits(k') == LowBits(k)
  {
    var t := SmallBits(32 - k);
    var t' := SmallBits(32 - k');
    LowBitsAt(k, t);
    LowBitsAt(k', t');
    BitsOrder(0, t');
    BitsOrder(t', t);
    BitsOrder(t, 32);
    ShiftedOnesNest(t, t');
  }

  lemma AndAllBits(y: bv32)
    ensures y & AllBits == y
  {
  }

  /** A lower level's mask is contained in a higher level's. */
  lemma LowBitsGrow(k: int, k': int)
    requires k <= k'
    ensures LowBits(k) & LowBits(k') == LowBits(k)
  {
    if k <= 0 {
    } else if k' < 32 {
      LowBitsGrowBelow(k, k');
    } else {
      AndAllBits(LowBits(k));
    }
  }

  /** One step of `setLOD`'s loop, `mask |= (1 << x)`, taking level x to level x + 1. */
  method SetBit(mask: bv32, x: int) returns (r: bv32)
    requires 0 <= x && mask == LowBits(x)
    ensures r == LowBits(x + 1)
  {
    LowBitsStep(x);
    r := mask | ShiftOne(x);
  }

  /** Where `setLOD`'s loop stops: at k, or at 0 when k is not positive. */
  lemma LowBitsBelowOne(x: int, k: int)
    requires 0 <= x && (k > 0 ==> x == k) && (k <= 0 ==> x == 0)
    ensures LowBits(x) == LowBits(k)
  {
  }

  /** The mask-building loop of `setLOD`: bits 0 .. k-1 or-ed in one at a time, from the empty mask. */
  method LevelMask(k: int) returns (mask: bv32)
    ensures mask == LowBits(k)
  {
    mask := 0;
    var x := 0;
    while x < k
      invariant 0 <= x && (k > 0 ==> x <= k) && (k <= 0 ==> x == 0)
      invariant mask == LowBits(x)
    {
      mask := SetBit(mask, x);
      x := x + 1;
    }
    LowBitsBelowOne(x, k);
  }

  /** Java's `c &= ~mask` on one code. */
  function Mask(c: bv32, mask: bv32): (r: bv32)
  {
    c & !mask
  }

  /** Masking clears the mask bits and keeps every other bit. */
  lemma MaskClearsOnlyMaskBits(c: bv32, mask: bv32)
    ensures Mask(c, mask) & mask == 0
    ensures Mask(c, mask) | (c & mask) == c
  {
  }

  /** Masking twice with one mask is masking once. */
  lemma MaskIdempotent(c: bv32, mask: bv32)
    ensures Mask(Mask(c, mask), mask) == Mask(c, mask)
  {
  }

  lemma MaskCoarsensBy(c1: bv32, c2: bv32, m: bv32, m': bv32)
    requires m & m' == m
    requires Mask(c1, m) == Mask(c2, m)
    ensures Mask(c1, m') == Mask(c2, m')
  {
  }

  /** Codes that agree after masking at level k agree at every level k' >= k. */
  lemma MaskCoarsens(c1: bv32, c2: bv32, k: int, k': int)
    requires k <= k'
    requires Mask(c1, LowBits(k)) == Mask(c2, LowBits(k))
    ensures Mask(c1, LowBits(k')) == Mask(c2, LowBits(k'))
  {
    LowBitsGrow(k, k');
    MaskCoarsensBy(c1, c2, LowBits(k), LowBits(k'));
  }

  /** The first n codes masked, the rest kept: what the loop of `getHashLOD` leaves in the array. */
  function MaskPrefix(codes: seq<bv32>, mask: bv32, n: int): (r: seq<bv32>)
  {
    seq(|codes|, i requires 0 <= i < |codes| => if i < n then Mask(codes[i], mask) else codes[i])
  }

  /** Every code masked. */
  function MaskCodes(codes: seq<bv32>, mask: bv32): (r: seq<bv32>)
  {
    MaskPrefix(codes, mask, |codes|)
  }

  /** m is c with the bits of mask cleared and every other bit kept. */
  predicate ClearedBy(m: bv32, c: bv32, mask: bv32)
  {
    m & mask == 0 && m | (c & mask) == c
  }

  /** Each masked code has the mask bits clear and the other bits of the original. */
  lemma MaskCodesMeaning(codes: seq<bv32>, mask: bv32)
    ensures |MaskCodes(codes, mask)| == |codes|
    ensures forall i :: 0 <= i < |codes| ==> ClearedBy(MaskCodes(codes, mask)[i], codes[i], mask)
  {
    forall i | 0 <= i < |codes|
      ensures ClearedBy(MaskCodes(codes, mask)[i], codes[i], mask)
    {
      MaskClearsOnlyMaskBits(codes[i], mask);
    }
  }

  /** Masking a whole hash twice is masking it once. */
  lemma MaskCodesIdempotent(codes: seq<bv32>, mask: bv32)
    ensures MaskCodes(MaskCodes(codes, mask), mask) == MaskCodes(codes, mask)
  {
    forall i | 0 <= i < |codes|
      ensures MaskCodes(MaskCodes(codes, mask), mask)[i] == MaskCodes(codes, mask)[i]
    {
      MaskIdempotent(codes[i], mask);
    }
  }

  /** Hashes that collide at level k collide at every level k' >= k. */
  lemma MaskCodesCoarsen(a: seq<bv32>, b: seq<bv32>, k: int, k': int)
    requires k <= k'
    requires MaskCodes(a, LowBits(k)) == MaskCodes(b, LowBits(k))
    ensures MaskCodes(a, LowBits(k')) == MaskCodes(b, LowBits(k'))
  {
    assert |a| == |MaskCodes(a, LowBits(k))| == |b|;
    forall i | 0 <= i < |a|
      ensures MaskCodes(a, LowBits(k'))[i] == MaskCodes(b, LowBits(k'))[i]
    {
      assert MaskCodes(a, LowBits(k))[i] == MaskCodes(b, LowBits(k))[i];
      MaskCoarsens(a[i], b[i], k, k');
    }
  }
}
