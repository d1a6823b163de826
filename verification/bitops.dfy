/**
 * Morton (Z-order) bit interleaving of two 32-bit values into one 64-bit word,
 * written as the branch-free shift/mask sieve of bitops.go, together with the
 * bit-level specification it meets and its two round-trip laws.
 */
module Bitops {

  /** Sieve constants: alternating single bits, pairs, nibbles, bytes, halves. */
  const S1: bv64 := 0x5555_5555_5555_5555
  const S2: bv64 := 0x3333_3333_3333_3333
  const S3: bv64 := 0x0F0F_0F0F_0F0F_0F0F
  const S4: bv64 := 0x00FF_00FF_00FF_00FF
  const S5: bv64 := 0x0000_FFFF_0000_FFFF
  const S6: bv64 := 0x0000_0000_FFFF_FFFF
  const S7: bv64 := 0xAAAA_AAAA_AAAA_AAAA

  /**
   * Logical right shift with the semantics of a shift count of any size:
   * shifting a 64-bit word by 64 or more places yields zero.
   */
  function Shr(x: bv64, s: bv8): bv64 {
    if s >= 64 then 0 else x >> s
  }

  /** The word whose low `w` bits are set. */
  function Mask(w: bv8): bv64 {
    if w >= 64 then 0xFFFF_FFFF_FFFF_FFFF else (1 << w) - 1
  }

  /** `x` is below 2^w: no bit at or above position w is set. */
  predicate Below(x: bv64, w: bv8) {
    x & Mask(w) == x
  }

  /** A value below 2^v is below every larger power 2^w. */
  lemma BelowWider(x: bv64, v: bv8, w: bv8)
    requires v <= w <= 64 && Below(x, v)
    ensures Below(x, w)
  {
  }

  /** Bit `i` of `w`. */
  predicate BitAt(w: bv64, i: bv8) {
    Shr(w, i) & 1 == 1
  }

  /** The five spreading sieve steps, applied to both inputs in parallel. */
  function Interleave64(x: bv64, y: bv64): bv64 {
    var x := (x | (x << 16)) & S5;
    var y := (y | (y << 16)) & S5;

    var x := (x | (x << 8)) & S4;
    var y := (y | (y << 8)) & S4;

    var x := (x | (x << 4)) & S3;
    var y := (y | (y << 4)) & S3;

    var x := (x | (x << 2)) & S2;
    var y := (y | (y << 2)) & S2;

    var x := (x | (x << 1)) & S1;
    var y := (y | (y << 1)) & S1;

    x | (y << 1)
  }

  /** The inverse sieve: even bits go to the first result, odd bits to the second. */
  function Deinterleave64(n: bv64): (bv64, bv64) {
    var x := n;
    var y := n >> 1;

    var x := (x | (x >> 0)) & S1;
    var y := (y | (y >> 0)) & S1;

    var x := (x | (x >> 1)) & S2;
    var y := (y | (y >> 1)) & S2;

    var x := (x | (x >> 2)) & S3;
    var y := (y | (y >> 2)) & S3;

    var x := (x | (x >> 4)) & S4;
    var y := (y | (y >> 4)) & S4;

    var x := (x | (x >> 8)) & S5;
    var y := (y | (y >> 8)) & S5;

    var x := (x | (x >> 16)) & S6;
    var y := (y | (y >> 16)) & S6;

    (x, y)
  }

  /** One input spread onto the even bit positions (the `x` half of the sieve). */
  function Spread(x: bv64): bv64 {
    var x := (x | (x << 16)) & S5;
    var x := (x | (x << 8)) & S4;
    var x := (x | (x << 4)) & S3;
    var x := (x | (x << 2)) & S2;
    (x | (x << 1)) & S1
  }

  /** Bit 2i of the interleaving is bit i of x, bit 2i+1 is bit i of y. */
  lemma InterleaveBits(x: bv64, y: bv64, i: bv8)
    requires Below(x, 32) && Below(y, 32) && i < 32
    ensures BitAt(Interleave64(x, y), 2 * i) == BitAt(x, i)
    ensures BitAt(Interleave64(x, y), 2 * i + 1) == BitAt(y, i)
  {
  }

  /** Bit i of the first half is bit 2i of n, bit i of the second half is bit 2i+1. */
  lemma DeinterleaveBits(n: bv64, i: bv8)
    requires i < 32
    ensures BitAt(Deinterleave64(n).0, i) == BitAt(n, 2 * i)
    ensures BitAt(Deinterleave64(n).1, i) == BitAt(n, 2 * i + 1)
  {
  }

  /** Both halves of a deinterleaving fit in 32 bits. */
  lemma DeinterleaveFits(n: bv64)
    ensures Below(Deinterleave64(n).0, 32) && Below(Deinterleave64(n).1, 32)
  {
  }

  lemma DeinterleaveInterleave(x: bv64, y: bv64)
    requires Below(x, 32) && Below(y, 32)
    ensures Deinterleave64(Interleave64(x, y)) == (x, y)
  {
  }

  lemma InterleaveDeinterleave(n: bv64)
    ensures Interleave64(Deinterleave64(n).0, Deinterleave64(n).1) == n
  {
  }

  /** The parallel sieve is the x spread OR-ed with the y spread moved up one bit. */
  lemma InterleaveSpread(x: bv64, y: bv64)
    ensures Interleave64(x, y) == Spread(x) | (Spread(y) << 1)
  {
  }

  /** x supplies only even bits, y only odd bits, for any two words. */
  lemma InterleavePlanes(x: bv64, y: bv64)
    ensures Interleave64(x, y) & S1 == Spread(x)
    ensures Interleave64(x, y) & S7 == Spread(y) << 1
  {
  }

  /** The even bits below 2p, for p <= 32: the mask of a latitude plane at precision p. */
  function EvenBits(p: bv8): bv64 {
    Shr(S1, 64 - p * 2)
  }

  /** The odd bits below 2p, for p <= 32: the mask of a longitude plane at precision p. */
  function OddBits(p: bv8): bv64 {
    Shr(S7, 64 - p * 2)
  }

  lemma SpreadWithin(x: bv64, p: bv8)
    requires p < 32 && Below(x, p)
    ensures Spread(x) & EvenBits(p) == Spread(x)
    ensures (Spread(x) << 1) & OddBits(p) == Spread(x) << 1
  {
  }

  lemma EvenOddBits(p: bv8)
    requires p < 32
    ensures EvenBits(p) | OddBits(p) == Mask(2 * p)
  {
  }

  /**
   * A union of two masked words lies within the union of the masks. Stated
   * as an implication rather than with a requires, so that the caller does
   * not have to discharge the bit-vector premises as a separate goal.
   */
  lemma OrWithin(i: bv64, a: bv64, b: bv64, m: bv64, n: bv64, k: bv64)
    ensures i == a | b && a & m == a && b & n == b && m | n == k ==> i & k == i
  {
  }

  /** Two values below 2^p interleave to a value below 2^(2p). */
  lemma InterleaveBound(x: bv64, y: bv64, p: bv8)
    requires p < 32 && Below(x, p) && Below(y, p)
    ensures Below(Interleave64(x, y), 2 * p)
  {
    InterleaveSpread(x, y);
    SpreadWithin(x, p);
    SpreadWithin(y, p);
    EvenOddBits(p);
    OrWithin(Interleave64(x, y), Spread(x), Spread(y) << 1, EvenBits(p), OddBits(p), Mask(2 * p));
  }

  /** A word below 2^(2p) deinterleaves into two values below 2^p. */
  lemma DeinterleaveBound(n: bv64, p: bv8)
    requires p < 32 && Below(n, 2 * p)
    ensures Below(Deinterleave64(n).0, p) && Below(Deinterleave64(n).1, p)
  {
  }

  // ------------------------------------------------------------ bit pairs

  /** The word without its lowest pair of bits. */
  function DropPair(n: bv64): bv64 {
    n >> 2
  }

  /** The word with the pair k (0 to 3) put below its bits. */
  function PushPair(n: bv64, k: bv64): bv64 {
    (n << 2) | k
  }

  /** The value without its lowest bit. */
  function DropBit(x: bv64): bv64 {
    x >> 1
  }

  /** The value with the bit b (0 or 1) put below its bits. */
  function PushBit(x: bv64, b: bv64): bv64 {
    (x << 1) | b
  }

  /** Dropping the lowest interleaved pair drops the lowest bit of both coordinates. */
  lemma DeinterleaveDropPair(n: bv64)
    ensures Deinterleave64(DropPair(n)) == (DropBit(Deinterleave64(n).0), DropBit(Deinterleave64(n).1))
  {
  }

  /** Dropping the lowest bit of both inputs drops the lowest pair of the interleaving. */
  lemma InterleaveDropPair(x: bv64, y: bv64)
    requires Below(x, 32) && Below(y, 32)
    ensures Interleave64(DropBit(x), DropBit(y)) == DropPair(Interleave64(x, y))
  {
  }

  /**
   * Pushing the pair of a first-coordinate bit a and a second-coordinate bit
   * b onto a word of at most 62 bits pushes a onto the first coordinate and b
   * onto the second.
   */
  lemma DeinterleavePushPair(n: bv64, a: bv64, b: bv64)
    requires Below(n, 62) && a < 2 && b < 2
    ensures Deinterleave64(PushPair(n, a | (b << 1))) == (PushBit(Deinterleave64(n).0, a), PushBit(Deinterleave64(n).1, b))
  {
  }

  /** The vectors of the interleaving test table. */
  lemma InterleaveVectors()
    ensures Interleave64(0, 0) == 0
    ensures Interleave64(1, 0) == 1
    ensures Interleave64(0, 1) == 2
    ensures Interleave64(1, 1) == 3
    ensures Interleave64(2, 2) == 12
    ensures Interleave64(345, 456) == 242113
    ensures Interleave64(28116097, 17974564) == 921773536331809
    ensures Deinterleave64(0) == (0, 0)
    ensures Deinterleave64(1) == (1, 0)
    ensures Deinterleave64(2) == (0, 1)
    ensures Deinterleave64(3) == (1, 1)
    ensures Deinterleave64(12) == (2, 2)
    ensures Deinterleave64(242113) == (345, 456)
    ensures Deinterleave64(921773536331809) == (28116097, 17974564)
  {
  }
}
