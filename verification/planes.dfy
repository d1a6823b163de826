/**
 * Carry arithmetic on one plane of an interleaved word. A hash keeps its
 * latitude cell on the even bits and its longitude cell on the odd bits; a
 * step in one direction adds or subtracts one on a single plane and lets the
 * carry or borrow run across the other plane's positions, which are first
 * filled with ones (for an add) so that a carry skips over them.
 *
 * The lemmas take the precision's masks as plain words: `m` is the mask of a
 * cell (the low p bits, p <= 26), `e` the same bits spread onto the even
 * positions and `o` the odd positions. `PrecisionMasks` ties them to a
 * precision p.
 */
module Planes {
  import opened Bitops

  /** A mask of the low bits of a cell at one of the precisions 1 to 26. */
  predicate CellMask(m: bv64) {
    m & (m + 1) == 0 && m <= 0x3FF_FFFF
  }

  /** `e` and `o` are the cell mask `m` spread onto the even and the odd positions. */
  predicate PlaneMasks(m: bv64, e: bv64, o: bv64) {
    CellMask(m) && e == Spread(m) && o == e << 1
  }

  /** `x` is a cell: it has no bit outside the cell mask `m`. */
  predicate Within(x: bv64, m: bv64) {
    x & m == x
  }

  /**
   * The mask words of a precision p: cell mask, even plane and odd plane.
   * Stated as an implication rather than with a requires: callers then only
   * instantiate it, and the bit-vector proofs that use it stay small.
   */
  lemma PrecisionMasks(p: bv8)
    ensures 1 <= p <= 26 ==> PlaneMasks(Mask(p), EvenBits(p), OddBits(p))
  {
  }

  /** East: the odd plane gains one, the even plane is filled so the carry crosses it. */
  lemma OddPlaneInc(b: bv64, m: bv64, e: bv64, o: bv64)
    requires CellMask(m) && e == Spread(m) && o == e << 1 && b & m == b
    ensures ((Spread(b) << 1) + (e + 1)) & o == Spread((b + 1) & m) << 1
  {
  }

  /** West: the odd plane loses one; the borrow sets the even positions it crosses. */
  lemma OddPlaneDec(b: bv64, m: bv64, e: bv64, o: bv64)
    requires CellMask(m) && e == Spread(m) && o == e << 1 && b & m == b
    ensures ((((Spread(b) << 1) | e) - e) - 1) & o == Spread((b - 1) & m) << 1
  {
  }

  /** North: the even plane gains one, the odd plane is filled so the carry crosses it. */
  lemma EvenPlaneInc(b: bv64, m: bv64, e: bv64, o: bv64)
    requires CellMask(m) && e == Spread(m) && o == e << 1 && b & m == b
    ensures (Spread(b) + (o + 1)) & e == Spread((b + 1) & m)
  {
  }

  /** South: the even plane loses one; the borrow sets the odd positions it crosses. */
  lemma EvenPlaneDec(b: bv64, m: bv64, e: bv64, o: bv64)
    requires CellMask(m) && e == Spread(m) && o == e << 1 && b & m == b
    ensures (((Spread(b) | o) - o) - 1) & e == Spread((b - 1) & m)
  {
  }

  /** A spread word has no odd bits. */
  lemma SpreadEven(x: bv64)
    ensures Spread(x) & S7 == 0
  {
  }
}
