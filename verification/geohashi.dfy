/**
 * Numeric geohashes: a hash is a 64-bit word holding the Morton interleaving
 * of a latitude cell (even bits) and a longitude cell (odd bits) on a grid of
 * 2^prec by 2^prec cells, together with that precision.
 */
module Geohashi {
  import opened Bitops
  import opened Planes

  const PrecisionMin: bv8 := 1
  const PrecisionMax: bv8 := 26

  datatype Hash = Hash(bits: bv64, prec: bv8)

  datatype Error = InvalidPrecision

  datatype Result<T> = Success(value: T) | Failure(error: Error)

  predicate ValidPrecision(prec: bv8) {
    PrecisionMin <= prec <= PrecisionMax
  }

  /** A well-formed hash: a legal precision and no bits at or above 2 * prec. */
  predicate Valid(h: Hash) {
    ValidPrecision(h.prec) && Below(h.bits, 2 * h.prec)
  }

  /** The latitude and longitude cells of a hash. */
  function Cells(h: Hash): (bv64, bv64) {
    Deinterleave64(h.bits)
  }

  // ----------------------------------------------------------- construction

  /** A hash with the given value and precision, refused unless 1 <= prec <= 26. */
  function NewWithPrecision(value: bv64, prec: bv8): (r: Result<Hash>)
    ensures r.Failure? <==> !ValidPrecision(prec)
    ensures r.Success? ==> r.value.bits == value && r.value.prec == prec
  {
    if prec < PrecisionMin || prec > PrecisionMax then Failure(InvalidPrecision)
    else Success(Hash(value, prec))
  }

  /** A hash with the given value at the maximum precision. */
  function New(value: bv64): (h: Hash)
    ensures h.bits == value && h.prec == PrecisionMax
  {
    NewWithPrecision(value, PrecisionMax).value
  }

  /**
   * The integer half of EncodeWithPrecision: the grid cells of a coordinate,
   * interleaved, at a checked precision.
   */
  function EncodeWithPrecision(latCell: bv64, lonCell: bv64, prec: bv8): (r: Result<Hash>)
    ensures r.Failure? <==> !ValidPrecision(prec)
    ensures r.Success? ==> r.value.prec == prec
  {
    if prec < PrecisionMin || prec > PrecisionMax then Failure(InvalidPrecision)
    else Success(Hash(Interleave64(latCell, lonCell), prec))
  }

  /** The integer half of Encode: the cells at the maximum precision. */
  function Encode(latCell: bv64, lonCell: bv64): (h: Hash)
    ensures h.prec == PrecisionMax
  {
    EncodeWithPrecision(latCell, lonCell, PrecisionMax).value
  }

  // ------------------------------------------------------------ zooming

  /**
   * The enclosing cell one level up. The precision is lowered with 8-bit
   * wrap-around before it is checked, so only precision 1 is refused.
   */
  function Parent(h: Hash): (r: Result<Hash>)
    ensures r.Failure? <==> h.prec == 1
    ensures r.Success? ==> r.value.prec == h.prec - 1
  {
    var prec := h.prec - 1;
    if prec < PrecisionMin then Failure(InvalidPrecision)
    else Success(Hash(DropPair(h.bits), prec))
  }

  /**
   * The four cells one level down, in the order south-west, north-west,
   * south-east, north-east; none beyond the maximum precision. The precision
   * is raised with 8-bit wrap-around before it is checked.
   */
  function Children(h: Hash): (r: seq<Hash>)
    ensures |r| == 0 || |r| == 4
    ensures |r| == 0 <==> PrecisionMax <= h.prec < 255
    ensures forall c | c in r :: c.prec == h.prec + 1
  {
    if h.prec + 1 > PrecisionMax then []
    else [Child(h, 0), Child(h, 1), Child(h, 2), Child(h, 3)]
  }

  /** The child with two-bit index k: the hash shifted up one level with k in the freed bits. */
  function Child(h: Hash, k: bv64): Hash {
    Hash(PushPair(h.bits, k), h.prec + 1)
  }

  // --------------------------------------------------------------- movement

  /**
   * The body of the MoveX loop with its two masks as parameters: the fill word
   * `zz` covers the latitude positions that a carry has to cross, `keep` is the
   * longitude plane that survives.
   */
  function ShiftX(bits: bv64, zz: bv64, keep: bv64, east: bool): bv64 {
    var x := bits & S7;
    var y := bits & S1;
    var x := if east then x + (zz + 1) else ((x | zz) - zz) - 1;
    (x & keep) | y
  }

  /** The body of the MoveY loop, the mirror image of ShiftX. */
  function ShiftY(bits: bv64, zz: bv64, keep: bv64, north: bool): bv64 {
    var x := bits & S7;
    var y := bits & S1;
    var y := if north then y + (zz + 1) else ((y | zz) - zz) - 1;
    x | (y & keep)
  }

  /** One step east or west at precision prec. */
  function StepX(bits: bv64, prec: bv8, east: bool): bv64 {
    var shift := 64 - prec * 2;
    ShiftX(bits, Shr(S1, shift), Shr(S7, shift), east)
  }

  /** One step north or south at precision prec. */
  function StepY(bits: bv64, prec: bv8, north: bool): bv64 {
    var shift := 64 - prec * 2;
    ShiftY(bits, Shr(S7, shift), Shr(S1, shift), north)
  }

  /** Applies `count` steps east or west: the loop of MoveX. */
  function RepeatX(bits: bv64, prec: bv8, east: bool, count: nat): bv64
    decreases count
  {
    if count == 0 then bits else StepX(RepeatX(bits, prec, east, count - 1), prec, east)
  }

  /** Applies `count` steps north or south: the loop of MoveY. */
  function RepeatY(bits: bv64, prec: bv8, north: bool, count: nat): bv64
    decreases count
  {
    if count == 0 then bits else StepY(RepeatY(bits, prec, north, count - 1), prec, north)
  }

  /** Go's `int` on a 64-bit platform. */
  newtype int64 = x: int | -0x8000_0000_0000_0000 <= x < 0x8000_0000_0000_0000

  const MinInt64: int64 := -0x8000_0000_0000_0000

  /**
   * Two's-complement negation of a 64-bit int: the result is -n modulo 2^64,
   * so the most negative value is its own negation.
   */
  function Negate(n: int64): (r: int64)
    ensures (r as int + n as int) % 0x1_0000_0000_0000_0000 == 0
    ensures n != MinInt64 ==> r as int == -(n as int)
    ensures n == MinInt64 ==> r == MinInt64
  {
    if n == MinInt64 then n else -n
  }

  /**
   * The loop count of MoveX and MoveY: the magnitude of n, except that the
   * most negative int stays negative after negation and runs no step at all.
   */
  function Steps(n: int64): (r: nat)
    ensures n >= 0 ==> r == n as int
    ensures n < 0 && n != MinInt64 ==> r == -(n as int)
    ensures n == MinInt64 ==> r == 0
  {
    var m := if n > 0 then n else Negate(n);
    if m > 0 then m as nat else 0
  }

  /** Moves n cells east (n > 0) or west (n < 0). */
  function MoveX(h: Hash, n: int64): (r: Hash)
    ensures r.prec == h.prec
    ensures n == 0 ==> r == h
  {
    if n == 0 then h
    else Hash(RepeatX(h.bits, h.prec, n > 0, Steps(n)), h.prec)
  }

  /** Moves n cells north (n > 0) or south (n < 0). */
  function MoveY(h: Hash, n: int64): (r: Hash)
    ensures r.prec == h.prec
    ensures n == 0 ==> r == h
  {
    if n == 0 then h
    else Hash(RepeatY(h.bits, h.prec, n > 0, Steps(n)), h.prec)
  }
}
