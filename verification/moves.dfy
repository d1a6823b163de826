/**
 * MoveX and MoveY on valid hashes: a move by n changes one cell only, by n
 * cells around the ring of 2^prec cells, and moves undo and compose the way
 * steps on a ring do.
 */
module Moves {
  import opened Bitops
  import opened Planes
  import opened Geohashi
  import opened Torus
  import opened Grid

  /**
   * The cell after the loop of a move by n at precision p: Steps(n) single
   * moves, up for n > 0 and down otherwise.
   */
  function Moved(c: bv64, p: bv8, n: int64): bv64 {
    if n > 0 then UpBy(c, Mask(p), Steps(n)) else DownBy(c, Mask(p), Steps(n))
  }

  lemma RepeatXCells(lat: bv64, lon: bv64, p: bv8, n: int64)
    requires 1 <= p <= 26 && Below(lat, p) && Below(lon, p)
    ensures RepeatX(Interleave64(lat, lon), p, n > 0, Steps(n)) == Interleave64(lat, Moved(lon, p, n))
    ensures Below(Moved(lon, p, n), p)
  {
    RepeatBelow(lon, p, Steps(n));
    if n > 0 {
      RepeatEastCells(lat, lon, p, Steps(n));
    } else {
      RepeatWestCells(lat, lon, p, Steps(n));
    }
  }

  lemma RepeatYCells(lat: bv64, lon: bv64, p: bv8, n: int64)
    requires 1 <= p <= 26 && Below(lat, p) && Below(lon, p)
    ensures RepeatY(Interleave64(lat, lon), p, n > 0, Steps(n)) == Interleave64(Moved(lat, p, n), lon)
    ensures Below(Moved(lat, p, n), p)
  {
    RepeatBelow(lat, p, Steps(n));
    if n > 0 {
      RepeatNorthCells(lat, lon, p, Steps(n));
    } else {
      RepeatSouthCells(lat, lon, p, Steps(n));
    }
  }

  /** A move east or west re-interleaves the latitude cell with the moved longitude cell. */
  lemma MoveXHash(h: Hash, n: int64)
    requires Valid(h)
    ensures MoveX(h, n) == Hash(Interleave64(Cells(h).0, Moved(Cells(h).1, h.prec, n)), h.prec)
    ensures Below(Moved(Cells(h).1, h.prec, n), h.prec)
  {
    CellsOf(h);
    RepeatXCells(Cells(h).0, Cells(h).1, h.prec, n);
  }

  /** A move north or south re-interleaves the moved latitude cell with the longitude cell. */
  lemma MoveYHash(h: Hash, n: int64)
    requires Valid(h)
    ensures MoveY(h, n) == Hash(Interleave64(Moved(Cells(h).0, h.prec, n), Cells(h).1), h.prec)
    ensures Below(Moved(Cells(h).0, h.prec, n), h.prec)
  {
    CellsOf(h);
    RepeatYCells(Cells(h).0, Cells(h).1, h.prec, n);
  }

  /**
   * A move east or west keeps the hash valid and its latitude cell, and moves
   * the longitude cell n steps around the ring.
   */
  lemma MoveXCells(h: Hash, n: int64)
    requires Valid(h)
    ensures Valid(MoveX(h, n))
    ensures Cells(MoveX(h, n)) == (Cells(h).0, Moved(Cells(h).1, h.prec, n))
  {
    MoveXHash(h, n);
    CellsOf(h);
    OfCells(Cells(h).0, Moved(Cells(h).1, h.prec, n), h.prec);
  }

  /**
   * A move north or south keeps the hash valid and its longitude cell, and
   * moves the latitude cell n steps around the ring.
   */
  lemma MoveYCells(h: Hash, n: int64)
    requires Valid(h)
    ensures Valid(MoveY(h, n))
    ensures Cells(MoveY(h, n)) == (Moved(Cells(h).0, h.prec, n), Cells(h).1)
  {
    MoveYHash(h, n);
    CellsOf(h);
    OfCells(Moved(Cells(h).0, h.prec, n), Cells(h).1, h.prec);
  }

  // ------------------------------------------------------------ closed form

  /**
   * The loop count of a move back is the loop count of the move, including
   * the most negative count, which is its own negation.
   */
  lemma StepsNegate(n: int64)
    ensures Steps(Negate(n)) == Steps(n)
  {
  }

  /** A moved cell is the cell plus or minus the count, modulo 2^p. */
  lemma MovedClosed(c: bv64, p: bv8, n: int64)
    requires ValidPrecision(p) && Below(c, p)
    ensures n > 0 ==> Moved(c, p, n) == Add(c, Word(Steps(n)), Mask(p))
    ensures n <= 0 ==> Moved(c, p, n) == Sub(c, Word(Steps(n)), Mask(p))
  {
    PrecisionMasks(p);
    UpByAdd(c, Mask(p), Steps(n));
    DownBySub(c, Mask(p), Steps(n));
  }

  /** Moving by half of the 64-bit range is no move at all on a ring of 2^p cells. */
  lemma RingHalfTurn(c: bv64, p: bv8)
    requires ValidPrecision(p) && Below(c, p)
    ensures Sub(c, 0x8000_0000_0000_0000, Mask(p)) == c
    ensures Add(c, 0x8000_0000_0000_0000, Mask(p)) == c
  {
    PrecisionMasks(p);
  }

  /** MoveX and MoveY by the most negative int run no step and return the hash unchanged. */
  lemma MoveMinInt(h: Hash)
    ensures MoveX(h, MinInt64) == h && MoveY(h, MinInt64) == h
  {
  }

  // ---------------------------------------------------------------- inverse

  lemma MovedUpBack(c: bv64, p: bv8, n: int64)
    requires ValidPrecision(p) && Below(c, p) && n > 0
    ensures Moved(Moved(c, p, n), p, Negate(n)) == c
  {
    PrecisionMasks(p);
    StepsNegate(n);
    DownByUpBy(c, Mask(p), Steps(n));
  }

  lemma MovedDownBack(c: bv64, p: bv8, n: int64)
    requires ValidPrecision(p) && Below(c, p) && n < 0 && n != MinInt64
    ensures Moved(Moved(c, p, n), p, Negate(n)) == c
  {
    PrecisionMasks(p);
    StepsNegate(n);
    UpByDownBy(c, Mask(p), Steps(n));
  }

  /** A cell moved by n and then by -n is back where it started. */
  lemma MovedInverse(c: bv64, p: bv8, n: int64)
    requires ValidPrecision(p) && Below(c, p)
    ensures Moved(Moved(c, p, n), p, Negate(n)) == c
  {
    if n > 0 {
      MovedUpBack(c, p, n);
    } else if n < 0 && n != MinInt64 {
      MovedDownBack(c, p, n);
    }
  }

  /**
   * A move east by n undoes a move west by n, and the other way round; the
   * most negative count is its own negation and moves nowhere either way.
   */
  lemma MoveXInverse(h: Hash, n: int64)
    requires Valid(h)
    ensures MoveX(MoveX(h, n), Negate(n)) == h
  {
    if n == MinInt64 {
      MoveMinInt(h);
    } else {
      var g := MoveX(h, n);
      MoveXCells(h, n);
      MoveXCells(g, Negate(n));
      CellsOf(h);
      MovedInverse(Cells(h).1, h.prec, n);
      CellsDetermine(MoveX(g, Negate(n)), h);
    }
  }

  /**
   * A move north by n undoes a move south by n, and the other way round; the
   * most negative count is its own negation and moves nowhere either way.
   */
  lemma MoveYInverse(h: Hash, n: int64)
    requires Valid(h)
    ensures MoveY(MoveY(h, n), Negate(n)) == h
  {
    if n == MinInt64 {
      MoveMinInt(h);
    } else {
      var g := MoveY(h, n);
      MoveYCells(h, n);
      MoveYCells(g, Negate(n));
      CellsOf(h);
      MovedInverse(Cells(h).0, h.prec, n);
      CellsDetermine(MoveY(g, Negate(n)), h);
    }
  }

  // ------------------------------------------------------------ composition

  lemma {:induction false} RepeatXCompose(bits: bv64, p: bv8, east: bool, i: nat, j: nat)
    ensures RepeatX(RepeatX(bits, p, east, i), p, east, j) == RepeatX(bits, p, east, i + j)
  {
    if j > 0 {
      RepeatXCompose(bits, p, east, i, j - 1);
    }
  }

  lemma {:induction false} RepeatYCompose(bits: bv64, p: bv8, north: bool, i: nat, j: nat)
    ensures RepeatY(RepeatY(bits, p, north, i), p, north, j) == RepeatY(bits, p, north, i + j)
  {
    if j > 0 {
      RepeatYCompose(bits, p, north, i, j - 1);
    }
  }

  /** Two counts that move the same way and whose sum is a move of its own. */
  predicate SameWay(a: int64, b: int64) {
    (a >= 0 && b >= 0 && a as int + b as int < 0x8000_0000_0000_0000)
    || (a <= 0 && b <= 0 && a as int + b as int > MinInt64 as int)
  }

  lemma StepsAdd(a: int64, b: int64)
    requires SameWay(a, b)
    ensures Steps(a + b) == Steps(a) + Steps(b)
  {
  }

  /** Two moves the same way are one move by the sum, on any hash. */
  lemma MoveXCompose(h: Hash, a: int64, b: int64)
    requires SameWay(a, b)
    ensures MoveX(MoveX(h, a), b) == MoveX(h, a + b)
  {
    if a != 0 && b != 0 {
      StepsAdd(a, b);
      RepeatXCompose(h.bits, h.prec, a > 0, Steps(a), Steps(b));
    }
  }

  /** Two moves the same way are one move by the sum, on any hash. */
  lemma MoveYCompose(h: Hash, a: int64, b: int64)
    requires SameWay(a, b)
    ensures MoveY(MoveY(h, a), b) == MoveY(h, a + b)
  {
    if a != 0 && b != 0 {
      StepsAdd(a, b);
      RepeatYCompose(h.bits, h.prec, a > 0, Steps(a), Steps(b));
    }
  }

  // ------------------------------------------------ opposite-way composition

  /** Two counts of opposite signs, neither the most negative int. */
  predicate Opposite(a: int64, b: int64) {
    (a > 0 && b < 0 && b != MinInt64) || (a < 0 && a != MinInt64 && b > 0)
  }

  /** A move up by a, then down by |b|, is one move by a + b. */
  lemma MovedUpDown(c: bv64, p: bv8, a: int64, b: int64)
    requires ValidPrecision(p) && Below(c, p) && a > 0 && b < 0 && b != MinInt64
    ensures Moved(Moved(c, p, a), p, b) == Moved(c, p, a + b)
  {
    PrecisionMasks(p);
    var m, i, j := Mask(p), Steps(a), Steps(b);
    assert Moved(Moved(c, p, a), p, b) == DownBy(UpBy(c, m, i), m, j);
    if i >= j {
      UpByThenFewer(c, m, i - j, j);
      assert Moved(c, p, a + b) == UpBy(c, m, i - j);
    } else {
      UpByThenMore(c, m, i, j);
      assert Moved(c, p, a + b) == DownBy(c, m, j - i);
    }
  }

  /** A move down by |a|, then up by b, is one move by a + b. */
  lemma MovedDownUp(c: bv64, p: bv8, a: int64, b: int64)
    requires ValidPrecision(p) && Below(c, p) && a < 0 && a != MinInt64 && b > 0
    ensures Moved(Moved(c, p, a), p, b) == Moved(c, p, a + b)
  {
    PrecisionMasks(p);
    var m, i, j := Mask(p), Steps(a), Steps(b);
    assert Moved(Moved(c, p, a), p, b) == UpBy(DownBy(c, m, i), m, j);
    if j >= i {
      DownByThenMore(c, m, i, j);
      assert Moved(c, p, a + b) == UpBy(c, m, j - i);
    } else {
      DownByThenFewer(c, m, i - j, j);
      assert Moved(c, p, a + b) == DownBy(c, m, i - j);
    }
  }

  /** Two moves of opposite signs on a cell are one move by the sum. */
  lemma MovedOpposite(c: bv64, p: bv8, a: int64, b: int64)
    requires ValidPrecision(p) && Below(c, p) && Opposite(a, b)
    ensures Moved(Moved(c, p, a), p, b) == Moved(c, p, a + b)
  {
    if a > 0 {
      MovedUpDown(c, p, a, b);
    } else {
      MovedDownUp(c, p, a, b);
    }
  }

  /** Moves east and west by counts of opposite signs are one move by the sum, on a valid hash. */
  lemma MoveXOpposite(h: Hash, a: int64, b: int64)
    requires Valid(h) && Opposite(a, b)
    ensures MoveX(MoveX(h, a), b) == MoveX(h, a + b)
  {
    var g := MoveX(h, a);
    MoveXCells(h, a);
    MoveXCells(g, b);
    MoveXCells(h, a + b);
    CellsOf(h);
    MovedOpposite(Cells(h).1, h.prec, a, b);
    CellsDetermine(MoveX(g, b), MoveX(h, a + b));
  }

  /** Moves north and south by counts of opposite signs are one move by the sum, on a valid hash. */
  lemma MoveYOpposite(h: Hash, a: int64, b: int64)
    requires Valid(h) && Opposite(a, b)
    ensures MoveY(MoveY(h, a), b) == MoveY(h, a + b)
  {
    var g := MoveY(h, a);
    MoveYCells(h, a);
    MoveYCells(g, b);
    MoveYCells(h, a + b);
    CellsOf(h);
    MovedOpposite(Cells(h).0, h.prec, a, b);
    CellsDetermine(MoveY(g, b), MoveY(h, a + b));
  }
}
