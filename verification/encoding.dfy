/**
 * The grid cell of a coordinate and what happens at the upper edge of the map.
 *
 * EncodeWithPrecision scales a coordinate to a fraction d of its range,
 * (lat - LatMin) / latScale, and truncates d * 2^prec to an integer cell.
 * The fraction is modelled as an exact real in [0, 1] (the floating-point
 * rounding is not modelled). A coordinate on the upper edge, lat == LatMax or
 * lon == LonMax, has d == 1 and lands on cell 2^prec, one past the last cell:
 * the hash it encodes to is not valid. `ClampCell` is the corrected rule that
 * maps the edge onto the last cell.
 */
module Encoding {
  import opened Bitops
  import opened Geohashi
  import opened Grid

  function Pow2(n: nat): (r: nat)
    ensures r >= 1
  {
    if n == 0 then 1 else 2 * Pow2(n - 1)
  }

  /** Powers of two multiply by adding exponents. */
  lemma {:induction false} Pow2Add(a: nat, b: nat)
    ensures Pow2(a + b) == Pow2(a) * Pow2(b)
  {
    if b > 0 {
      Pow2Add(a, b - 1);
    }
  }

  lemma Pow2Of26()
    ensures Pow2(26) == 0x400_0000
  {
    assert Pow2(5) == 32;
    Pow2Add(5, 5);
    Pow2Add(10, 10);
    Pow2Add(20, 5);
    assert Pow2(1) == 2;
    Pow2Add(25, 1);
  }

  /** The cell of the fraction d at precision p: d * 2^p truncated towards zero. */
  function GridCell(d: real, p: nat): int
    requires 0.0 <= d <= 1.0
  {
    (d * Pow2(p) as real).Floor
  }

  /** Truncation lands in [0, 2^p], and on 2^p, outside the grid, exactly at the upper edge. */
  lemma GridCellRange(d: real, p: nat)
    requires 0.0 <= d <= 1.0
    ensures 0 <= GridCell(d, p) <= Pow2(p)
    ensures GridCell(d, p) == Pow2(p) <==> d == 1.0
  {
    var g := Pow2(p) as real;
    assert 0.0 <= d * g <= g;
    if d < 1.0 {
      assert d * g < g;
    }
  }

  /** The corrected cell: the truncation, with the upper edge moved onto the last cell. */
  function ClampedGridCell(d: real, p: nat): (c: int)
    requires 0.0 <= d <= 1.0
    ensures 0 <= c < Pow2(p)
    ensures d < 1.0 ==> c == GridCell(d, p)
    ensures d == 1.0 ==> c == Pow2(p) - 1
  {
    GridCellRange(d, p);
    var c := GridCell(d, p);
    if c == Pow2(p) then c - 1 else c
  }

  // ---------------------------------------------------------- cells to hash

  /** Cells inside the grid of a valid precision encode to a valid hash with those cells. */
  lemma EncodeCells(latCell: bv64, lonCell: bv64, p: bv8)
    requires ValidPrecision(p) && Below(latCell, p) && Below(lonCell, p)
    ensures EncodeWithPrecision(latCell, lonCell, p).Success?
    ensures Valid(EncodeWithPrecision(latCell, lonCell, p).value)
    ensures Cells(EncodeWithPrecision(latCell, lonCell, p).value) == (latCell, lonCell)
  {
    OfCells(latCell, lonCell, p);
  }

  /** Encoding the cells of a valid hash at its precision gives the hash back. */
  lemma EncodeOfCells(h: Hash)
    requires Valid(h)
    ensures EncodeWithPrecision(Cells(h).0, Cells(h).1, h.prec) == Success(h)
  {
    InterleaveDeinterleave(h.bits);
  }

  // --------------------------------------------------------------- the edge

  /**
   * Both cells of a valid hash are below 2^prec. Stated as an implication
   * because EncodeEdgeInvalid uses it by contraposition, on a hash it shows
   * is not valid.
   */
  lemma ValidCells(h: Hash)
    ensures Valid(h) ==> Below(Cells(h).0, h.prec) && Below(Cells(h).1, h.prec)
  {
    if Valid(h) {
      CellsOf(h);
    }
  }

  lemma EdgeCell(p: bv8)
    requires ValidPrecision(p)
    ensures Below(Mask(p) + 1, 32) && !Below(Mask(p) + 1, p)
  {
  }

  /**
   * As written: the edge cell Mask(p) + 1 = 2^p encodes, with any longitude
   * cell, to a hash that is returned without error and is not valid.
   */
  lemma EncodeEdgeInvalid(lonCell: bv64, p: bv8)
    requires ValidPrecision(p) && Below(lonCell, p)
    ensures EncodeWithPrecision(Mask(p) + 1, lonCell, p).Success?
    ensures !Valid(EncodeWithPrecision(Mask(p) + 1, lonCell, p).value)
  {
    var h := EncodeWithPrecision(Mask(p) + 1, lonCell, p).value;
    EdgeCell(p);
    BelowWider(lonCell, p, 32);
    DeinterleaveInterleave(Mask(p) + 1, lonCell);
    ValidCells(h);
  }

  /**
   * The edge at the maximum precision 26: the upper edge truncates to cell
   * 2^26 = 0x400_0000, and that cell word, with longitude cell 0, encodes
   * without error to a hash with bit 52 set, which is not valid.
   */
  lemma EncodeEdgeVector()
    ensures GridCell(1.0, 26) == 0x400_0000
    ensures EncodeWithPrecision(0x400_0000, 0, 26) == Success(Hash(0x10_0000_0000_0000, 26))
    ensures !Valid(Hash(0x10_0000_0000_0000, 26))
  {
    Pow2Of26();
    GridCellRange(1.0, 26);
  }

  // -------------------------------------------------------------- corrected

  /** The corrected cell word: a cell past the last one is moved onto the last one. */
  function ClampCell(c: bv64, p: bv8): bv64 {
    if Below(c, p) then c else Mask(p)
  }

  /** Encoding with clamped cells, the corrected EncodeWithPrecision on cell words. */
  function EncodeClamped(latCell: bv64, lonCell: bv64, prec: bv8): Result<Hash> {
    EncodeWithPrecision(ClampCell(latCell, prec), ClampCell(lonCell, prec), prec)
  }

  /** Clamping keeps every cell of the grid and sends the edge cell to the last cell. */
  lemma ClampCellSpec(c: bv64, p: bv8)
    requires ValidPrecision(p)
    ensures Below(ClampCell(c, p), p)
    ensures Below(c, p) ==> ClampCell(c, p) == c
    ensures c == Mask(p) + 1 ==> ClampCell(c, p) == Mask(p)
  {
    EdgeCell(p);
  }

  /**
   * Corrected: at a valid precision every pair of cell words, the edge
   * included, encodes to a valid hash whose cells are the clamped cells.
   */
  lemma EncodeClampedValid(latCell: bv64, lonCell: bv64, p: bv8)
    requires ValidPrecision(p)
    ensures EncodeClamped(latCell, lonCell, p).Success?
    ensures Valid(EncodeClamped(latCell, lonCell, p).value)
    ensures Cells(EncodeClamped(latCell, lonCell, p).value) == (ClampCell(latCell, p), ClampCell(lonCell, p))
  {
    ClampCellSpec(latCell, p);
    ClampCellSpec(lonCell, p);
    OfCells(ClampCell(latCell, p), ClampCell(lonCell, p), p);
  }
}
