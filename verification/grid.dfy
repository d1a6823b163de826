/**
 * What the steps of MoveX and MoveY do to the grid cells: a step east, west,
 * north or south moves one cell by one around its ring and keeps the other,
 * and so does a run of steps. Also the bridge between valid hashes and pairs
 * of cells below 2^prec.
 */
module Grid {
  import opened Bitops
  import opened Planes
  import opened Geohashi
  import opened Torus

  // ------------------------------------------------------------ single steps

  /** The interleaving as the join of the two spread planes. */
  function Join(a: bv64, c: bv64): bv64 {
    a | (c << 1)
  }

  lemma InterleaveJoin(x: bv64, y: bv64)
    ensures Interleave64(x, y) == Join(Spread(x), Spread(y))
  {
    InterleaveSpread(x, y);
  }

  lemma ShiftEastPlanes(sa: bv64, b: bv64, m: bv64, e: bv64, o: bv64)
    requires PlaneMasks(m, e, o) && Within(b, m) && sa & S7 == 0
    ensures ShiftX(Join(sa, Spread(b)), e, o, true) == Join(sa, Spread(Up(b, m)))
  {
    SpreadEven(b);
    OddPlaneInc(b, m, e, o);
  }

  lemma ShiftEastCells(lat: bv64, lon: bv64, m: bv64, e: bv64, o: bv64)
    requires PlaneMasks(m, e, o) && Within(lat, m) && Within(lon, m)
    ensures ShiftX(Interleave64(lat, lon), e, o, true) == Interleave64(lat, Up(lon, m))
  {
    InterleaveJoin(lat, lon);
    InterleaveJoin(lat, Up(lon, m));
    SpreadEven(lat);
    ShiftEastPlanes(Spread(lat), lon, m, e, o);
  }

  lemma ShiftWestPlanes(sa: bv64, b: bv64, m: bv64, e: bv64, o: bv64)
    requires PlaneMasks(m, e, o) && Within(b, m) && sa & S7 == 0
    ensures ShiftX(Join(sa, Spread(b)), e, o, false) == Join(sa, Spread(Down(b, m)))
  {
    SpreadEven(b);
    OddPlaneDec(b, m, e, o);
  }

  lemma ShiftWestCells(lat: bv64, lon: bv64, m: bv64, e: bv64, o: bv64)
    requires PlaneMasks(m, e, o) && Within(lat, m) && Within(lon, m)
    ensures ShiftX(Interleave64(lat, lon), e, o, false) == Interleave64(lat, Down(lon, m))
  {
    InterleaveJoin(lat, lon);
    InterleaveJoin(lat, Down(lon, m));
    SpreadEven(lat);
    ShiftWestPlanes(Spread(lat), lon, m, e, o);
  }

  lemma ShiftNorthPlanes(a: bv64, sb: bv64, m: bv64, e: bv64, o: bv64)
    requires PlaneMasks(m, e, o) && Within(a, m) && sb & S7 == 0
    ensures ShiftY(Join(Spread(a), sb), o, e, true) == Join(Spread(Up(a, m)), sb)
  {
    SpreadEven(a);
    EvenPlaneInc(a, m, e, o);
  }

  lemma ShiftNorthCells(lat: bv64, lon: bv64, m: bv64, e: bv64, o: bv64)
    requires PlaneMasks(m, e, o) && Within(lat, m) && Within(lon, m)
    ensures ShiftY(Interleave64(lat, lon), o, e, true) == Interleave64(Up(lat, m), lon)
  {
    InterleaveJoin(lat, lon);
    InterleaveJoin(Up(lat, m), lon);
    SpreadEven(lon);
    ShiftNorthPlanes(lat, Spread(lon), m, e, o);
  }

  lemma ShiftSouthPlanes(a: bv64, sb: bv64, m: bv64, e: bv64, o: bv64)
    requires PlaneMasks(m, e, o) && Within(a, m) && sb & S7 == 0
    ensures ShiftY(Join(Spread(a), sb), o, e, false) == Join(Spread(Down(a, m)), sb)
  {
    SpreadEven(a);
    EvenPlaneDec(a, m, e, o);
  }

  lemma ShiftSouthCells(lat: bv64, lon: bv64, m: bv64, e: bv64, o: bv64)
    requires PlaneMasks(m, e, o) && Within(lat, m) && Within(lon, m)
    ensures ShiftY(Interleave64(lat, lon), o, e, false) == Interleave64(Down(lat, m), lon)
  {
    InterleaveJoin(lat, lon);
    InterleaveJoin(Down(lat, m), lon);
    SpreadEven(lon);
    ShiftSouthPlanes(lat, Spread(lon), m, e, o);
  }

  /** A step east moves the longitude cell up by one, wrapping at 2^prec. */
  lemma StepEastCells(lat: bv64, lon: bv64, p: bv8)
    requires 1 <= p <= 26 && Below(lat, p) && Below(lon, p)
    ensures StepX(Interleave64(lat, lon), p, true) == Interleave64(lat, Up(lon, Mask(p)))
  {
    PrecisionMasks(p);
    ShiftEastCells(lat, lon, Mask(p), EvenBits(p), OddBits(p));
  }

  /** A step west moves the longitude cell down by one, wrapping at 0. */
  lemma StepWestCells(lat: bv64, lon: bv64, p: bv8)
    requires 1 <= p <= 26 && Below(lat, p) && Below(lon, p)
    ensures StepX(Interleave64(lat, lon), p, false) == Interleave64(lat, Down(lon, Mask(p)))
  {
    PrecisionMasks(p);
    ShiftWestCells(lat, lon, Mask(p), EvenBits(p), OddBits(p));
  }

  /** A step north moves the latitude cell up by one, wrapping at 2^prec. */
  lemma StepNorthCells(lat: bv64, lon: bv64, p: bv8)
    requires 1 <= p <= 26 && Below(lat, p) && Below(lon, p)
    ensures StepY(Interleave64(lat, lon), p, true) == Interleave64(Up(lat, Mask(p)), lon)
  {
    PrecisionMasks(p);
    ShiftNorthCells(lat, lon, Mask(p), EvenBits(p), OddBits(p));
  }

  /** A step south moves the latitude cell down by one, wrapping at 0. */
  lemma StepSouthCells(lat: bv64, lon: bv64, p: bv8)
    requires 1 <= p <= 26 && Below(lat, p) && Below(lon, p)
    ensures StepY(Interleave64(lat, lon), p, false) == Interleave64(Down(lat, Mask(p)), lon)
  {
    PrecisionMasks(p);
    ShiftSouthCells(lat, lon, Mask(p), EvenBits(p), OddBits(p));
  }

  /** Repeated moves from a cell at precision p stay below 2^p. */
  lemma RepeatBelow(c: bv64, p: bv8, k: nat)
    requires Below(c, p)
    ensures Below(UpBy(c, Mask(p), k), p) && Below(DownBy(c, Mask(p), k), p)
  {
    UpByWithin(c, Mask(p), k);
    DownByWithin(c, Mask(p), k);
  }

  // ------------------------------------------------------------- many steps

  lemma RepeatEastStep(lat: bv64, lon: bv64, p: bv8, k: nat, c: bv64)
    requires 1 <= p <= 26 && Below(lat, p) && k > 0
    requires c == UpBy(lon, Mask(p), k - 1) && Below(c, p)
    requires RepeatX(Interleave64(lat, lon), p, true, k - 1) == Interleave64(lat, c)
    ensures RepeatX(Interleave64(lat, lon), p, true, k) == Interleave64(lat, UpBy(lon, Mask(p), k))
  {
    StepEastCells(lat, c, p);
  }

  /** k steps east move the longitude cell up k times. */
  lemma {:induction false} RepeatEastCells(lat: bv64, lon: bv64, p: bv8, k: nat)
    requires 1 <= p <= 26 && Below(lat, p) && Below(lon, p)
    ensures RepeatX(Interleave64(lat, lon), p, true, k) == Interleave64(lat, UpBy(lon, Mask(p), k))
  {
    if k > 0 {
      RepeatEastCells(lat, lon, p, k - 1);
      var c := UpBy(lon, Mask(p), k - 1);
      RepeatBelow(lon, p, k - 1);
      RepeatEastStep(lat, lon, p, k, c);
    }
  }

  lemma RepeatWestStep(lat: bv64, lon: bv64, p: bv8, k: nat, c: bv64)
    requires 1 <= p <= 26 && Below(lat, p) && k > 0
    requires c == DownBy(lon, Mask(p), k - 1) && Below(c, p)
    requires RepeatX(Interleave64(lat, lon), p, false, k - 1) == Interleave64(lat, c)
    ensures RepeatX(Interleave64(lat, lon), p, false, k) == Interleave64(lat, DownBy(lon, Mask(p), k))
  {
    StepWestCells(lat, c, p);
  }

  /** k steps west move the longitude cell down k times. */
  lemma {:induction false} RepeatWestCells(lat: bv64, lon: bv64, p: bv8, k: nat)
    requires 1 <= p <= 26 && Below(lat, p) && Below(lon, p)
    ensures RepeatX(Interleave64(lat, lon), p, false, k) == Interleave64(lat, DownBy(lon, Mask(p), k))
  {
    if k > 0 {
      RepeatWestCells(lat, lon, p, k - 1);
      var c := DownBy(lon, Mask(p), k - 1);
      RepeatBelow(lon, p, k - 1);
      RepeatWestStep(lat, lon, p, k, c);
    }
  }

  lemma RepeatNorthStep(lat: bv64, lon: bv64, p: bv8, k: nat, c: bv64)
    requires 1 <= p <= 26 && Below(lon, p) && k > 0
    requires c == UpBy(lat, Mask(p), k - 1) && Below(c, p)
    requires RepeatY(Interleave64(lat, lon), p, true, k - 1) == Interleave64(c, lon)
    ensures RepeatY(Interleave64(lat, lon), p, true, k) == Interleave64(UpBy(lat, Mask(p), k), lon)
  {
    StepNorthCells(c, lon, p);
  }

  /** k steps north move the latitude cell up k times. */
  lemma {:induction false} RepeatNorthCells(lat: bv64, lon: bv64, p: bv8, k: nat)
    requires 1 <= p <= 26 && Below(lat, p) && Below(lon, p)
    ensures RepeatY(Interleave64(lat, lon), p, true, k) == Interleave64(UpBy(lat, Mask(p), k), lon)
  {
    if k > 0 {
      RepeatNorthCells(lat, lon, p, k - 1);
      var c := UpBy(lat, Mask(p), k - 1);
      RepeatBelow(lat, p, k - 1);
      RepeatNorthStep(lat, lon, p, k, c);
    }
  }

  lemma RepeatSouthStep(lat: bv64, lon: bv64, p: bv8, k: nat, c: bv64)
    requires 1 <= p <= 26 && Below(lon, p) && k > 0
    requires c == DownBy(lat, Mask(p), k - 1) && Below(c, p)
    requires RepeatY(Interleave64(lat, lon), p, false, k - 1) == Interleave64(c, lon)
    ensures RepeatY(Interleave64(lat, lon), p, false, k) == Interleave64(DownBy(lat, Mask(p), k), lon)
  {
    StepSouthCells(c, lon, p);
  }

  /** k steps south move the latitude cell down k times. */
  lemma {:induction false} RepeatSouthCells(lat: bv64, lon: bv64, p: bv8, k: nat)
    requires 1 <= p <= 26 && Below(lat, p) && Below(lon, p)
    ensures RepeatY(Interleave64(lat, lon), p, false, k) == Interleave64(DownBy(lat, Mask(p), k), lon)
  {
    if k > 0 {
      RepeatSouthCells(lat, lon, p, k - 1);
      var c := DownBy(lat, Mask(p), k - 1);
      RepeatBelow(lat, p, k - 1);
      RepeatSouthStep(lat, lon, p, k, c);
    }
  }

  // ------------------------------------------------------- hashes and cells

  /** Two hashes of one precision with the same cells are the same hash. */
  lemma CellsDetermine(a: Hash, b: Hash)
    requires a.prec == b.prec && Cells(a) == Cells(b)
    ensures a == b
  {
    InterleaveDeinterleave(a.bits);
    InterleaveDeinterleave(b.bits);
  }

  /** A valid hash is the interleaving of its cells, and both cells are below 2^prec. */
  lemma CellsOf(h: Hash)
    requires Valid(h)
    ensures Interleave64(Cells(h).0, Cells(h).1) == h.bits
    ensures Below(Cells(h).0, h.prec) && Below(Cells(h).1, h.prec)
  {
    InterleaveDeinterleave(h.bits);
    DeinterleaveBound(h.bits, h.prec);
  }

  /** Interleaving two cells below 2^p gives a valid hash whose cells are those two. */
  lemma OfCells(lat: bv64, lon: bv64, p: bv8)
    requires ValidPrecision(p) && Below(lat, p) && Below(lon, p)
    ensures Valid(Hash(Interleave64(lat, lon), p))
    ensures Cells(Hash(Interleave64(lat, lon), p)) == (lat, lon)
  {
    BelowWider(lat, p, 32);
    BelowWider(lon, p, 32);
    DeinterleaveInterleave(lat, lon);
    InterleaveBound(lat, lon, p);
  }
}
