/**
 * Parent and Children on valid hashes: zooming out drops the lowest bit of
 * both cells, zooming in pushes one bit onto each, and the two are inverse.
 */
module Zoom {
  import opened Bitops
  import opened Geohashi
  import opened Grid

  // ------------------------------------------------------------ bit facts

  lemma BelowDropPair(x: bv64, p: bv8)
    requires 2 <= p <= 26 && Below(x, 2 * p)
    ensures Below(DropPair(x), 2 * (p - 1))
  {
  }

  lemma BelowPushPair(x: bv64, p: bv8, k: bv64)
    requires p <= 25 && Below(x, 2 * p) && k < 4
    ensures Below(PushPair(x, k), 2 * (p + 1))
  {
  }

  lemma DropPushPair(x: bv64, k: bv64)
    requires Below(x, 62) && k < 4
    ensures DropPair(PushPair(x, k)) == x
  {
  }

  lemma PushDropPair(x: bv64)
    ensures PushPair(DropPair(x), x & 3) == x
  {
  }

  // ---------------------------------------------------------------- parent

  lemma ParentHash(h: Hash)
    requires h.prec != 1
    ensures Parent(h) == Success(Hash(DropPair(h.bits), h.prec - 1))
  {
  }

  /** Zooming out a valid hash above precision 1 drops the lowest bit of both cells. */
  lemma ParentCells(h: Hash)
    requires Valid(h) && h.prec > 1
    ensures Parent(h).Success? && Valid(Parent(h).value)
    ensures Cells(Parent(h).value) == (DropBit(Cells(h).0), DropBit(Cells(h).1))
  {
    ParentHash(h);
    BelowDropPair(h.bits, h.prec);
    DeinterleaveDropPair(h.bits);
  }

  // -------------------------------------------------------------- children

  /** Below the maximum precision the children are the four children by index. */
  lemma ChildrenList(h: Hash)
    requires h.prec < PrecisionMax
    ensures Children(h) == [Child(h, 0), Child(h, 1), Child(h, 2), Child(h, 3)]
  {
  }

  /** A child of a valid hash below the maximum precision is valid. */
  lemma ChildValid(h: Hash, k: bv64)
    requires Valid(h) && h.prec < PrecisionMax && k < 4
    ensures Valid(Child(h, k))
  {
    BelowPushPair(h.bits, h.prec, k);
  }

  /**
   * The cells of the child with index k, whose bit 0 is the latitude bit a and
   * bit 1 the longitude bit b, are the cells with a and b pushed on.
   */
  lemma ChildCells(h: Hash, k: bv64, a: bv64, b: bv64)
    requires Valid(h) && h.prec < PrecisionMax && a < 2 && b < 2 && k == a | (b << 1)
    ensures Cells(Child(h, k)) == (PushBit(Cells(h).0, a), PushBit(Cells(h).1, b))
  {
    BelowWider(h.bits, 2 * h.prec, 62);
    DeinterleavePushPair(h.bits, a, b);
  }

  /** The four children of a valid hash below the maximum precision are valid, one level down. */
  lemma ChildrenValid(h: Hash)
    requires Valid(h) && h.prec < PrecisionMax
    ensures |Children(h)| == 4
    ensures forall i | 0 <= i < 4 :: Valid(Children(h)[i]) && Children(h)[i].prec == h.prec + 1
  {
    ChildrenList(h);
    ChildValid(h, 0);
    ChildValid(h, 1);
    ChildValid(h, 2);
    ChildValid(h, 3);
  }

  /**
   * The four children cover the cell: south-west, north-west, south-east,
   * north-east (bit 0 of the index picks the northern half, bit 1 the eastern
   * half).
   */
  lemma ChildrenCells(h: Hash)
    requires Valid(h) && h.prec < PrecisionMax
    ensures |Children(h)| == 4
    ensures Cells(Children(h)[0]) == (PushBit(Cells(h).0, 0), PushBit(Cells(h).1, 0))
    ensures Cells(Children(h)[1]) == (PushBit(Cells(h).0, 1), PushBit(Cells(h).1, 0))
    ensures Cells(Children(h)[2]) == (PushBit(Cells(h).0, 0), PushBit(Cells(h).1, 1))
    ensures Cells(Children(h)[3]) == (PushBit(Cells(h).0, 1), PushBit(Cells(h).1, 1))
  {
    ChildrenList(h);
    ChildCells(h, 0, 0, 0);
    ChildCells(h, 1, 1, 0);
    ChildCells(h, 2, 0, 1);
    ChildCells(h, 3, 1, 1);
  }

  // ------------------------------------------------------------ round trips

  /** The parent of a child of a valid hash is that hash. */
  lemma ParentOfChild(h: Hash, k: bv64)
    requires Valid(h) && h.prec < PrecisionMax && k < 4
    ensures Parent(Child(h, k)) == Success(h)
  {
    ParentHash(Child(h, k));
    BelowWider(h.bits, 2 * h.prec, 62);
    DropPushPair(h.bits, k);
  }

  /** Every child of a valid hash has that hash as its parent. */
  lemma ParentOfChildren(h: Hash)
    requires Valid(h) && h.prec < PrecisionMax
    ensures forall i | 0 <= i < |Children(h)| :: Parent(Children(h)[i]) == Success(h)
  {
    ParentOfChild(h, 0);
    ParentOfChild(h, 1);
    ParentOfChild(h, 2);
    ParentOfChild(h, 3);
  }

  /** A hash above precision 1 is the child of its parent picked by its two low bits. */
  lemma ChildOfParent(h: Hash)
    requires Valid(h) && h.prec > 1
    ensures Parent(h).Success? && Child(Parent(h).value, h.bits & 3) == h
  {
    ParentHash(h);
    PushDropPair(h.bits);
  }

  /** A valid hash above precision 1 is one of the children of its parent. */
  lemma ChildrenOfParent(h: Hash)
    requires Valid(h) && h.prec > 1
    ensures Parent(h).Success? && h in Children(Parent(h).value)
  {
    var q := Parent(h).value;
    ChildOfParent(h);
    var k := h.bits & 3;
    if k == 0 {
      assert Children(q)[0] == h;
    } else if k == 1 {
      assert Children(q)[1] == h;
    } else if k == 2 {
      assert Children(q)[2] == h;
    } else {
      assert Children(q)[3] == h;
    }
  }
}
