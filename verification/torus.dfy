/**
 * Cell arithmetic on one axis of the grid. At precision p an axis has 2^p
 * cells, numbered by the words below the cell mask m = 2^p - 1, and moving
 * past either end wraps around: the axis is a ring of m + 1 cells.
 *
 * A single move is `Up` or `Down`; `UpBy` and `DownBy` repeat it, and the
 * closed forms `Add` and `Sub` move by a whole count at once.
 */
module Torus {
  import opened Planes

  /** The 64-bit word of a count: k modulo 2^64. */
  function Word(k: nat): bv64 {
    if k == 0 then 0 else Word(k - 1) + 1
  }

  /** One cell up, wrapping from the last cell to cell 0. */
  function Up(c: bv64, m: bv64): bv64 {
    (c + 1) & m
  }

  /** One cell down, wrapping from cell 0 to the last cell. */
  function Down(c: bv64, m: bv64): bv64 {
    (c - 1) & m
  }

  /** w cells up at once. */
  function Add(c: bv64, w: bv64, m: bv64): bv64 {
    (c + w) & m
  }

  /** w cells down at once. */
  function Sub(c: bv64, w: bv64, m: bv64): bv64 {
    (c - w) & m
  }

  /** k single moves up. */
  function UpBy(c: bv64, m: bv64, k: nat): bv64 {
    if k == 0 then c else Up(UpBy(c, m, k - 1), m)
  }

  /** k single moves down. */
  function DownBy(c: bv64, m: bv64, k: nat): bv64 {
    if k == 0 then c else Down(DownBy(c, m, k - 1), m)
  }

  // ------------------------------------------------------------ closed forms

  lemma UpAdd(c: bv64, w: bv64, m: bv64)
    requires CellMask(m)
    ensures Up(Add(c, w, m), m) == Add(c, w + 1, m)
  {
  }

  lemma DownSub(c: bv64, w: bv64, m: bv64)
    requires CellMask(m)
    ensures Down(Sub(c, w, m), m) == Sub(c, w + 1, m)
  {
  }

  lemma AddWord(c: bv64, m: bv64, k: nat, w: bv64)
    requires k > 0 && w == Word(k - 1)
    ensures Add(c, w + 1, m) == Add(c, Word(k), m)
  {
  }

  lemma SubWord(c: bv64, m: bv64, k: nat, w: bv64)
    requires k > 0 && w == Word(k - 1)
    ensures Sub(c, w + 1, m) == Sub(c, Word(k), m)
  {
  }

  lemma UpByStep(c: bv64, m: bv64, k: nat, w: bv64)
    requires CellMask(m) && k > 0 && w == Word(k - 1) && UpBy(c, m, k - 1) == Add(c, w, m)
    ensures UpBy(c, m, k) == Add(c, Word(k), m)
  {
    UpAdd(c, w, m);
    AddWord(c, m, k, w);
  }

  lemma DownByStep(c: bv64, m: bv64, k: nat, w: bv64)
    requires CellMask(m) && k > 0 && w == Word(k - 1) && DownBy(c, m, k - 1) == Sub(c, w, m)
    ensures DownBy(c, m, k) == Sub(c, Word(k), m)
  {
    DownSub(c, w, m);
    SubWord(c, m, k, w);
  }

  /** k moves up are one move by k, modulo the size of the ring. */
  lemma {:induction false} UpByAdd(c: bv64, m: bv64, k: nat)
    requires CellMask(m) && c & m == c
    ensures UpBy(c, m, k) == Add(c, Word(k), m)
  {
    if k > 0 {
      UpByAdd(c, m, k - 1);
      var w := Word(k - 1);
      UpByStep(c, m, k, w);
    }
  }

  /** k moves down are one move back by k, modulo the size of the ring. */
  lemma {:induction false} DownBySub(c: bv64, m: bv64, k: nat)
    requires CellMask(m) && c & m == c
    ensures DownBy(c, m, k) == Sub(c, Word(k), m)
  {
    if k > 0 {
      DownBySub(c, m, k - 1);
      var w := Word(k - 1);
      DownByStep(c, m, k, w);
    }
  }

  // ------------------------------------------------------------- ring laws

  /** Repeated moves up from a cell stay on the ring. */
  lemma UpByWithin(c: bv64, m: bv64, k: nat)
    requires c & m == c
    ensures UpBy(c, m, k) & m == UpBy(c, m, k)
  {
  }

  /** Repeated moves down from a cell stay on the ring. */
  lemma DownByWithin(c: bv64, m: bv64, k: nat)
    requires c & m == c
    ensures DownBy(c, m, k) & m == DownBy(c, m, k)
  {
  }

  /** A move down undoes a move up. */
  lemma DownUp(c: bv64, m: bv64)
    requires CellMask(m) && c & m == c
    ensures Down(Up(c, m), m) == c
  {
  }

  /** A move up undoes a move down. */
  lemma UpDown(c: bv64, m: bv64)
    requires CellMask(m) && c & m == c
    ensures Up(Down(c, m), m) == c
  {
  }

  /** Repeated moves may also be unrolled from the first move. */
  lemma {:induction false} UpByFirst(c: bv64, m: bv64, k: nat)
    requires k > 0
    ensures UpBy(c, m, k) == UpBy(Up(c, m), m, k - 1)
  {
    if k > 1 {
      UpByFirst(c, m, k - 1);
    }
  }

  lemma {:induction false} DownByFirst(c: bv64, m: bv64, k: nat)
    requires k > 0
    ensures DownBy(c, m, k) == DownBy(Down(c, m), m, k - 1)
  {
    if k > 1 {
      DownByFirst(c, m, k - 1);
    }
  }

  /** k moves down undo k moves up. */
  lemma {:induction false} DownByUpBy(c: bv64, m: bv64, k: nat)
    requires CellMask(m) && c & m == c
    ensures DownBy(UpBy(c, m, k), m, k) == c
  {
    if k > 0 {
      var y := UpBy(c, m, k - 1);
      UpByWithin(c, m, k - 1);
      DownUp(y, m);
      DownByFirst(Up(y, m), m, k);
      DownByUpBy(c, m, k - 1);
    }
  }

  /** k moves up undo k moves down. */
  lemma {:induction false} UpByDownBy(c: bv64, m: bv64, k: nat)
    requires CellMask(m) && c & m == c
    ensures UpBy(DownBy(c, m, k), m, k) == c
  {
    if k > 0 {
      var y := DownBy(c, m, k - 1);
      DownByWithin(c, m, k - 1);
      UpDown(y, m);
      UpByFirst(Down(y, m), m, k);
      UpByDownBy(c, m, k - 1);
    }
  }

  /** Moves up compose by adding their counts. */
  lemma {:induction false} UpByUpBy(c: bv64, m: bv64, a: nat, b: nat)
    ensures UpBy(UpBy(c, m, a), m, b) == UpBy(c, m, a + b)
  {
    if b > 0 {
      UpByUpBy(c, m, a, b - 1);
    }
  }

  /** Moves down compose by adding their counts. */
  lemma {:induction false} DownByDownBy(c: bv64, m: bv64, a: nat, b: nat)
    ensures DownBy(DownBy(c, m, a), m, b) == DownBy(c, m, a + b)
  {
    if b > 0 {
      DownByDownBy(c, m, a, b - 1);
    }
  }

  /** k + j moves up then j moves down is k moves up. */
  lemma UpByThenFewer(c: bv64, m: bv64, k: nat, j: nat)
    requires CellMask(m) && c & m == c
    ensures DownBy(UpBy(c, m, k + j), m, j) == UpBy(c, m, k)
  {
    var y := UpBy(c, m, k);
    UpByUpBy(c, m, k, j);
    UpByWithin(c, m, k);
    DownByUpBy(y, m, j);
  }

  /** i moves up then j > i moves down is j - i moves down. */
  lemma UpByThenMore(c: bv64, m: bv64, i: nat, j: nat)
    requires CellMask(m) && c & m == c && i < j
    ensures DownBy(UpBy(c, m, i), m, j) == DownBy(c, m, j - i)
  {
    var y := UpBy(c, m, i);
    DownByDownBy(y, m, i, j - i);
    DownByUpBy(c, m, i);
  }

  /** i moves down then j >= i moves up is j - i moves up. */
  lemma DownByThenMore(c: bv64, m: bv64, i: nat, j: nat)
    requires CellMask(m) && c & m == c && j >= i
    ensures UpBy(DownBy(c, m, i), m, j) == UpBy(c, m, j - i)
  {
    var y := DownBy(c, m, i);
    UpByUpBy(y, m, i, j - i);
    UpByDownBy(c, m, i);
  }

  /** k + j moves down then j moves up is k moves down. */
  lemma DownByThenFewer(c: bv64, m: bv64, k: nat, j: nat)
    requires CellMask(m) && c & m == c
    ensures UpBy(DownBy(c, m, k + j), m, j) == DownBy(c, m, k)
  {
    var y := DownBy(c, m, k);
    DownByDownBy(c, m, k, j);
    DownByWithin(c, m, k);
    UpByDownBy(y, m, j);
  }
}
