/** Well-known boards and what one generation does to them. */
module Patterns {
  import opened Geometry
  import opened Rules

  function Bit(b: bool): nat
  {
    if b then 1 else 0
  }

  /** The live-neighbour count written out as its eight terms, one per
      neighbour. */
  lemma LiveNeighboursUnfolded(a: seq<bool>, size: nat, x: int, y: int)
    requires |a| == size * size
    ensures LiveNeighbours(a, size, x, y)
         == Bit(AliveAt(a, size, x - 1, y - 1)) + Bit(AliveAt(a, size, x, y - 1))
          + Bit(AliveAt(a, size, x + 1, y - 1)) + Bit(AliveAt(a, size, x - 1, y))
          + Bit(AliveAt(a, size, x + 1, y)) + Bit(AliveAt(a, size, x - 1, y + 1))
          + Bit(AliveAt(a, size, x, y + 1)) + Bit(AliveAt(a, size, x + 1, y + 1))
  {
    var t1 := [(0, -1), (1, -1), (-1, 0), (1, 0), (-1, 1), (0, 1), (1, 1)];
    var t2 := [(1, -1), (-1, 0), (1, 0), (-1, 1), (0, 1), (1, 1)];
    var t3 := [(-1, 0), (1, 0), (-1, 1), (0, 1), (1, 1)];
    var t4 := [(1, 0), (-1, 1), (0, 1), (1, 1)];
    var t5 := [(-1, 1), (0, 1), (1, 1)];
    var t6 := [(0, 1), (1, 1)];
    var t7 := [(1, 1)];
    assert Offsets[1..] == t1 && t1[1..] == t2 && t2[1..] == t3 && t3[1..] == t4;
    assert t4[1..] == t5 && t5[1..] == t6 && t6[1..] == t7 && t7[1..] == [];
    assert CountAlive(a, size, x, y, t7) == Bit(AliveAt(a, size, x + 1, y + 1));
    assert CountAlive(a, size, x, y, t6) == Bit(AliveAt(a, size, x, y + 1)) + CountAlive(a, size, x, y, t7);
    assert CountAlive(a, size, x, y, t5) == Bit(AliveAt(a, size, x - 1, y + 1)) + CountAlive(a, size, x, y, t6);
    assert CountAlive(a, size, x, y, t4) == Bit(AliveAt(a, size, x + 1, y)) + CountAlive(a, size, x, y, t5);
    assert CountAlive(a, size, x, y, t3) == Bit(AliveAt(a, size, x - 1, y)) + CountAlive(a, size, x, y, t4);
    assert CountAlive(a, size, x, y, t2) == Bit(AliveAt(a, size, x + 1, y - 1)) + CountAlive(a, size, x, y, t3);
    assert CountAlive(a, size, x, y, t1) == Bit(AliveAt(a, size, x, y - 1)) + CountAlive(a, size, x, y, t2);
    assert CountAlive(a, size, x, y, Offsets) == Bit(AliveAt(a, size, x - 1, y - 1)) + CountAlive(a, size, x, y, t1);
  }

  /** (x, y) lies in the 2x2 block whose top-left cell is (left, top). */
  predicate InBlock(left: int, top: int, x: int, y: int)
  {
    left <= x <= left + 1 && top <= y <= top + 1
  }

  /** The live cells of the board are exactly the 2x2 block at (left, top). */
  predicate IsBlock(a: seq<bool>, size: nat, left: int, top: int)
    requires size > 0 && |a| == size * size
  {
    forall i :: 0 <= i < |a| ==> (a[i] <==> InBlock(left, top, Col(size, i), Row(size, i)))
  }

  lemma AliveAtBlock(a: seq<bool>, size: nat, left: int, top: int, x: int, y: int)
    requires size > 0 && |a| == size * size && IsBlock(a, size, left, top)
    requires InGrid(size, left, top) && InGrid(size, left + 1, top + 1)
    ensures AliveAt(a, size, x, y) == InBlock(left, top, x, y)
  {
    if InGrid(size, x, y) {
      IndexInGrid(size, x, y);
    }
  }

  /** The block is a still life: a 2x2 square of live cells on an otherwise
      empty board is left exactly as it is after one generation. */
  lemma BlockIsStill(a: seq<bool>, size: nat, left: int, top: int)
    requires size > 0 && |a| == size * size && IsBlock(a, size, left, top)
    requires InGrid(size, left, top) && InGrid(size, left + 1, top + 1)
    ensures Step(a, size) == a
  {
    forall i | 0 <= i < |a|
      ensures Step(a, size)[i] == a[i]
    {
      var x, y := Col(size, i), Row(size, i);
      LiveNeighboursUnfolded(a, size, x, y);
      AliveAtBlock(a, size, left, top, x, y);
      AliveAtBlock(a, size, left, top, x - 1, y - 1);
      AliveAtBlock(a, size, left, top, x, y - 1);
      AliveAtBlock(a, size, left, top, x + 1, y - 1);
      AliveAtBlock(a, size, left, top, x - 1, y);
      AliveAtBlock(a, size, left, top, x + 1, y);
      AliveAtBlock(a, size, left, top, x - 1, y + 1);
      AliveAtBlock(a, size, left, top, x, y + 1);
      AliveAtBlock(a, size, left, top, x + 1, y + 1);
      CoordsOfIndex(size, i);
    }
  }
}
