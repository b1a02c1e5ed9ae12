/** Geometry of the square board: coordinates, the row-major flat index and
    the eight neighbour offsets. The board has no wraparound: a coordinate is
    on the board exactly when it lies in [0, size) on both axes. */
module Geometry {

  /** A displacement (dx, dy) from one cell to another. */
  type Offset = (int, int)

  /** The eight displacements from a cell to its neighbours, in the order the
      engine visits them. */
  const Offsets: seq<Offset> :=
    [(-1, -1), (0, -1), (1, -1), (-1, 0), (1, 0), (-1, 1), (0, 1), (1, 1)]

  /** (x, y) lies on a board of side `size`. */
  predicate InGrid(size: int, x: int, y: int)
  {
    0 <= x < size && 0 <= y < size
  }

  /** The flat, row-major position of cell (x, y). */
  function Index(size: int, x: int, y: int): int
  {
    y * size + x
  }

  /** The column of flat position i: the remainder of i by size. */
  function Col(size: nat, i: int): int
    requires size > 0
  {
    i % size
  }

  /** The row of flat position i: i divided by size, rounded down (for
      i >= 0 Dafny's division rounds the same way). */
  function Row(size: nat, i: int): int
    requires size > 0
  {
    i / size
  }

  /** (dx, dy) is a displacement to one of the eight surrounding cells. */
  predicate IsNeighbourOffset(dx: int, dy: int)
  {
    -1 <= dx <= 1 && -1 <= dy <= 1 && (dx, dy) != (0, 0)
  }

  predicate Distinct<T(==)>(s: seq<T>)
  {
    forall j, k :: 0 <= j < k < |s| ==> s[j] != s[k]
  }

  /** The offset table lists every neighbour displacement, and nothing else. */
  lemma OffsetsAreTheNeighbours(dx: int, dy: int)
    ensures (dx, dy) in Offsets <==> IsNeighbourOffset(dx, dy)
  {
    if IsNeighbourOffset(dx, dy) {
      if dy == -1 {
        assert Offsets[dx + 1] == (dx, dy);
      } else if dy == 0 {
        if dx == -1 { assert Offsets[3] == (dx, dy); } else { assert Offsets[4] == (dx, dy); }
      } else {
        assert Offsets[dx + 6] == (dx, dy);
      }
    }
  }

  /** No displacement appears twice in the offset table, so no neighbour is
      visited twice. */
  lemma OffsetsDistinct()
    ensures |Offsets| == 8 && Distinct(Offsets)
  {
  }

  /** Euclidean division is determined by quotient and remainder. */
  lemma DivModUnique(i: int, d: int, q: int, r: int)
    requires d > 0 && 0 <= r < d && i == q * d + r
    ensures i / d == q && i % d == r
  {
    var q', r' := i / d, i % d;
    assert i == q' * d + r';
    if q' > q {
      assert (q' - q) * d == r - r';
      MulAtLeast(q' - q, d);
      assert false;
    } else if q' < q {
      assert (q - q') * d == r' - r;
      MulAtLeast(q - q', d);
      assert false;
    }
  }

  lemma MulAtLeast(k: int, d: int)
    requires k >= 1 && d > 0
    ensures k * d >= d
  {
    assert k * d == (k - 1) * d + d;
    assert (k - 1) * d >= 0;
  }

  /** Multiplication by a non-negative factor is monotone. */
  lemma MulMonotone(a: int, b: int, c: int)
    requires a <= b && c >= 0
    ensures a * c <= b * c
  {
    assert b * c - a * c == (b - a) * c;
  }

  /** Every on-board cell has a flat position inside the array, and that
      position maps back to the same column and row. */
  lemma IndexInGrid(size: nat, x: int, y: int)
    requires InGrid(size, x, y)
    ensures 0 <= Index(size, x, y) < size * size
    ensures Col(size, Index(size, x, y)) == x && Row(size, Index(size, x, y)) == y
  {
    MulMonotone(0, y, size);
    MulMonotone(y + 1, size, size);
    assert (y + 1) * size == y * size + size;
    DivModUnique(y * size + x, size, y, x);
  }

  /** Every flat position of the array is the position of an on-board cell:
      its column and row. */
  lemma CoordsOfIndex(size: nat, i: int)
    requires 0 <= i < size * size
    ensures size > 0
    ensures InGrid(size, Col(size, i), Row(size, i))
    ensures Index(size, Col(size, i), Row(size, i)) == i
  {
    if size == 0 {
      assert false;
    }
    var q, r := i / size, i % size;
    assert i == q * size + r;
    if q >= size {
      MulMonotone(size, q, size);
      assert false;
    }
    if q < 0 {
      MulMonotone(q, -1, size);
      assert false;
    }
  }

  /** Two on-board cells share a flat position only if they are the same cell. */
  lemma IndexInjective(size: nat, x1: int, y1: int, x2: int, y2: int)
    requires InGrid(size, x1, y1) && InGrid(size, x2, y2)
    requires Index(size, x1, y1) == Index(size, x2, y2)
    ensures x1 == x2 && y1 == y2
  {
    IndexInGrid(size, x1, y1);
    IndexInGrid(size, x2, y2);
  }
}
