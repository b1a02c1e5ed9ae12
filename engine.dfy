/** The engine that wraps a board: `thisLife(life)` in index.js. The board is
    a flat row-major array of cell records {alive, count}; here the two fields
    live in two parallel arrays, `alive` and `count`, so the record of cell i
    is (alive[i], count[i]).

    `thisLife(life)` wraps the caller's array without copying it, and every
    operation except the step returns a new wrapper around that same array.
    A `Life` object therefore stands for the array itself: the operations that
    write cells change `alive` or `count` in place, and anything else that
    holds the same arrays sees the change. Only the step builds a new board. */
module Engine {
  import opened Geometry
  import opened Rules

  datatype Option<T> = None | Some(value: T)

  // ---------------------------------------------------------------------
  // Writing a cell and forcing it from the mouse, as functions of the board
  // ---------------------------------------------------------------------

  /** The guard of setAlive and setDead: both coordinates are defined and
      the cell is on the board. */
  predicate InRange(size: nat, x: Option<int>, y: Option<int>)
  {
    x.Some? && y.Some? && !(y.value >= size || x.value >= size || y.value < 0 || x.value < 0)
  }

  /** The alive flags after setting the flag of (x, y) to v, as setAlive
      (v = true) and setDead (v = false) do: a write off the board or with an
      undefined coordinate leaves the board as it was. */
  function Written(a: seq<bool>, size: nat, x: Option<int>, y: Option<int>, v: bool): (b: seq<bool>)
    requires |a| == size * size
    ensures |b| == |a|
    ensures !InRange(size, x, y) ==> b == a
    ensures InRange(size, x, y) ==> AliveAt(b, size, x.value, y.value) == v
    ensures forall i :: 0 <= i < |a| && b[i] != a[i] ==> InRange(size, x, y) && i == Index(size, x.value, y.value)
  {
    if InRange(size, x, y) then
      IndexInGrid(size, x.value, y.value);
      a[Index(size, x.value, y.value) := v]
    else a
  }

  /** Writing a cell changes that cell and no other cell of the board. */
  lemma WrittenChangesOnlyThatCell(a: seq<bool>, size: nat, x: Option<int>, y: Option<int>, v: bool, x': int, y': int)
    requires |a| == size * size
    ensures AliveAt(Written(a, size, x, y, v), size, x', y')
         == if InRange(size, x, y) && x' == x.value && y' == y.value then v else AliveAt(a, size, x', y')
  {
    if InRange(size, x, y) && InGrid(size, x', y') && (x', y') != (x.value, y.value) {
      IndexInGrid(size, x.value, y.value);
      IndexInGrid(size, x', y');
    }
  }

  /** Writing the same flag twice is the same as writing it once. */
  lemma WrittenIdempotent(a: seq<bool>, size: nat, x: Option<int>, y: Option<int>, v: bool)
    requires |a| == size * size
    ensures Written(Written(a, size, x, y, v), size, x, y, v) == Written(a, size, x, y, v)
  {
  }

  /** JavaScript falsiness of a mouse coordinate: null, undefined or 0. */
  predicate Falsy(c: Option<real>)
  {
    c.None? || c.value == 0.0
  }

  /** The cell forceAlive and forceDead pick for mouse coordinates (cx, cy):
      none when either coordinate is falsy, otherwise both rounded down. */
  function ForceTarget(cx: Option<real>, cy: Option<real>): (cell: Option<(int, int)>)
    ensures cell.None? <==> Falsy(cx) || Falsy(cy)
    ensures cell.Some? ==>
      cell.value.0 as real <= cx.value < cell.value.0 as real + 1.0
      && cell.value.1 as real <= cy.value < cell.value.1 as real + 1.0
  {
    if Falsy(cx) || Falsy(cy) then None else Some((cx.value.Floor, cy.value.Floor))
  }

  /** The alive flags after forcing the cell under the mouse to v. */
  function Forced(a: seq<bool>, size: nat, cx: Option<real>, cy: Option<real>, v: bool): (b: seq<bool>)
    requires |a| == size * size
    ensures |b| == |a|
  {
    match ForceTarget(cx, cy)
    case None => a
    case Some(cell) => Written(a, size, Some(cell.0), Some(cell.1), v)
  }

  /** Forcing at a point off the board, or with a missing coordinate, leaves
      the board unchanged; on the board it sets the cell containing the point. */
  lemma ForcedOnlyOnTheBoard(a: seq<bool>, size: nat, cx: Option<real>, cy: Option<real>, v: bool)
    requires |a| == size * size
    ensures cx.None? || cy.None? ==> Forced(a, size, cx, cy, v) == a
    ensures cx.Some? && cy.Some? && !(0.0 <= cx.value < size as real && 0.0 <= cy.value < size as real)
            ==> Forced(a, size, cx, cy, v) == a
    ensures cx.Some? && cy.Some? && 0.0 < cx.value < size as real && 0.0 < cy.value < size as real
            ==> AliveAt(Forced(a, size, cx, cy, v), size, cx.value.Floor, cy.value.Floor) == v
  {
    var t := ForceTarget(cx, cy);
    if t.Some? {
      assert t.value == (cx.value.Floor, cy.value.Floor);
      if !(0.0 <= cx.value < size as real && 0.0 <= cy.value < size as real) {
        assert !InGrid(size, t.value.0, t.value.1);
      }
    }
  }

  // ---------------------------------------------------------------------
  // The engine
  // ---------------------------------------------------------------------

  class Life {
    const size: nat
    const alive: array<bool>
    const count: array<int>

    /** A board of side `size` holds size * size cells. */
    ghost predicate Valid()
    {
      size > 0 && alive.Length == size * size && count.Length == size * size
    }

    /** A freshly allocated board of the given side whose cells are still
        to be filled in, as the step allocates one. */
    constructor Blank(size: nat)
      requires size > 0
      ensures Valid() && this.size == size
      ensures fresh(alive) && fresh(count)
    {
      this.size := size;
      alive := new bool[size * size];
      count := new int[size * size];
    }

    /** `thisLife(seed)`: a board of the given side built from a non-empty
        '0'/'1' string, every count set to 0 and then recomputed. The empty
        string is falsy in JavaScript and takes the unseeded path instead. */
    constructor FromSeed(seed: string, size: nat)
      requires size > 0 && |seed| > 0
      ensures Valid() && this.size == size
      ensures fresh(alive) && fresh(count)
      ensures alive[..] == SeedLives(seed, size * size)
      ensures count[..] == Counts(alive[..], size)
    {
      this.size := size;
      var lives := SeedLives(seed, size * size);
      alive := new bool[size * size](i requires 0 <= i < size * size => lives[i]);
      count := new int[size * size](_ => 0);
      new;
      assert alive[..] == lives;
      UpdateAllCounts();
    }

    /** isAlive: false for a cell off the board (the array is not read),
        otherwise the cell's flag. */
    function IsAlive(x: int, y: int): (r: bool)
      requires Valid()
      reads alive
      ensures !InGrid(size, x, y) ==> !r
      ensures r == AliveAt(alive[..], size, x, y)
    {
      if y >= size || x >= size || y < 0 || x < 0 then false
      else
        IndexInGrid(size, x, y);
        alive[y * size + x]
    }

    /** getCount: the stored count at flat position y * size + x. It has no
        bounds check of its own: any coordinates whose flat position exists
        are read, so (size, y) reads the first cell of row y + 1. */
    function GetCount(x: int, y: int): (n: int)
      requires Valid() && 0 <= Index(size, x, y) < count.Length
      reads count
      ensures n == count[Index(size, x, y)]
      ensures y + 1 < size && x == size ==> n == count[Index(size, 0, y + 1)]
    {
      count[y * size + x]
    }

    /** Once the counts are current, getCount at an on-board cell is the
        number of its live neighbours. */
    lemma CurrentCountIsLiveNeighbours(x: int, y: int)
      requires Valid() && count[..] == Counts(alive[..], size) && InGrid(size, x, y)
      ensures 0 <= Index(size, x, y) < count.Length
      ensures GetCount(x, y) == LiveNeighbours(alive[..], size, x, y)
    {
      IndexInGrid(size, x, y);
    }

    /** isAliveNextStep: B3/S23 applied to the cell's flag and stored count. */
    function IsAliveNextStep(x: int, y: int): (next: bool)
      requires Valid() && 0 <= Index(size, x, y) < count.Length
      reads count, alive
      ensures next <==> GetCount(x, y) == 3 || (IsAlive(x, y) && GetCount(x, y) == 2)
      ensures IsAlive(x, y) && (GetCount(x, y) < 2 || GetCount(x, y) > 3) ==> !next
      ensures !IsAlive(x, y) && GetCount(x, y) == 3 ==> next
    {
      Rule(IsAlive(x, y), GetCount(x, y))
    }

    /** resetCounts: every count becomes 0; the flags are untouched. */
    method ResetCounts()
      requires Valid()
      modifies count
      ensures forall i :: 0 <= i < count.Length ==> count[i] == 0
    {
      for i := 0 to count.Length
        invariant forall j :: 0 <= j < i ==> count[j] == 0
      {
        count[i] := 0;
      }
    }

    /** addToCount: one more live neighbour for (x, y); nothing happens off
        the board (there is no wraparound). */
    method AddToCount(x: int, y: int)
      requires Valid()
      modifies count
      ensures InGrid(size, x, y) ==>
        0 <= Index(size, x, y) < count.Length
        && count[..] == old(count[..])[Index(size, x, y) := old(count[Index(size, x, y)]) + 1]
      ensures !InGrid(size, x, y) ==> count[..] == old(count[..])
    {
      if y >= size || x >= size || y < 0 || x < 0 {
        return;
      }
      IndexInGrid(size, x, y);
      var index := y * size + x;
      count[index] := count[index] + 1;
    }

    /** updateNearbyCounts: a live cell (x, y) adds one to each of its
        neighbours on the board; a dead or off-board cell changes nothing. */
    method UpdateNearbyCounts(x: int, y: int)
      requires Valid()
      modifies count
      ensures forall c :: 0 <= c < count.Length ==>
        count[c] == old(count[c])
                    + (if IsAlive(x, y) && (Col(size, c) - x, Row(size, c) - y) in Offsets then 1 else 0)
    {
      if IsAlive(x, y) {
        OffsetsDistinct();
        for k := 0 to |Offsets|
          invariant forall c :: 0 <= c < count.Length ==>
            count[c] == old(count[c]) + (if (Col(size, c) - x, Row(size, c) - y) in Offsets[..k] then 1 else 0)
        {
          var d := Offsets[k];
          ghost var before := count[..];
          AddToCount(x + d.0, y + d.1);
          assert Offsets[..k + 1] == Offsets[..k] + [d];
          assert d !in Offsets[..k];
          forall c | 0 <= c < count.Length
            ensures count[c] == before[c] + (if (Col(size, c) - x, Row(size, c) - y) == d then 1 else 0)
          {
            CoordsOfIndex(size, c);
            if InGrid(size, x + d.0, y + d.1) {
              IndexInGrid(size, x + d.0, y + d.1);
            }
          }
        }
        assert Offsets[..|Offsets|] == Offsets;
      }
    }

    /** updateAllCounts: clear every count, then let every live cell, in flat
        order, add one to each of its neighbours. Afterwards each count is
        the number of live neighbours of its cell; the flags are untouched. */
    method UpdateAllCounts()
      requires Valid()
      modifies count
      ensures count[..] == Counts(alive[..], size)
    {
      ResetCounts();
      ghost var a := alive[..];
      OffsetsDistinct();
      forall c | 0 <= c < count.Length
        ensures count[c] == CountAliveBefore(a, size, Col(size, c), Row(size, c), Offsets, 0)
      {
        CountAliveBeforeStart(a, size, Col(size, c), Row(size, c), Offsets);
      }
      for i := 0 to alive.Length
        invariant forall c :: 0 <= c < count.Length ==>
          count[c] == CountAliveBefore(a, size, Col(size, c), Row(size, c), Offsets, i)
      {
        var x := i % size;
        var y := i / size;
        ghost var before := count[..];
        UpdateNearbyCounts(x, y);
        CoordsOfIndex(size, i);
        assert IsAlive(x, y) == a[i];
        forall c | 0 <= c < count.Length
          ensures count[c] == CountAliveBefore(a, size, Col(size, c), Row(size, c), Offsets, i + 1)
        {
          CountAliveBeforeNext(a, size, Col(size, c), Row(size, c), Offsets, i);
          OffsetsAreTheNeighbours(x - Col(size, c), y - Row(size, c));
          OffsetsAreTheNeighbours(Col(size, c) - x, Row(size, c) - y);
        }
      }
      forall c | 0 <= c < count.Length
        ensures count[c] == Counts(a, size)[c]
      {
        CountAliveBeforeEnd(a, size, Col(size, c), Row(size, c), Offsets);
      }
    }

    /** setAlive: the cell at defined, on-board coordinates becomes alive;
        otherwise nothing changes. */
    method SetAlive(x: Option<int>, y: Option<int>)
      requires Valid()
      modifies alive
      ensures alive[..] == Written(old(alive[..]), size, x, y, true)
    {
      var inRange := x.Some? && y.Some? && !(y.value >= size || x.value >= size || y.value < 0 || x.value < 0);
      if !inRange {
        return;
      }
      IndexInGrid(size, x.value, y.value);
      var index := y.value * size + x.value;
      alive[index] := true;
    }

    /** setDead: the cell at defined, on-board coordinates becomes dead;
        otherwise nothing changes. */
    method SetDead(x: Option<int>, y: Option<int>)
      requires Valid()
      modifies alive
      ensures alive[..] == Written(old(alive[..]), size, x, y, false)
    {
      var inRange := x.Some? && y.Some? && !(y.value >= size || x.value >= size || y.value < 0 || x.value < 0);
      if !inRange {
        return;
      }
      IndexInGrid(size, x.value, y.value);
      var index := y.value * size + x.value;
      alive[index] := false;
    }

    /** updateToNextStepLives: a new board whose flags are B3/S23 applied to
        this board's flags and stored counts, and whose counts are copied
        from this board. This board is not changed. */
    method UpdateToNextStepLives() returns (next: Life)
      requires Valid()
      ensures fresh(next) && fresh(next.alive) && fresh(next.count)
      ensures next.Valid() && next.size == size
      ensures next.alive[..] == NextLives(alive[..], count[..])
      ensures next.count[..] == count[..]
    {
      next := new Life.Blank(size);
      for i := 0 to alive.Length
        invariant forall j :: 0 <= j < i ==> next.alive[j] == Rule(alive[j], count[j])
        invariant forall j :: 0 <= j < i ==> next.count[j] == count[j]
      {
        var x := i % size;
        var y := i / size;
        CoordsOfIndex(size, i);
        next.alive[i] := IsAliveNextStep(x, y);
        next.count[i] := GetCount(x, y);
      }
    }

    /** takeStep: recompute this board's counts in place, then build the next
        generation from them. */
    method TakeStep() returns (next: Life)
      requires Valid()
      modifies count
      ensures count[..] == Counts(alive[..], size)
      ensures fresh(next) && fresh(next.alive) && fresh(next.count)
      ensures next.Valid() && next.size == size
      ensures next.alive[..] == Step(alive[..], size)
      ensures next.count[..] == count[..]
    {
      UpdateAllCounts();
      next := UpdateToNextStepLives();
    }

    /** forceAlive: make the cell under the mouse alive, unless a coordinate
        is falsy or the cell is off the board. */
    method ForceAlive(cx: Option<real>, cy: Option<real>)
      requires Valid()
      modifies alive
      ensures alive[..] == Forced(old(alive[..]), size, cx, cy, true)
    {
      var cell := ForceTarget(cx, cy);
      if cell.None? {
        return;
      }
      SetAlive(Some(cell.value.0), Some(cell.value.1));
    }

    /** forceDead: make the cell under the mouse dead, unless a coordinate is
        falsy or the cell is off the board. */
    method ForceDead(cx: Option<real>, cy: Option<real>)
      requires Valid()
      modifies alive
      ensures alive[..] == Forced(old(alive[..]), size, cx, cy, false)
    {
      var cell := ForceTarget(cx, cy);
      if cell.None? {
        return;
      }
      SetDead(Some(cell.value.0), Some(cell.value.1));
    }
  }
}
