/** The game itself, as pure functions over the alive flags of a board:
    seeding from a '0'/'1' string, the live-neighbour count, the B3/S23 rule
    and one whole generation. The engine in engine.dfy is proved against
    these definitions. */
module Rules {
  import opened Geometry

  // ---------------------------------------------------------------------
  // Seeding
  // ---------------------------------------------------------------------

  /** The value `+c` takes for a one-character string c in JavaScript, and
      `undefined` for a position past the end of the seed. */
  datatype SeedValue = Undefined | NaN | Num(n: int)

  /** Characters that JavaScript's string-to-number conversion trims away;
      a string made only of them converts to 0. */
  predicate IsJsWhiteSpace(c: char)
  {
    var k := c as int;
    (0x09 <= k <= 0x0D) || k == 0x20 || k == 0xA0 || k == 0x1680
    || (0x2000 <= k <= 0x200A) || k == 0x2028 || k == 0x2029
    || k == 0x202F || k == 0x205F || k == 0x3000 || k == 0xFEFF
  }

  /** Unary plus on a one-character string: a digit gives its value, white
      space gives 0, anything else NaN. */
  function ToNumber(c: char): (v: SeedValue)
    ensures v == Num(1) <==> c == '1'
  {
    if '0' <= c <= '9' then Num(c as int - '0' as int)
    else if IsJsWhiteSpace(c) then Num(0)
    else NaN
  }

  /** JavaScript truthiness of a seed value: only a non-zero number is truthy. */
  predicate Truthy(v: SeedValue)
  {
    v.Num? && v.n != 0
  }

  /** The alive flag of a seeded cell: a truthy seed value makes the cell
      alive when it is the number 1, a falsy one keeps the flag of the dead
      placeholder record. */
  function SeededAlive(v: SeedValue): (alive: bool)
    ensures alive <==> v == Num(1)
  {
    if Truthy(v) then v == Num(1) else false
  }

  /** The alive flags of the n cells built from a seed string: position i is
      alive exactly when the seed has a '1' there. Characters beyond n are
      ignored and positions beyond the seed are dead. */
  function SeedLives(seed: string, n: nat): (lives: seq<bool>)
    ensures |lives| == n
    ensures forall i :: 0 <= i < n ==> (lives[i] <==> i < |seed| && seed[i] == '1')
  {
    seq(n, i requires 0 <= i < n =>
      SeededAlive(if i < |seed| then ToNumber(seed[i]) else Undefined))
  }

  // ---------------------------------------------------------------------
  // Neighbours
  // ---------------------------------------------------------------------

  /** Whether (x, y) is a live cell: false off the board, the flag of the
      cell on it. */
  function AliveAt(a: seq<bool>, size: nat, x: int, y: int): (alive: bool)
    requires |a| == size * size
    ensures alive ==> InGrid(size, x, y)
  {
    if InGrid(size, x, y) then IndexInGrid(size, x, y); a[Index(size, x, y)] else false
  }

  /** How many of the displacements ds lead from (x, y) to a live cell on the board. */
  function CountAlive(a: seq<bool>, size: nat, x: int, y: int, ds: seq<Offset>): (n: nat)
    requires |a| == size * size
    ensures n <= |ds|
  {
    if ds == [] then 0
    else (if AliveAt(a, size, x + ds[0].0, y + ds[0].1) then 1 else 0)
         + CountAlive(a, size, x, y, ds[1..])
  }

  /** The number of the eight neighbours of (x, y) that are on the board and alive. */
  function LiveNeighbours(a: seq<bool>, size: nat, x: int, y: int): (n: nat)
    requires |a| == size * size
    ensures n <= 8
  {
    CountAlive(a, size, x, y, Offsets)
  }

  /** The live-neighbour count of every cell, in flat order. */
  function Counts(a: seq<bool>, size: nat): (counts: seq<int>)
    requires size > 0 && |a| == size * size
    ensures |counts| == |a|
    ensures forall i :: 0 <= i < |a| ==> 0 <= counts[i] <= 8
  {
    seq(|a|, i requires 0 <= i < |a| => LiveNeighbours(a, size, Col(size, i), Row(size, i)))
  }

  // ---------------------------------------------------------------------
  // The rule and one generation
  // ---------------------------------------------------------------------

  /** B3/S23: whether a cell with the given state and live-neighbour count is
      alive in the next generation. */
  function Rule(alive: bool, count: int): (next: bool)
    ensures alive && (count < 2 || count > 3) ==> !next
    ensures !alive && count == 3 ==> next
    ensures !(alive && (count < 2 || count > 3)) && !(!alive && count == 3) ==> next == alive
    ensures next <==> count == 3 || (alive && count == 2)
  {
    if alive then (if count < 2 || count > 3 then false else alive)
    else (if count == 3 then true else alive)
  }

  /** The next alive flags computed from each cell's flag and its stored count. */
  function NextLives(a: seq<bool>, counts: seq<int>): (next: seq<bool>)
    requires |a| == |counts|
    ensures |next| == |a|
    ensures forall i :: 0 <= i < |a| && next[i] ==> counts[i] == 2 || counts[i] == 3
    ensures forall i :: 0 <= i < |a| && next[i] && !a[i] ==> counts[i] == 3
  {
    seq(|a|, i requires 0 <= i < |a| => Rule(a[i], counts[i]))
  }

  /** One generation: count every cell's live neighbours, then apply the rule. */
  function Step(a: seq<bool>, size: nat): (next: seq<bool>)
    requires size > 0 && |a| == size * size
    ensures |next| == |a|
    ensures forall i :: 0 <= i < |a| ==>
      (next[i] <==> LiveNeighbours(a, size, Col(size, i), Row(size, i)) == 3
                    || (a[i] && LiveNeighbours(a, size, Col(size, i), Row(size, i)) == 2))
  {
    NextLives(a, Counts(a, size))
  }

  /** The board after k generations. */
  function Generations(a: seq<bool>, size: nat, k: nat): (after: seq<bool>)
    requires size > 0 && |a| == size * size
    ensures |after| == |a|
  {
    if k == 0 then a else Step(Generations(a, size, k - 1), size)
  }

  // ---------------------------------------------------------------------
  // Extinction
  // ---------------------------------------------------------------------

  predicate AllDead(a: seq<bool>)
  {
    forall i :: 0 <= i < |a| ==> !a[i]
  }

  /** On a board with no live cell, no cell has a live neighbour. */
  lemma {:induction false} NoLifeNoNeighbours(a: seq<bool>, size: nat, x: int, y: int, ds: seq<Offset>)
    requires |a| == size * size && AllDead(a)
    ensures CountAlive(a, size, x, y, ds) == 0
  {
    if ds != [] {
      var tx, ty := x + ds[0].0, y + ds[0].1;
      if InGrid(size, tx, ty) {
        IndexInGrid(size, tx, ty);
        assert !a[Index(size, tx, ty)];
      }
      NoLifeNoNeighbours(a, size, x, y, ds[1..]);
    }
  }

  /** An empty board stays empty for one generation. */
  lemma DeadBoardStaysDead(a: seq<bool>, size: nat)
    requires size > 0 && |a| == size * size && AllDead(a)
    ensures AllDead(Step(a, size))
  {
    forall i | 0 <= i < |a|
      ensures !Step(a, size)[i]
    {
      NoLifeNoNeighbours(a, size, Col(size, i), Row(size, i), Offsets);
    }
  }

  /** An empty board stays empty for ever. */
  lemma {:induction false} ExtinctionIsFinal(a: seq<bool>, size: nat, k: nat)
    requires size > 0 && |a| == size * size && AllDead(a)
    ensures AllDead(Generations(a, size, k))
  {
    if k > 0 {
      ExtinctionIsFinal(a, size, k - 1);
      DeadBoardStaysDead(Generations(a, size, k - 1), size);
    }
  }

  /** A seed without a '1' gives a board on which nothing ever lives. */
  lemma SeedWithoutOnesNeverLives(seed: string, size: nat, k: nat)
    requires size > 0 && '1' !in seed
    ensures AllDead(Generations(SeedLives(seed, size * size), size, k))
  {
    var a := SeedLives(seed, size * size);
    forall i | 0 <= i < |a| ensures !a[i] {
      if i < |seed| {
        assert seed[i] in seed;
      }
    }
    ExtinctionIsFinal(a, size, k);
  }

  // ---------------------------------------------------------------------
  // Counting by scattering: the engine's loop adds, for every live cell in
  // flat order, one to each neighbour. After the cells below `bound` have
  // been processed, a cell holds the number of its live neighbours whose
  // flat position is below `bound`.
  // ---------------------------------------------------------------------

  /** How many of the displacements ds lead from (x, y) to a live cell on the
      board whose flat position is below bound. */
  ghost function CountAliveBefore(a: seq<bool>, size: nat, x: int, y: int, ds: seq<Offset>, bound: int): nat
    requires |a| == size * size
  {
    if ds == [] then 0
    else (if AliveAt(a, size, x + ds[0].0, y + ds[0].1) && Index(size, x + ds[0].0, y + ds[0].1) < bound
          then 1 else 0)
         + CountAliveBefore(a, size, x, y, ds[1..], bound)
  }

  /** Before any cell has been processed, nothing has been counted. */
  lemma {:induction false} CountAliveBeforeStart(a: seq<bool>, size: nat, x: int, y: int, ds: seq<Offset>)
    requires |a| == size * size
    ensures CountAliveBefore(a, size, x, y, ds, 0) == 0
  {
    if ds != [] {
      var tx, ty := x + ds[0].0, y + ds[0].1;
      if InGrid(size, tx, ty) {
        IndexInGrid(size, tx, ty);
      }
      CountAliveBeforeStart(a, size, x, y, ds[1..]);
    }
  }

  /** Once every cell has been processed, every live neighbour has been counted. */
  lemma {:induction false} CountAliveBeforeEnd(a: seq<bool>, size: nat, x: int, y: int, ds: seq<Offset>)
    requires |a| == size * size
    ensures CountAliveBefore(a, size, x, y, ds, size * size) == CountAlive(a, size, x, y, ds)
  {
    if ds != [] {
      var tx, ty := x + ds[0].0, y + ds[0].1;
      if InGrid(size, tx, ty) {
        IndexInGrid(size, tx, ty);
      }
      CountAliveBeforeEnd(a, size, x, y, ds[1..]);
    }
  }

  /** Processing cell i adds one to the count of (x, y) exactly when cell i
      is alive and lies at one of the displacements ds from (x, y). */
  lemma {:induction false} CountAliveBeforeNext(a: seq<bool>, size: nat, x: int, y: int, ds: seq<Offset>, i: int)
    requires |a| == size * size && 0 <= i < size * size && Distinct(ds)
    ensures size > 0
    ensures CountAliveBefore(a, size, x, y, ds, i + 1)
         == CountAliveBefore(a, size, x, y, ds, i)
            + (if a[i] && (Col(size, i) - x, Row(size, i) - y) in ds then 1 else 0)
  {
    CoordsOfIndex(size, i);
    if ds != [] {
      var d := ds[0];
      var tx, ty := x + d.0, y + d.1;
      var target := (Col(size, i) - x, Row(size, i) - y);
      assert Distinct(ds[1..]) by {
        forall j, k | 0 <= j < k < |ds[1..]| ensures ds[1..][j] != ds[1..][k] {
          assert ds[1..][j] == ds[j + 1] && ds[1..][k] == ds[k + 1];
        }
      }
      CountAliveBeforeNext(a, size, x, y, ds[1..], i);
      if InGrid(size, tx, ty) {
        IndexInGrid(size, tx, ty);
      }
      assert (AliveAt(a, size, tx, ty) && Index(size, tx, ty) == i) <==> (a[i] && d == target);
      assert target in ds <==> d == target || target in ds[1..] by {
        assert ds == [d] + ds[1..];
      }
    }
  }
}
