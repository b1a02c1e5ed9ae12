# Game of Life engine, modelled and verified in Dafny

This project models the cellular-automaton engine of a decorative Game of Life
animation: the `thisLife` closure of `index.js`. The engine holds a square
board of side `size` (21 in the shipped settings) as a
flat row-major array of `size * size` cell records `{alive, count}`, where
cell `(x, y)` sits at position `y * size + x`. It can

- build a board from a `'0'/'1'` seed string;
- recount, for every cell, its live neighbours: clear every count, then let
  each live cell add one to each of its eight neighbours that lie on the
  board (no wraparound);
- build the next generation with the B3/S23 rule (birth on 3, survival on 2
  or 3);
- read and write single cells with bounds checks, and force the cell under
  the mouse alive or dead.

Files:

- `geometry.dfy` (module `Geometry`): coordinates, the flat index, the eight
  neighbour offsets, and the arithmetic facts relating `y * size + x` to
  `i % size` and `i / size`.
- `rules.dfy` (module `Rules`): the game as pure functions on the alive
  flags: seeding (including JavaScript's `+c` conversion and truthiness),
  `LiveNeighbours`, the rule, one generation (`Step`) and k generations;
  extinction lemmas; and the ghost counting function used to prove that the
  engine's scatter-style counting loop computes `LiveNeighbours`.
- `engine.dfy` (module `Engine`): the class `Life`, one object per board
  array. Each record `{alive, count}` is represented by the same position in
  two parallel arrays `alive` and `count`. `thisLife(life)` wraps the
  caller's array without copying it, so the operations that write cells
  (`ResetCounts`, `AddToCount`, `UpdateNearbyCounts`, `UpdateAllCounts`,
  `SetAlive`, `SetDead`, `ForceAlive`, `ForceDead`) change the arrays in
  place and are visible to every holder of the same arrays; only
  `UpdateToNextStepLives` (and so `TakeStep`) allocates a new board. Each
  method is proved against the functions of `Rules` and of `Engine`
  (`Written`, `Forced`).
- `patterns.dfy` (module `Patterns`): the 2x2 block is a still life.

The main proof is `Engine.Life.UpdateAllCounts`: the source counts by
scattering (each live cell, in flat order, bumps its neighbours), while the
rule is defined by gathering (how many of my eight neighbours are alive).
The loop invariant says that after the first `i` cells have been processed,
each cell holds the number of its live neighbours whose flat position is below
`i` (`Rules.CountAliveBefore`); three lemmas show that this is 0 at the
start, grows by exactly the right amount per cell, and equals
`LiveNeighbours` at the end.

The forcing operations are a no-op when a mouse coordinate is missing or the
point is off the board, and also when a coordinate is exactly `0`, because
the guard tests the coordinates for JavaScript truthiness.
The still life proved is the 2x2 block; a filled 3x3 square is not one (its
centre has eight live neighbours and dies).

## Model

| member | source | states |
|---|---|---|
| `Geometry.OffsetsAreTheNeighbours` | index.js:159-168 | the eight listed displacements are exactly the displacements to the surrounding cells: each coordinate moves by at most one and the cell itself is excluded |
| `Geometry.OffsetsDistinct` | index.js:159-168 | no displacement is listed twice, so no neighbour is bumped twice |
| `Geometry.IndexInGrid` | index.js:194-197 | an on-board cell's position `y * size + x` lies inside the array, and `i % size`, `floor(i / size)` give back `x` and `y` |
| `Geometry.CoordsOfIndex` | index.js:183-185 | for every array position `i`, the cell `(i % size, floor(i / size))` is on the board and its position is `i` |
| `Geometry.IndexInjective` | index.js:194-197 | two on-board cells with the same position are the same cell |
| `Rules.ToNumber` | index.js:127 | the unary plus of a seed character is the number 1 exactly for `'1'` |
| `Rules.SeededAlive` | index.js:135 | a seeded cell is alive exactly when its seed value is the number 1; any other value, falsy or not, leaves it dead |
| `Rules.SeedLives` | index.js:125-137 | seeding yields exactly `n` cells; cell `i` is alive iff `i < len(seed)` and `seed[i] == '1'`, so extra characters are ignored and a short seed leaves the rest dead |
| `Rules.AliveAt` | index.js:192-198 | a cell reported alive is on the board: off-board coordinates are dead |
| `Rules.CountAlive` | index.js:157-170 | the number of displacements leading to a live on-board cell never exceeds the number of displacements |
| `Rules.LiveNeighbours` | index.js:141-189 | a cell has at most eight live neighbours |
| `Rules.Counts` | index.js:180-189 | one count per cell, each between 0 and 8 |
| `Rules.Rule` | index.js:238-247 | B3/S23: a live cell with fewer than 2 or more than 3 dies, a dead cell with exactly 3 is born, every other cell keeps its state; equivalently alive next iff count is 3, or alive and count is 2 |
| `Rules.NextLives` | index.js:225-235 | from stored counts, a cell alive next has count 2 or 3, and a newly born cell has count 3 |
| `Rules.Step` | index.js:250-255 | one generation: a cell is alive next iff it has exactly 3 live neighbours, or is alive with exactly 2 |
| `Rules.Generations` | index.js:97 | repeated steps keep the board's size |
| `Rules.NoLifeNoNeighbours` | index.js:157-170 | on a board with no live cell every neighbour count is 0 |
| `Rules.DeadBoardStaysDead` | index.js:250-255 | an all-dead board steps to an all-dead board |
| `Rules.ExtinctionIsFinal` | index.js:250-255 | an all-dead board stays all dead after any number of steps |
| `Rules.SeedWithoutOnesNeverLives` | index.js:125-137 | a seed with no `'1'` (an all-zero string in particular) gives a board on which no cell is ever alive |
| `Rules.CountAliveBeforeStart` | index.js:182 | right after the reset, before any cell is processed, every count is 0 |
| `Rules.CountAliveBeforeNext` | index.js:183-187 | processing cell `i` adds one to a cell's count exactly when cell `i` is alive and is one of its neighbours |
| `Rules.CountAliveBeforeEnd` | index.js:183-188 | once every cell is processed, each count is the number of live on-board neighbours |
| `Engine.Written` | index.js:200-222 | a write with an undefined or off-board coordinate changes nothing; otherwise afterwards the cell reads as the written flag and no other position changed |
| `Engine.WrittenChangesOnlyThatCell` | index.js:200-222 | after a write every other cell reads as before, off-board cells included |
| `Engine.WrittenIdempotent` | index.js:200-222 | writing the same flag twice is the same as writing it once |
| `Engine.ForceTarget` | index.js:278-291 | no cell when either coordinate is falsy (missing or exactly 0); otherwise the cell whose unit square contains the point, each coordinate rounded down |
| `Engine.Forced` | index.js:278-291 | forcing keeps the board's size |
| `Engine.ForcedOnlyOnTheBoard` | index.js:278-291 | forcing with a missing coordinate or at a point off the board leaves the board unchanged; inside the board (away from 0) it sets the cell containing the point |
| `Engine.Life.Blank` | index.js:226 | a fresh board of `size * size` cells |
| `Engine.Life.FromSeed` | index.js:125-137 | for a non-empty seed string, a fresh board whose flags follow the seed and whose counts are the live-neighbour counts |
| `Engine.Life.IsAlive` | index.js:192-198 | false off the board whatever the array holds; otherwise the flag at `y * size + x` |
| `Engine.Life.GetCount` | index.js:175-178 | the stored count at `y * size + x` with no bounds check: `(size, y)` reads the first cell of the next row |
| `Engine.Life.CurrentCountIsLiveNeighbours` | index.js:175-178 | once the counts are current, the count read at an on-board cell is its number of live neighbours |
| `Engine.Life.IsAliveNextStep` | index.js:238-247 | B3/S23 applied to the cell's flag and stored count |
| `Engine.Life.ResetCounts` | index.js:141-144 | every count becomes 0 and the flags are untouched |
| `Engine.Life.AddToCount` | index.js:147-154 | an on-board cell's count goes up by one and nothing else changes; off the board nothing changes |
| `Engine.Life.UpdateNearbyCounts` | index.js:157-172 | if (x, y) is alive, every cell that is one of its neighbours gains exactly one; nothing else changes |
| `Engine.Life.UpdateAllCounts` | index.js:181-189 | afterwards every count equals the number of live on-board neighbours of its cell; the flags are unchanged |
| `Engine.Life.SetAlive` | index.js:201-210 | the board after is `Written(before, x, y, true)` |
| `Engine.Life.SetDead` | index.js:213-222 | the board after is `Written(before, x, y, false)` |
| `Engine.Life.UpdateToNextStepLives` | index.js:225-235 | a new board: each flag is the rule applied to the old flag and stored count, each count copied; the old board is untouched |
| `Engine.Life.TakeStep` | index.js:250-255 | the counts of this board are recomputed in place, and the new board is `Step` of its flags, whatever the counts held before |
| `Engine.Life.ForceAlive` | index.js:278-283 | the board after is `Forced(before, cx, cy, true)` |
| `Engine.Life.ForceDead` | index.js:286-291 | the board after is `Forced(before, cx, cy, false)` |
| `Patterns.LiveNeighboursUnfolded` | index.js:159-169 | the live-neighbour count is the sum over the eight surrounding cells |
| `Patterns.BlockIsStill` | index.js:250-255 | a 2x2 block of live cells on an otherwise empty board is unchanged by one step |

## Left out

- The initialisation without a seed (index.js:116-123), taken by `thisLife()` with no argument and also by the empty seed string `''`, which is falsy: it fills the array with one shared record, so every cell aliases the same object and the first write to any cell changes them all; the animation never takes this path.
- Engine.Life.FromSeed: requires a non-empty seed, because the empty string takes the unseeded, shared-record path above rather than the seeded one.
- `printLog` (index.js:258-270): console output only; the `step` argument of `takeStep` only feeds it, so `TakeStep` takes no argument.
- The presentation layer: `updateCss`, `setPenCss`, `initializePenCss`, `updateHeader`, `len`, `color` (random wobble, float formatting, style tags).
- The frame loop `drawFrame` and `main` (timers, `requestAnimationFrame`, `Date.now`): one frame is an optional `ForceAlive`, then an optional `ForceDead` (two independent tests, so both can apply), then an optional `TakeStep`, skipped while a resize is pending; the members above cover each of these.
- The mouse and resize handlers, `updateMouseXY`, `getUnitInPx`, `stopTransitionsOnResize`: browser events and pixel conversions. Mouse coordinates enter the model as `Option<real>` values, `None` standing for `null`/`undefined`; a NaN coordinate is not modelled.
- Coordinates passed to `isAlive`, `addToCount`, `setAlive` and `setDead` are integers. In JavaScript a fractional or `null` coordinate there would index the array with a non-integer or coerce `null` to 0; no caller in the core does this.
- Engine.Life.GetCount: requires the flat position to exist; in JavaScript a position outside the array reads `undefined.count` and throws, which the engine never does.
- Seeds are sequences of Unicode characters; JavaScript's `split('')` splits into UTF-16 code units, so a character outside the Basic Multilingual Plane would occupy two positions there.
- Counts are unbounded integers; they never exceed 8, so JavaScript's number range plays no part.
