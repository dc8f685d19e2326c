# Game of Life engine, verified in Dafny

This project models the simulation engine of a JavaScript Game of Life: the
`Universe` class of `js-game-of-life/index.js`. A universe holds a fixed
128 by 128 grid of cells (1 live, 0 dead), stored as a list of rows. The
constructor seeds it in row-major order from a running counter. A cell is live
when the counter is even or a multiple of 7. `getLiveNeighborCount` adds up the
eight Moore neighbours through `setCellValueHelper`, which reads a cell when
the coordinate is on the grid and gives 0 otherwise: the grid has hard edges,
with no wrap-around. `tick` builds a whole new grid from the current one by
Conway's four rules, with a final "keep the old value" branch, and then
replaces the grid in one assignment.

Two modules:

- `LifeSpec` (`life_spec.dfy`) holds the pure specification. It defines the
  grid shape, the seeding rule, the value read at a coordinate, the
  eight-term neighbour sum, the rule branch taken (`RuleFor`), the next state
  of a cell, the next generation `NextGen`, and `Iterate` for several ticks.
  Its lemmas relate these to independent definitions. The neighbour sum is
  the size of the set of live on-grid Moore neighbours. Seeding read in
  row-major order follows the running-index rule. It also proves locality,
  extinction stability, hard-edge facts, and
  the period-2 blinker.
- `Life` (`universe.dfy`) holds the `Universe` class. `width` and `height`
  are constant fields and `cells` is a field that `Tick` reassigns. The
  constructor and `Tick` are loops with invariants, proved against
  `IsSeeded` and `NextGen`. The read-only methods state what they return.

The source hard-codes a 128 by 128 grid and has no operation that fails. So
the constructor takes no size and cannot fail, and `SetCellValueHelper` reads
0 off the grid. The specification functions and the lemmas work for any size.
Read in row-major order, the seeding rule gives the 4 by 4 grid
`1,0,1,0,1,0,1,1,1,0,1,0,1,0,1,0`, which `SeedPattern4x4` proves.

## Model

| member | source | states |
|---|---|---|
| `Life.Universe.constructor` | js-game-of-life/index.js:7-25 | builds exactly `height` rows of `width` cells, both 128, with cell (r, c) equal to the seed of index r*width + c; every cell is 0 or 1 |
| `Life.Universe.GetWidth` | js-game-of-life/index.js:27-29 | returns the fixed width and changes nothing |
| `Life.Universe.GetHeight` | js-game-of-life/index.js:31-33 | returns the fixed height and changes nothing |
| `Life.Universe.GetCells` | js-game-of-life/index.js:35-37 | returns the current grid, a `height` by `width` grid of 0/1 values, and changes nothing |
| `Life.Universe.SetCellValueHelper` | js-game-of-life/index.js:52-57 | returns `cells[row][col]` for an on-grid coordinate and 0 for any other; the result is 1 exactly when that cell exists and is live; it changes nothing |
| `Life.Universe.GetLiveNeighborCount` | js-game-of-life/index.js:39-50 | the eight-read sum equals the number of live on-grid cells among the eight Moore neighbours, and lies in 0..8 |
| `Life.Universe.Tick` | js-game-of-life/index.js:59-100 | the new grid is `NextGen` of the pre-tick grid; dimensions and the 0/1 invariant are kept |
| `Life.Universe.NextRowOf` | js-game-of-life/index.js:62-95 | the row built by the inner loop of `tick`, rule by rule, equals row `row` of `NextGen` of the current grid, and holds only 0/1 |
| `Life.QueriesAreRepeatable` | js-game-of-life/index.js:27-37 | two rounds of `getWidth`/`getHeight`/`getCells` with no tick between return identical results |
| `LifeSpec.SeedCell` | js-game-of-life/index.js:16-20 | the seed of a running index is 0 or 1, and 1 for every even index |
| `LifeSpec.FlattenSeededFrom` | js-game-of-life/index.js:12-24 | rows seeded from a running index starting at `base`, read in row-major order, give the seeds of base, base+1, ... |
| `LifeSpec.SeededRowMajor` | js-game-of-life/index.js:12-24 | in the seeded grid, the cell at row-major position i is live iff i is even or a multiple of 7 |
| `LifeSpec.SeedPattern4x4` | js-game-of-life/index.js:12-21 | the seeded 4 by 4 grid reads 1,0,1,0,1,0,1,1,1,0,1,0,1,0,1,0 in row-major order |
| `LifeSpec.SeedingIsDeterministic` | js-game-of-life/index.js:12-24 | two seeded grids of the same size are equal |
| `LifeSpec.SeededIsBinary` | js-game-of-life/index.js:16-20 | every cell of a seeded grid is 0 or 1 |
| `LifeSpec.CellValue` | js-game-of-life/index.js:52-57 | on a 0/1 grid the value read is 0 or 1, and is 1 exactly when the coordinate is on the grid and the cell is live |
| `LifeSpec.NeighborCount` | js-game-of-life/index.js:39-50 | on a 0/1 grid the eight-read sum lies in 0..8 |
| `LifeSpec.NeighborCountIsSumAlong` | js-game-of-life/index.js:40-48 | the eight reads are the reads along the Moore offsets (-1..1)x(-1..1) without (0,0) |
| `LifeSpec.LiveAlongCons` | js-game-of-life/index.js:52-57 | the live cells along a list of offsets are the first offset when its cell is on the grid and live, together with the live cells along the rest |
| `LifeSpec.SumAlongCountsLive` | js-game-of-life/index.js:39-57 | over distinct offsets, the sum of the values read equals the number of live on-grid cells at those offsets |
| `LifeSpec.LiveNeighborsAlongMoore` | js-game-of-life/index.js:39-50 | the set of live neighbour offsets is the set of live cells along the eight Moore offsets |
| `LifeSpec.NeighborCountIsLiveNeighbors` | js-game-of-life/index.js:39-57 | the neighbour count is the size of the set of live on-grid Moore neighbours, at most 8 |
| `LifeSpec.CornerHasAtMostThree` | js-game-of-life/index.js:52-57 | hard edges: the top-left and bottom-right corners see at most three live neighbours |
| `LifeSpec.CentreOnlyCorners` | js-game-of-life/index.js:39-57 | on a 3 by 3 grid with only the centre live, each corner counts exactly one neighbour |
| `LifeSpec.RuleFor` | js-game-of-life/index.js:68-92 | a live cell always takes one of the first three rules; a dead cell takes reproduction iff n == 3 and otherwise the final "stay the same" branch, so that branch is reached only by cells that are not live |
| `LifeSpec.NextCell` | js-game-of-life/index.js:64-92 | for a 0/1 cell the next state is 0/1, and is 1 iff (live and n in {2,3}) or (dead and n == 3) |
| `LifeSpec.NextRow` | js-game-of-life/index.js:62-95 | a row of the next generation has `width` cells |
| `LifeSpec.NextGen` | js-game-of-life/index.js:60-99 | the next generation has `height` rows of `width` cells and is 0/1 when the grid is |
| `LifeSpec.NextGenAt` | js-game-of-life/index.js:64-92 | a cell of the next generation is 1 iff (old cell live and 2 or 3 live on-grid neighbours) or (old cell dead and exactly 3), counted on the pre-tick grid |
| `LifeSpec.NextGenIsLocal` | js-game-of-life/index.js:59-100 | a cell of the next generation depends only on the 3 by 3 window of the pre-tick grid around it |
| `LifeSpec.NextGenCell` | js-game-of-life/index.js:64-92 | a cell of the next generation is the rule chain applied to the old cell and its eight-read neighbour count |
| `LifeSpec.VerticalStep` | js-game-of-life/index.js:64-92 | for each cell of the 5 by 5 vertical blinker, the rule chain with its neighbour count gives that cell of the horizontal blinker |
| `LifeSpec.HorizontalStep` | js-game-of-life/index.js:64-92 | for each cell of the 5 by 5 horizontal blinker, the rule chain with its neighbour count gives that cell of the vertical blinker |
| `LifeSpec.VerticalToHorizontal` | js-game-of-life/index.js:59-100 | one tick of three live cells in a vertical line, away from the edges, gives three in a horizontal line through the same centre |
| `LifeSpec.HorizontalToVertical` | js-game-of-life/index.js:59-100 | one tick of the horizontal line gives the vertical line back |
| `LifeSpec.BlinkerHasPeriodTwo` | js-game-of-life/index.js:59-100 | the blinker differs from itself after one tick and is back in place after two |
| `LifeSpec.Iterate` | js-game-of-life/index.js:59-100 | any number of ticks keeps the dimensions and the 0/1 invariant |
| `LifeSpec.Dead` | js-game-of-life/index.js:86-91 | the all-dead grid has the given size and no live cell |
| `LifeSpec.DeadIsStable` | js-game-of-life/index.js:86-91 | one tick of the all-dead grid is all-dead |
| `LifeSpec.DeadStaysDead` | js-game-of-life/index.js:59-100 | the all-dead grid stays all-dead after any number of ticks |

## Left out

- Canvas sizing and drawing (`drawGrid`, `drawCells`, js-game-of-life/index.js:110-114, 129-188): these are drawing-surface I/O with no engine state.
- The animation loop and the play/pause button (js-game-of-life/index.js:116-127, 190-213, 258-260): these are frame-scheduler and event-listener wiring. `Iterate` stands for the repeated calls to `tick`.
- The frames-per-second overlay (js-game-of-life/index.js:215-256): it reads a clock, uses floating-point division, `Infinity` and rounding, and writes to the page.
- `greet` in hello-wasm/src/lib.rs: it only formats a string for a foreign `alert` function.
- `Life.Universe.GetCells`: returns the grid as a value. In the source it returns the live array, which a caller could mutate. The only caller reads it, so aliasing is not modelled.
- `Life.Universe.NextRowOf`: the inner loop of `tick` is a method of its own, called once per row by `Tick`. Behaviour is unchanged.
- JavaScript numbers are doubles. Every value here is a small integer (cells 0/1, counts up to 8, the seeding counter up to 16384), so the model uses unbounded integers.
