# Cellular-automaton cave generator, modelled in Dafny

This project models the core of a small Rust program that generates a
cave-like dungeon map. A `Dungeon` holds a `width`, a `height` and rows
of `Tile`s (`Wall` or `Floor`), indexed `tiles[y][x]`. A new dungeon is
all walls. It is then seeded cell by cell from random draws and smoothed
by a cellular automaton. Each step counts the walls in every cell's Moore
neighbourhood, the eight surrounding cells. A neighbour outside the grid
counts as a wall. More than four wall neighbours gives a wall, fewer than
four a floor, and exactly four keeps the tile. The step is synchronous:
new tiles are written to a copy of the grid, which then replaces the
tiles. The driver runs at most seven steps and stops right after the
first step that changes nothing.

Files:

- `tiles.dfy` (module `Tiles`): the `Tile` and `Grid` values, the
  all-wall grid of a new dungeon, and the seeded grid.
- `automaton.dfy` (module `Automaton`): the pure specification. It holds
  `NeighborWalls`, `NextTile` and `StepSpec` (one synchronous step).
  `Iterate` applies `StepSpec` n times. `StepsTaken` gives the driver's
  step count. The lemmas about them are here too.
- `dungeon.dfy` (module `Generator`): the `Dungeon` class. Its fields are
  `width`, `height` and `tiles`. Its methods run the Rust program's loops and
  are proved against the functions above. The file also holds the driver
  loop `Generate` and the whole run `GenerateDungeon` (80x30, wall
  probability 0.45, at most 7 steps).

Helpers without a row of their own:

- `WallAt` (the per-neighbour test) serves `NeighborWalls`; `ChangesAt`
  (new tile against old tile) serves `StepChangesIff`.
- `StepBeforeLastChanged` (one index at a time) serves
  `StepsTakenEarlierStepsChanged`.
- `GridExt` (two grids equal cell by cell are equal) closes
  `InitializeRandom`, `SimulateStep`, `StepChangesIff`,
  `AllWallsFixedPoint`, `ThreeByThreeFloorStep` and
  `CertainWallsSeedAllWalls`.
- `OutsideNeighbors`, `OutsideAt`, `InsideWalls` and `InsideWallAt` serve
  the edge lemmas; `AllFloorCountsOutside` serves `ThreeByThreeFloorStep`;
  `FewWallsCount` and `IsNeighbor` serve `SynchronousStepExample`.
- `RowWalls`, `RowsWalls`, `RowsWallsComplete` serve the invariants of
  `CountWallNeighbors`; `ChangedBefore`, `ChangedBeforeNext`,
  `ChangedBeforeRowEnd` and `ChangedBeforeAll` serve those of
  `SimulateStep`.

The step is deterministic because `SimulateStep` is specified by a
function of the old grid. So applying it twice to the same grid gives
the same grid and the same flag.

`Dungeon::new` accepts any dimensions, zero included, and rejects
nothing. The constructor therefore has no precondition.

## Model

| member | source | states |
|---|---|---|
| `Tiles.AllWalls` | src/main.rs:23-26 | a new grid has exactly `height` rows of `width` tiles, and every tile is `Wall` |
| `Generator.Dungeon.constructor` | src/main.rs:23-26 | any dimensions are accepted; the dungeon's contents are the all-wall grid of those dimensions |
| `Tiles.Seeded` | src/main.rs:28-38 | seeding keeps the shape; a cell is a wall exactly when its draw is below the wall probability |
| `Generator.Dungeon.InitializeRandom` | src/main.rs:28-38 | the row-by-row overwrite keeps the dimensions and leaves exactly the seeded grid |
| `Tiles.CertainWallsSeedAllWalls` | src/main.rs:32-36 | when every draw is below the probability, seeding gives the all-wall grid |
| `Automaton.NeighborWalls` | src/main.rs:41-61 | the wall count over the eight neighbours (centre excluded, outside counted as wall) is at most 8 |
| `Generator.Dungeon.CountWallNeighbors` | src/main.rs:41-61 | the nested offset loops with the skipped centre return exactly `NeighborWalls` of the current grid, so at most 8, for any (x, y) |
| `Automaton.OutsideCountsAsWall` | src/main.rs:52-57 | the count is exactly the number of outside neighbour positions plus the walls among the inside neighbours, so every outside position adds one |
| `Automaton.SingleCellSeesEightWalls` | src/main.rs:49-54 | on any 1x1 grid all eight neighbours of (0,0) are outside and its count is 8 |
| `Automaton.CornerHasFiveOutsideNeighbors` | src/main.rs:49-57 | at corner (0,0) of a grid at least 2x2, exactly 5 neighbours are outside; the count is 5 plus the walls among the 3 inside neighbours |
| `Automaton.NextTile` | src/main.rs:72-78 | the new tile, read from the pre-step grid, is a wall exactly when more than 4 neighbours are walls, or exactly 4 are and the old tile is a wall; so >4 gives Wall, <4 gives Floor, exactly 4 keeps the old tile |
| `Automaton.StepSpec` | src/main.rs:63-87 | the synchronous step keeps `width`, `height` and every row's length |
| `Generator.Dungeon.SimulateStep` | src/main.rs:63-89 | the double-buffered step leaves exactly `StepSpec` of the pre-step grid, so every cell follows the rule on the old grid; it keeps the shape; it returns true iff the grid changed |
| `Automaton.StepChangesIff` | src/main.rs:80-82 | a step changes the grid iff the rule changes at least one cell, both directions |
| `Automaton.AllWallsCountEight` | src/main.rs:53-56 | in an all-wall grid every position's count is 8 |
| `Automaton.AllWallsFixedPoint` | src/main.rs:72-73 | the all-wall grid is a fixed point of the step, so the step reports no change |
| `Automaton.CornersBecomeWalls` | src/main.rs:52-73 | on any non-empty grid the four corners see at least 5 walls and are walls after a step |
| `Automaton.ThreeByThreeFloorStep` | src/main.rs:67-85 | a 3x3 all-floor grid steps to walls at the four corners and floors elsewhere |
| `Automaton.SynchronousStepExample` | src/main.rs:64-87 | on a 3x3 grid whose only wall is (0,1) the step gives walls exactly at the corners; (1,0) sees 4 walls in the old grid and stays a floor, while after an in-place update of (0,0) it would see 5 and become a wall |
| `Automaton.Iterate` | src/main.rs:140-148 | any number of steps keeps the grid's shape |
| `Automaton.IterateShift` | src/main.rs:140-148 | stepping once and then n times is the same as n + 1 steps |
| `Automaton.FixedPointStays` | src/main.rs:145-147 | after a step that changed nothing, further steps change nothing either |
| `Automaton.StepsTaken` | src/main.rs:140-148 | the driver takes at most `maxIterations` steps, and takes none only when the bound is 0 |
| `Automaton.StepsTakenEarlierStepsChanged` | src/main.rs:145-147 | every step before the last changed the grid, so the loop did not stop earlier |
| `Automaton.StepsTakenEndsAtFixedPoint` | src/main.rs:140-148 | if the driver stops before the bound, its last step changed nothing and the final grid is a fixed point |
| `Automaton.StableGridTakesOneStep` | src/main.rs:140-147 | on an already stable grid the driver performs exactly one step |
| `Automaton.AllWallSeedConvergesAtOnce` | src/main.rs:133-147 | when every draw is below the probability, the driver stops after one step with the all-wall grid |
| `Generator.Generate` | src/main.rs:140-148 | the loop performs exactly `StepsTaken` steps, so at most the bound and stopping after the first unchanged step; the final grid is that many synchronous steps of the initial one |
| `Generator.GenerateDungeon` | src/main.rs:133-148 | an 80x30 dungeon, seeded with probability 0.45 and run for at most 7 steps, ends as the specified number of steps of the seeded grid |

## Left out

- Rendering (`Dungeon::render`) and all terminal control: it is terminal I/O through a library that is not part of this model. The `?` error propagation from rendering is left out with it.
- The sleeps, the progress messages and the final key wait: these are timing and I/O, not behaviour.
- The random number generator: `draw(x, y)` is a parameter that stands for the number the generator yields for cell (x, y).
- Generator.Dungeon.InitializeRandom: models the draw and the probability as `real`, not `f64`; the comparison is the same, but floating-point rounding is not modelled.
- Generator.Dungeon.CountWallNeighbors: the model uses unbounded integers. In the Rust program the `as i32` casts at src/main.rs:49-53 truncate any coordinate or dimension of 2^31 or more, and the `+ dx` there can overflow (a panic in a debug build, a wrap in a release build). `simulate_step` passes only in-range coordinates, so inside the program this needs dimensions of 2^31 or more.
- Generator.Generate: returns the number of steps it ran; the Rust program does not return it. It is there so that the step bound and the early stop can be stated.
