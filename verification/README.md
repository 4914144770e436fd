# Conway's Game of Life: the reference-graph grid, modelled in Dafny

This project models the generation-advance engine of the reference-graph
Game of Life library in `src/lib.rs`. The library has three parts:

- a two-valued cell `State`;
- a `GOLCell` that holds a state and an explicit list of neighbour references;
- a `Grid` of rows of cells, with a neighbour lookup and the two-phase `step`.

In the library, cells are shared through reference-counted, runtime-borrowed
pointers. The model replaces them with an arena:

- the grid owns every cell in a sequence of rows (`seq<seq<Cell>>`);
- a cell's neighbour list is a sequence of `(row, column)` coordinates into that same grid;
- `Grids.ValidGrid` is the representation invariant: every stored coordinate names a cell of the grid.

A shared reference in the library can never dangle. In the model, this fact is
the invariant `ValidGrid`. `step` requires it and preserves it. Neighbour
lists are otherwise arbitrary: the library never deduplicates them, never
checks that an entry is adjacent, and never rejects a cell that lists itself.
The model does not either.

`step` is modelled functionally, in the same two phases as the library:

- `Grids.Stage` builds the staging buffer `new_states` row by row. Each row is pushed left to right, and each entry is computed from the current generation only.
- `Grids.Commit` then writes each staged state into its cell.
- `Grids.Step` is the composition of the two.

Because every next state is computed from the pre-step grid, no cell sees a
neighbour's updated value. The contract of `Step` says this directly: the
live-neighbour count is taken over the grid as it was before the step.

Modules:

- `Wrappers`: the `Option` type, used for the checked lookup.
- `Cells` (cells.dfy): `State`, its glyph, `Cell`, `NewCell` and `AddNeighbor`.
- `Grids` (grid.dfy): `Grid`, its constructors, the lookups, the live count, the transition rule, staging, commit and step.
- `GridProperties` (properties.dfy): lemmas about the live count and the step, and iterated generations.
- `Scenarios` (scenarios.dfy): a wiring helper that fills each list from the in-bounds 8-adjacent cells. It is used to state concrete runs: the blinker and the 2 by 2 block on 3 by 3 grids, and the 1 by 1 grid.

What the library does, and therefore what the model allows:

- The library stores whatever the wiring appends to a neighbour list. It never checks that an entry is adjacent, never limits the list to eight entries and never removes duplicates. So the model allows any list of in-bounds coordinates, including duplicates and the cell itself, and the live count counts a duplicate once per occurrence.
- Only the reference-graph variant exists in `src/lib.rs`. A value grid with on-demand geometric lookup is not part of the library, so it is not modelled.

## Model

| member | source | states |
|---|---|---|
| Cells.Glyph | src/lib.rs:42-49 | a live cell renders as '@' and a dead one as '.', and each glyph is produced by exactly one state |
| Cells.GlyphInjective | src/lib.rs:42-49 | two states render alike exactly when they are equal |
| Cells.NewCell | src/lib.rs:26-31 | a new cell has the given state and an empty neighbour list |
| Cells.AddNeighbor | src/lib.rs:33-35 | the list grows by exactly one entry at the end; earlier entries and the state are unchanged; the multiset gains one copy of the entry even if it was already present (no deduplication) |
| Cells.AddNeighborsAppends | src/lib.rs:33-35 | repeated `add_neighbor` calls append exactly the given entries, in call order, and keep the state |
| Cells.WiredCellStoresList | src/lib.rs:26-35 | a new cell wired with a list of neighbours stores exactly that list and the initial state |
| Grids.New | src/lib.rs:59-61 | the empty grid has no rows |
| Grids.WithCells | src/lib.rs:53-57 | the grid takes the given cell matrix as it is, irregular rows included |
| Grids.CellAt | src/lib.rs:64 | the checked lookup yields a cell exactly when the row exists and the column is within that row, and then it is the cell at that position |
| Grids.GetNeighbors | src/lib.rs:63-70 | for in-bounds coordinates (out-of-bounds is unreachable), returns the cell's stored list unchanged; on a valid grid every returned coordinate names a cell of the grid |
| Grids.AliveCount | src/lib.rs:81-91 | the live count over a neighbour list never exceeds the list length |
| Grids.Next | src/lib.rs:96-107 | a live cell stays alive exactly with 2 or 3 live neighbours; a dead cell becomes alive exactly with 3; every other case gives Dead |
| Grids.StageRow | src/lib.rs:80-109 | the staged row has one entry per cell of the row, and entry j is the rule applied to cell j's pre-step state and live count |
| Grids.StageRows | src/lib.rs:77-111 | each staged row has the length of its own grid row, and every entry is the next state of the matching cell |
| Grids.Stage | src/lib.rs:74-111 | the staging buffer has exactly the grid's shape, and every entry is the next state computed from the current generation |
| Grids.Commit | src/lib.rs:113-119 | every cell takes its staged state; the number of rows, every row length and every neighbour list are unchanged |
| Grids.CommitRow | src/lib.rs:115-117 | committing a row gives each cell its staged state and keeps its neighbour list |
| Grids.CommitRows | src/lib.rs:114-119 | committing rows keeps every row length and neighbour list and gives each cell its staged state |
| Grids.Step | src/lib.rs:73-120 | simultaneous update: each cell's new state is `Grids.NextStateAt` (the loop body of src/lib.rs:81-107), that is, the rule applied to its pre-step state and the live count of its list over the pre-step grid; the shape and all neighbour lists are preserved; the result is again a valid grid |
| GridProperties.StepFollowsRule | src/lib.rs:73-119 | after a step, a cell's state is B3/S23 applied to its old state and to the live count of its list taken over the old grid, and its list is unchanged |
| GridProperties.AliveCountIsIndexCount | src/lib.rs:81-91 | the count equals the number of list positions holding a live cell, so a duplicated entry is counted once per occurrence |
| GridProperties.AliveCountZeroIffNoneAlive | src/lib.rs:81-91 | the count is 0 exactly when no listed cell is alive |
| GridProperties.AliveCountFullIffAllAlive | src/lib.rs:81-91 | the count equals the list length exactly when every listed cell is alive |
| GridProperties.AliveCountAppend | src/lib.rs:83-90 | the count of a concatenated list is the sum of the counts of its parts |
| GridProperties.DuplicatesCountTwice | src/lib.rs:83-90 | a list repeated twice has twice the count: entries are not deduplicated |
| GridProperties.AliveCountFrame | src/lib.rs:82-90 | the count depends only on the current states at the listed coordinates |
| GridProperties.StepIsLocal | src/lib.rs:73-119 | two valid grids that agree on a cell and on the states of the cells it lists give that cell the same next state and list |
| GridProperties.NoNeighborsMeansDead | src/lib.rs:83 | a cell with an empty list has live count 0 and is Dead after a step, whatever its state was |
| GridProperties.StepOfEmptyGrid | src/lib.rs:59-61 | stepping the empty grid gives the empty grid |
| GridProperties.Generations | src/lib.rs:73-120 | after any number of steps, the grid keeps its shape, every neighbour list and its validity |
| GridProperties.FixedPointPersists | src/lib.rs:73-120 | a grid that one step leaves unchanged stays unchanged for any number of steps |
| Scenarios.AliveCountAround | src/lib.rs:81-91 | on a grid wired from 8-adjacency, the fold over a cell's list equals the number of live in-bounds surrounding cells |
| Scenarios.StepOfWired | src/lib.rs:73-120 | stepping a wired grid gives the wired grid of the states the rule prescribes for each cell |
| Scenarios.HorizontalGivesVerticalCell | src/lib.rs:96-107 | on a 3 by 3 grid with the middle row alive, the rule gives every cell the state of the middle-column pattern |
| Scenarios.VerticalGivesHorizontalCell | src/lib.rs:96-107 | on a 3 by 3 grid with the middle column alive, the rule gives every cell the state of the middle-row pattern |
| Scenarios.BlockGivesBlockCell | src/lib.rs:96-107 | every cell of a 3 by 3 grid holding a 2 by 2 block in a corner keeps its state under the rule |
| Scenarios.BlinkerTurnsVertical | src/lib.rs:73-120 | on a 3 by 3 grid, the middle row alive becomes the middle column alive, with every other cell dead |
| Scenarios.BlinkerTurnsHorizontal | src/lib.rs:73-120 | the vertical line turns back into the horizontal one |
| Scenarios.BlinkerHasPeriodTwo | src/lib.rs:73-120 | the blinker returns to its start after two generations |
| Scenarios.BlockIsStill | src/lib.rs:73-120 | a 2 by 2 block with dead cells on its open sides is unchanged by a step and by any number of generations |
| Scenarios.LoneCellDies | src/lib.rs:103-106 | the only cell of a 1 by 1 grid, having no neighbours, is dead after one step whatever its state |
| Scenarios.LoneAliveDies | src/lib.rs:103-106 | the only cell of a 1 by 1 grid, alive and without neighbours, is dead after one step |
| Scenarios.LoneDeadStaysDead | src/lib.rs:103-106 | the only cell of a 1 by 1 grid, dead and without neighbours, stays dead for any number of generations |

## Left out

- Shared ownership and runtime borrow checks (`Rc<RefCell<…>>`) are left out, and so is the panic on a conflicting borrow. The model uses index-based access into one owned structure instead. The two-phase buffer already keeps reads and writes apart.
- Aliasing that the arena cannot express is left out. In the library, one shared cell could sit at two grid positions, and a neighbour reference could point to a cell outside the grid. Every grid position in the model is a distinct cell, and every neighbour is a grid position.
- Grids.AliveCount: the library folds into an `i32`, which overflows once 2^31 listed cells are alive: a debug build panics, a release build wraps. The model counts with an unbounded natural number.
- The display and formatter plumbing is left out: `Display` for `GOLCell` and `State`, `Write`, and the space and newline padding of the renderer. Only the glyph mapping is modelled.
- `Default for Grid` (src/lib.rs:123-127) is left out because it only delegates to `Grid::new`.
- The wiring pass and any geometric neighbour lookup are not part of `src/lib.rs`. `Scenarios.Around` is this model's own wiring, used only to state concrete configurations; no property of the engine depends on it.
- The driver in `src/main.rs` is left out. It builds a striped pattern and prints it, which is input/output glue, and it also uses a `Cell` type that `src/lib.rs` does not define.
- External writes of a cell's state between steps are left out. A grid is built with its initial states instead (`Grids.WithCells`, `Scenarios.FromStates`).
