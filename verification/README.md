# Conway's Game of Life engine, modelled in Dafny

This project models the simulation engine of `FullScreenGrid` in `game.py`, a
full-screen Tkinter Game of Life. It covers three parts:

- the bounded Moore-neighbourhood count (`count_neighbors`);
- the double-buffered generation step (`next_generation`), together with the
  change list it hands to the renderer and the renderer's `cell_ids` map,
  which is modelled as a set of positions;
- clipped pattern stamping (`load_pattern`), with its literal table of nine
  named patterns.

The grid is a `rows x cols` rectangle of booleans with finite borders. It does
not wrap. Positions off the board do not exist, so they are never alive.

The project has one module per file:

| module | file | contents |
|---|---|---|
| `Cells` | `cells.dfy` | the `Cell` record, the `Grid` datatype, the all-dead grid, single-cell writes |
| `Neighborhood` | `neighborhood.dfy` | the neighbour count as game.py's `count_neighbors` loops walk it, its reference set, and the imperative `CountNeighbors` |
| `Generation` | `generation.dfy` | the B3/S23 rule, the reference step `Step`, the change-list contract, the row-major `Diff`, and the imperative `NextGeneration` (per cell, per row, whole grid) |
| `Render` | `render.dfy` | the `cell_ids` key set: its first fill and its update along the change list |
| `Patterns` | `patterns.dfy` | the pattern table, `Stamp` and `LoadPattern` |
| `KnownPatterns` | `known_patterns.dfy` | the documented behaviour of `block`, `blinker` and `glider` |

Every imperative method has a pure partner:

- `CountNeighbors` is proved equal to the size of the set `LiveNeighbors`.
- `NextGeneration` is proved equal to the pointwise `Step`, and its changes are
  proved to meet the change-list predicate `IsChangeList`.
- The change list is tied to `Apply`, the round trip from the old grid to the
  new one. It is also proved to be the unique list that meets the contract.
- The renderer's key set is proved equal to `LiveSet`.

## Model

| member | source | states |
|---|---|---|
| Cells.Empty | game.py:143 | The fresh grid is a valid rows x cols rectangle in which no position is alive. |
| Cells.SetCell | game.py:230-231 | Writing one in-bounds cell sets exactly that cell and leaves every other cell and the dimensions unchanged. |
| Neighborhood.NeighborCount | game.py:233-243 | The neighbour count of any position is a natural number of at most 8. |
| Neighborhood.CountInIsCardinality | game.py:234-242 | Walked over positions with no repeats, the count is the size of the set of positions it adds one for: live, on the board and not the centre. |
| Neighborhood.CountMatchesReference | game.py:233-243 | The count equals the number of live cells at Chebyshev distance exactly one that exist on the board, so it never counts the cell itself or an off-board position. |
| Neighborhood.CountUnfolded | game.py:234-242 | The count is the sum of eight 0/1 terms, one per neighbour position, each 0 off the board. |
| Neighborhood.CountIsLocal | game.py:238-241 | Two grids of the same shape that agree on the eight on-board neighbours give the same count, whatever the centre and the rest of the board hold. |
| Neighborhood.CountNeighbors | game.py:233-243 | The nested loops over -1, 0, 1, which skip the centre and test the bounds before every read, return the size of the reference neighbour set. The result is at most 8. |
| Generation.Rule | game.py:254-259 | A cell is alive next exactly when it has 3 neighbours, or is alive with 2. Every other case gives a dead cell. |
| Generation.NextStateByNeighbors | game.py:251-259 | A cell's next state is the rule applied to its old state and to the size of its live on-board neighbour set. |
| Generation.Step | game.py:245-264 | The next generation has the old dimensions. Every cell is the rule applied to that cell's old state and its count on the old grid. |
| Generation.Diff | game.py:249-262 | The row-major diff meets the change-list contract: every entry lies on the board, really flipped and carries its new state; every flipped cell is listed; entries are strictly increasing in row-major order. |
| Generation.RowDiffPositions | game.py:250-262 | The changes of one row list exactly the columns whose state differs between the old and new grid. |
| Generation.DiffRowsSorted | game.py:248-262 | The changes of the first k rows are strictly increasing in row-major order, so no position is listed twice. |
| Generation.DiffRowsIsChangeList | game.py:248-262 | The changes of the first k rows lie above row k, really flipped, cover exactly the flipped cells of those rows and are strictly sorted. |
| Generation.Apply | game.py:261-264 | Applying a list of in-bounds entries keeps the grid's dimensions. |
| Generation.ApplyPointwise | game.py:261-262 | When every entry carries the new state of its cell, applying the list gives the new state on listed positions and the old state elsewhere. |
| Generation.ApplyChangeList | game.py:246-264 | Round trip: the old grid with a change list applied is the new grid. |
| Generation.ChangeListIsUnique | game.py:249-262 | Any list meeting the change-list contract is exactly the row-major diff, so the contract determines the list. |
| Generation.AllDeadIsStable | game.py:245-264 | An all-dead grid steps to itself with an empty change list. |
| Generation.NextCell | game.py:251-259 | The state written into the fresh grid for one cell is the rule on its old state and its count taken on the old grid. |
| Generation.NextRow | game.py:249-262 | One row of the traversal yields that row of the next generation and that row's changes, left to right. |
| Generation.NextRows | game.py:246-262 | The traversal fills every row of the fresh grid with the next generation. It reads only the old grid. The collected changes are the row-major diff of all rows. |
| Generation.NextGeneration | game.py:245-264 | The grid after the step is the pointwise rule applied to the old grid, and the changes form its change list. |
| Render.Update | game.py:270-286 | A birth entry makes its key present, a death entry makes it absent, and every other key is unchanged. |
| Render.RenderPointwise | game.py:270-286 | After a list whose entries carry the new states, a listed position is a key exactly when it is alive in the new grid; any other position keeps its old membership. |
| Render.RenderTracksLiveSet | game.py:270-286 | If the keys were the live cells before the step, after processing the change list they are the live cells of the new grid. |
| Render.InitialCellIds | game.py:168-181 | The first pass creates a key for exactly the live cells. |
| Render.NextGenerationTracked | game.py:245-286 | A whole tick keeps the keys equal to the live cells: the grid becomes the next generation, the changes form its change list, and the updated keys are the new live set. |
| Patterns.Stamp | game.py:226-231 | Stamping offsets at an anchor keeps the dimensions. An in-bounds cell ends up alive exactly when it was alive before or an anchored offset lands on it, so off-board offsets are dropped. |
| Patterns.LoadPattern | game.py:195-231 | Loading keeps the dimensions and never kills a cell. A known name sets exactly its in-bounds anchored offsets alive. An unknown name leaves the grid unchanged. |
| Patterns.StampClipped | game.py:226-231 | Stamping offsets that all fall off the board changes nothing. |
| Patterns.StampIdempotent | game.py:226-231 | Stamping the same pattern twice at the same anchor is the same as stamping it once. |
| KnownPatterns.BlockSteps | game.py:40 | A grid whose live cells are exactly a 2 x 2 block lying wholly on the board steps to itself. |
| KnownPatterns.BlinkerOscillates | game.py:39 | A grid whose live cells are exactly three horizontal cells, with a free row above and below, changes on the first step and is back after two steps. |
| KnownPatterns.GliderRun | game.py:38 | From glider phase k, the remaining 4 - k steps give the first phase again, anchored one row lower and one column further right, while the glider's 4 x 4 box lies on the board. |
| KnownPatterns.GliderStep | game.py:245-259 | Each step advances the glider by one of its four phases while its 4 x 4 box lies on the board. |
| KnownPatterns.BlockIsStillLife | game.py:40 | A block loaded anywhere wholly on a dead board is unchanged by a step, and the step reports an empty change list. |
| KnownPatterns.BlinkerHasPeriodTwo | game.py:39 | A blinker with one free row above and below changes on the first step and is back after two steps. |
| KnownPatterns.GliderMovesDiagonally | game.py:38 | After four steps, a glider whose 4 x 4 box fits on a dead board is the same glider loaded one row lower and one column further right. |

## Left out

- The Tkinter window, canvas, rectangle drawing, pixel coordinates, grid lines and the Escape binding are user-interface side effects and are not modelled. `cell_ids` is modelled only by its key set, because its values are canvas handles.
- `create_random_pattern` depends on `random.random()` and a floating-point density. It is nondeterministic and is not modelled.
- `loop`, `run` and the `__main__` block are timer scheduling, the event loop and top-level error printing. They are not modelled.
- The grid dimensions come from the screen size in game.py. Here they are parameters, constrained only to be positive (`Grid.Valid`).
- The `cells` array of `Cell` records is a render-side mirror that nothing reads. It is not modelled, and neither is the `alive` write into it during a step (including `row * cols + col` indexing). `Cell` is modelled only as a record. It is reused as the change-list entry `(row, col, new state)`.
- The default anchor `(0, 0)` of `load_pattern` is not modelled as a default: `LoadPattern` always takes the anchor explicitly.
- `load_pattern` acts only inside `if pattern_name in patterns` (game.py:226), so an unknown name is a silent no-op with no error reported; `LoadPattern` follows that.
- The behaviour the header comment claims for `toad`, `beacon`, `pulsar`, `pentadecathlon`, `spaceship` and `glider_gun` is not proved. Their offsets are in the pattern table and load like any other pattern. Proving their periods or motion would take large boards and many generations of cell-by-cell case analysis.
- NextGeneration: game.py's `next_generation` runs the whole traversal in one method. The model splits it into `NextCell`, `NextRow` and `NextRows`. It also states the round trip "old grid plus changes equals new grid" as the lemma `ApplyChangeList` rather than as a postcondition of the method.
- Python integers are unbounded and so are Dafny's, so no overflow is modelled. Negative anchors are handled by the same bounds test as in `load_pattern`, so Python's negative list indexing is never reached.
