# Game of Life engine (canvas_life) in Dafny

This project models the engine of the browser Game of Life editor in
`life.js`:

- the `Grid` value type: a board `width` cells wide and `height` cells high, with 0/1 cells stored row-major in one flat array;
- `Grid.empty`, `Grid.cell` and `Grid.draw`, which copies the cells, applies a list of `{x, y, state}` patches and returns a new grid;
- `newGeneration`, which walks every cell and picks its neighbours from a hand-written index table with corner and edge cases. It reads their values with `values` and applies Conway's rule in `updateCell`;
- the point tool `draw`/`drawCell`, which turns the current colour into a patch value;
- the eraser button's colour toggle;
- `updateState`, the shallow merge of a dispatched action into the state record.

Four files, one module each:

- `grid.dfy` (module `Grids`): the `Grid` and `Patch` datatypes, flat indexing and its arithmetic, `Empty`, `Cell`, and `Draw`. `Draw` is a method that copies the cells into a fresh array and overwrites entries in a loop. It is proved against the specification function `Drawn`.
- `life.dfy` (module `Life`): the neighbour table `NeighborIndexes`, the methods `Values`, `UpdateCell`, `NextCellAt` and `NewGeneration`, and the reference next generation `Step`. `Step` is defined independently of the table, by counting the live cells among the eight surrounding positions, with off-board positions counting as dead. The lemmas prove that the table picks exactly the in-bounds Moore neighbours, so `NewGeneration` computes `Step`.
- `editor.dfy` (module `Editor`): the state record as a map from field names to values, `UpdateState`, the point tool and the eraser toggle.
- `patterns.dfy` (module `Patterns`): small boards described by their live positions, and two known behaviours of the rule on them. A 2 by 2 block is a still life, and a three-cell blinker has period 2. Since `NewGeneration` returns `Step`, both carry over to it.

`Grid` is a datatype. The source never changes a grid after it is built, and every operation returns a new one. So "`newGeneration` and `draw` leave the input grid's cells unchanged" holds by value semantics. `Draw` still works on a fresh array, as the source works on a `slice()` copy.

The neighbour table names exactly the in-bounds neighbours only on boards at least 2 by 2. On a board one cell wide, `cell + 1` reaches the next row, so the table names the cell itself and counts a neighbour twice (`NarrowBoardTableWraps`). On a board one row high, the extra indexes lie before the start or past the end of the array (`FlatBoardTableOverruns`). JavaScript reads `undefined` there, which `n === 1` counts as dead, so the source's result is still right on such a board. The model gives no meaning to reads outside the array, so `NewGeneration` and the table lemmas require `width >= 2 && height >= 2`. The board the editor builds is 100 by 60.

## Model

| member | source | states |
|---|---|---|
| Grids.Empty | life.js:15-18 | the empty board has the given size, `w*h` cells, all dead, and is well formed when both sizes are positive |
| Grids.Cell | life.js:37-39 | reading (x, y) reads flat index `x + y*width`, which is in range for an in-board position, and gives 0 or 1 on a well-formed board |
| Grids.FlatInRange | life.js:38 | an in-board position's flat index lies in `[0, w*h)` and decodes back to x (remainder) and y (quotient) |
| Grids.FlatDistinct | life.js:38 | two different in-board positions never share a flat index |
| Grids.DrawnAt | life.js:53-59 | after applying the patches in order, a cell no patch targets keeps its value, and a targeted cell holds the state of the last patch that targets it |
| Grids.Draw | life.js:53-59 | the copy-and-overwrite loop returns a board of the same size whose cells are the patched cells; untargeted cells are unchanged, the last patch on a cell wins, and no patches give equal contents |
| Grids.DrawnWellFormed | life.js:53-59 | patches whose states are 0 or 1 keep a board well formed |
| Life.NeighborIndexes | life.js:240-262 | the table copied branch by branch; it names 3 indexes at a corner, 5 on the rest of an edge and 8 inside |
| Life.NeighborIndexesExact | life.js:240-262 | on a board at least 2 by 2, every table entry lies in `[0, w*h)` and decodes to an in-bounds Moore neighbour; every in-bounds Moore neighbour is an entry; entries are distinct; a corner gets 3, another edge cell 5, an interior cell 8 |
| Life.Values | life.js:315-321 | the result has one entry per index, and entry i is the value at `indexes[i]` |
| Life.UpdateCell | life.js:291-308 | for a 0/1 cell the result is 0 or 1; a live cell survives iff 2 or 3 neighbours are live; a dead cell is born iff exactly 3 are live |
| Life.TableCountsMoore | life.js:240-263 | counting the live values the table reads gives the number of live cells among the eight surrounding positions |
| Life.StepAt | life.js:236-264 | in the reference next generation, the cell at (x, y) is the rule applied to the old cell and its old live-neighbour count |
| Life.NextCellAt | life.js:238-264 | one inner-loop step (table, values, updateCell) yields the reference next value at the cell's flat index |
| Life.NewGeneration | life.js:230-269 | the result equals the reference next generation: same width and height, exactly `w*h` cells, all 0/1, and the cell at flat index `x + y*width` is the rule applied to the old cell and its old neighbours |
| Life.StepEmpty | life.js:302-306 | an all-dead board stays all dead |
| Life.LoneCellDies | life.js:297-306 | a board with a single live cell becomes all dead |
| Life.NarrowBoardTableWraps | life.js:240-247 | on a 1-wide board the table for the middle cell names the cell itself and an index past the end |
| Life.FlatBoardTableOverruns | life.js:241-242 | on a 1-high board the table for (0, 0) names an index past the end |
| Editor.UpdateState | life.js:62-64 | the merged record has the keys of both; every key of the action takes the action's value, every other key keeps the state's value |
| Editor.UpdateStateEmpty | life.js:62-64 | merging an empty action changes nothing |
| Editor.UpdateStateIdempotent | life.js:62-64 | merging the same action twice equals merging it once |
| Editor.UpdateStateCompose | life.js:62-64 | two merges in turn equal one merge of the combined action, the later action's fields winning |
| Editor.PatchState | life.js:180 | the point tool's value is 1 iff the state's colour is `"#000000"`, otherwise 0 |
| Editor.DrawCell | life.js:177-188 | the action holds only `grid`, a board of the same size in which the cell under the pointer holds the point tool's value and every other cell is unchanged |
| Editor.DrawCellDispatch | life.js:479-480 | dispatching the point tool's action replaces the board, keeps every other field and so keeps the drawing value for later moves |
| Editor.EraserClick | life.js:387-389 | a click flips the eraser's flag and dispatches a colour that is black or the background, the background exactly when the eraser is now active |
| Editor.StartInStep | life.js:383 | a state whose colour is black, as the start state's is (life.js:467), has the drawing value in step with the eraser being off |
| Editor.EraserClickDrawValue | life.js:387-389 | after an eraser click, whatever the colour was, the point tool draws dead cells when the eraser is active and live cells otherwise, and only the colour field changes |
| Editor.EraserTwoClicks | life.js:387-389 | from a state whose drawing value is in step with the flag, two clicks dispatched in turn restore both the flag and the drawing value |
| Patterns.PatternAt | life.js:37-39 | a board built from a set of live positions reads 1 exactly at those positions |
| Patterns.StepPattern | life.js:230-269 | a board steps to another when every cell's rule value is live exactly at the other's live positions |
| Patterns.BlockStillLife | life.js:291-308 | a 2 by 2 block on a 4 by 4 board is its own next generation |
| Patterns.BlinkerRowToColumn | life.js:291-308 | on a 5 by 5 board the flat blinker at (1,2), (2,2), (3,2) becomes the upright one at (2,1), (2,2), (2,3) |
| Patterns.BlinkerColumnToRow | life.js:291-308 | the upright blinker becomes the flat one again, so the blinker has period 2 |

## Left out

- DOM construction and rendering (`elt`, `GridCanvas`, `drawGrid`, `syncState`, `GridEditor` wiring): browser APIs.
- Pointer and touch handling and `pointerPosition`: event listeners and floating-point division. `DrawCell` takes the cell position as given.
- `Grid.random`: it depends on `Math.random` and is not deterministic.
- The start, stop, clear, speed and pattern controls: `setInterval`/`clearInterval` timer scheduling. The `patterns` catalogue and `startState` bootstrap are not part of this model.
- The commented-out colour-keyed versions of `Grid.empty`, `Grid.draw`, `newGeneration` and `updateCell`: superseded by the 0/1 versions.
- NewGeneration: requires `width >= 2 && height >= 2`. On a board one cell wide the source miscounts, since the table reads the cell itself and a neighbour twice. On a board one row high the source is right, because its reads outside the array give `undefined`, which counts as dead; the model does not give such reads a meaning, so it leaves one-row boards out.
- UpdateCell: requires the cell to be 0 or 1. For any other value the source falls through and returns `undefined`.
- Values: requires every index to lie in the array. JavaScript would read `undefined` past the end; on boards at least 2 by 2 the table never asks for such an index.
- Cell: requires the position to lie on the board, which the engine always respects.
- Draw: requires every patch position to lie on the board, since the source does no bounds checking. Off-board positions can reach it: the touch handler keeps reporting moves after the finger leaves the canvas. An off-board `x` can still give an in-range flat index and overwrite another cell: `x == width` with `y < height - 1` writes cell (0, y+1), and `x == -1` with `y >= 1` writes cell (width-1, y-1). A flat index past the end grows the JavaScript array, and a negative one adds a property that is not a cell. The model covers none of these writes.
- DrawCell: dispatch is modelled by returning the action. `DrawCellDispatch` states what `updateState` then makes of it. The re-rendering that `dispatch` triggers is left out.
- Editor state values: the interval handle is reduced to `Number`/`Undefined`. The model does not type-check field values; neither does the source.
