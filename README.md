# Game of Life simulation engine

A Dafny model of the simulation engine inside the `GameOfLife` widget of a
PyQt Game of Life program. The widget keeps two integer grids, `grid` (the
live state) and `old_grid` (what `grid` is compared with to decide which
cells to repaint). It has the following operations:

- `update_grid` advances one generation. It counts neighbours with a
  bounded convolution and applies Conway's B3/S23 rule.
- `toggle_cell` flips one cell.
- `clear_game` kills every cell.
- `set_game` loads a pattern.
- `update_ui` lists the cells that need repainting.

The model has four modules:

- `Board` (`board.dfy`): grids as values, `seq<seq<int>>` indexed
  `[x][y]`. `At` is the zero-padded read: a position outside the grid reads
  as 0.
- `Rule` (`rule.dfy`): the neighbour count as an explicit sum over the
  eight Moore offsets, each bounds-checked. `ConvolveSame` is a reference
  definition of the library convolution (`mode='same'`, fill value 0), and
  `NeighboursIsConvolution` proves that the two agree. The module also
  holds the per-cell rule `NextCell` and the whole-grid step `NextGen`.
- `Diff` (`diff.dfy`): `RowMajor`, the `x`-outer/`y`-inner enumeration;
  `Differing`, the filter of `update_ui`; `ChangedCells`; and the diff
  facts for each operation.
- `Engine` (`engine.dfy`): class `GameOfLife` with two `array2<int>`
  fields. `update_grid` and `set_game` replace both fields with fresh
  arrays, as the source rebinds `self.grid` and `self.old_grid` to new
  numpy arrays; `clear_game` rebinds only `grid` and leaves `old_grid`
  as it was. `toggle_cell` writes both arrays in
  place. `UpdateUi` is the nested loop of `update_ui`; it returns the
  coordinates it would repaint, in visiting order. `UpdateGrid` and
  `ClearGame` end by calling it, as the source's methods call
  `update_ui`.

Behaviour of the program worth knowing, which the model keeps:

- A toggled cell does not appear in the next diff. `toggle_cell` writes
  the new value into `old_grid` as well (`ToggleDiff`).
- `clear_game` leaves `old_grid` as it was. It does not reset it to a
  sentinel.
- The first diff is the alive cells of the initial grid, not every cell
  (`InitialDiff`).
- The count is the sum of the cell values, not a count of alive cells. The
  two agree on 0/1 grids.
- Dimensions are taken from the initial grid; the source fixes them at
  80 by 80.

## Model

| member | source | states |
|---|---|---|
| Board.At | GameOfLife.py:85 | the zero-padded read (`boundary='fill'`, `fillvalue=0`): an in-range position reads its cell, any other position reads 0 |
| Rule.Neighbours | GameOfLife.py:85 | the neighbour count at (x, y), the sum over the eight offsets of the zero-padded reads; on a 0/1 grid it lies in [0, 8] |
| Rule.ConvolveSame | GameOfLife.py:85 | reference for `convolve2d(..., mode='same', boundary='fill', fillvalue=0)` with a 3-by-3 kernel, entry k[i][j] weighing cell (x+1-i, y+1-j); with a 0/1 grid and kernel it lies in [0, 9]; `NeighboursIsConvolution` equates it with `Neighbours` for the source's kernel |
| Rule.NeighboursExpanded | GameOfLife.py:85 | the count at (x, y) is the sum of the eight zero-padded reads around it, the centre excluded |
| Rule.NeighboursIsConvolution | GameOfLife.py:85 | the explicit count equals a centred 2-D convolution with kernel [[1,1,1],[1,0,1],[1,1,1]] that reads 0 outside the grid |
| Rule.NeighboursLocal | GameOfLife.py:85 | the count depends only on the eight adjacent positions, not on the cell itself and not on far cells, so nothing wraps round |
| Rule.CornerNeighbours | GameOfLife.py:85 | the count at corner (0, 0) is the sum of (0,1), (1,0) and (1,1) only |
| Rule.CornerAtMostThree | GameOfLife.py:85 | on a 0/1 grid the count at corner (0, 0) is at most 3 |
| Rule.FarCornerNeighbours | GameOfLife.py:85 | on a w-by-h grid the count at each of the corners (0, h-1), (w-1, 0) and (w-1, h-1) is the sum of its three in-range neighbours only: reads past the last row or column are 0 and nothing wraps to index 0 |
| Rule.CornersAtMostThree | GameOfLife.py:85 | on a w-by-h 0/1 grid the count at every one of the four corners lies in [0, 3] |
| Rule.NextCell | GameOfLife.py:86 | the new state of a cell is 0 or 1 |
| Rule.BirthAndSurvival | GameOfLife.py:86 | a cell other than 1 becomes alive iff its count is 3; a live cell stays alive iff its count is 2 or 3; every other cell ends dead |
| Rule.NeighbourCounts | GameOfLife.py:85 | the neighbour array has the grid's shape |
| Rule.NextGen | GameOfLife.py:84-86 | a step keeps every row length and yields a 0/1 grid |
| Rule.NextGenCell | GameOfLife.py:85-86 | after a step a cell is 1 iff its pre-step count is 3, or it was 1 and the count is 2; otherwise it is 0 |
| Rule.NextGenShape | GameOfLife.py:86 | a step maps a w-by-h grid to a w-by-h 0/1 grid |
| Rule.AllDeadIsFixedPoint | GameOfLife.py:85-86 | the all-dead grid is unchanged by a step |
| Rule.BlinkerOscillates | GameOfLife.py:85-86 | the 3-by-3 blinker alternates between vertical and horizontal |
| Diff.RowMajor | GameOfLife.py:96-97 | the coordinates the two `range` loops visit, x outer and y inner; `RowMajorLength`, `RowMajorMembers` and `RowMajorOrdered` state its length, contents and order |
| Diff.RowMajorLength | GameOfLife.py:96-97 | the visiting order has w*h entries |
| Diff.RowMajorMembers | GameOfLife.py:96-97 | the visiting order contains exactly the in-range coordinates |
| Diff.RowMajorOrdered | GameOfLife.py:96-97 | the visiting order is strictly row-major: x ascending, then y |
| Diff.OrderedDistinct | GameOfLife.py:96-97 | a strictly row-major list repeats no coordinate |
| Diff.Differing | GameOfLife.py:95-98 | the coordinates of a visiting order at which `old_grid != grid` holds, in visiting order; never longer than the order; `DifferingMembership` and `DifferingOrdered` characterise it |
| Diff.DifferingMembership | GameOfLife.py:95-98 | a coordinate is reported iff it is visited and the two grids differ there |
| Diff.DifferingOrdered | GameOfLife.py:96-98 | the report keeps the visiting order |
| Diff.DifferingEverywhere | GameOfLife.py:95-98 | where the grids differ at every visited coordinate, all of them are reported |
| Diff.DifferingSynced | GameOfLife.py:90-91 | writing one value into both grids at q drops q from the report and keeps the rest in order |
| Diff.ChangedCells | GameOfLife.py:95-99 | the list `update_ui` repaints for a w-by-h grid: the differing coordinates of the row-major visiting order, at most w*h of them; `ChangedCellsSpec` characterises it exactly |
| Diff.ChangedCellsSpec | GameOfLife.py:95-99 | the changed cells are exactly the in-range coordinates where old_grid and grid differ, in strict row-major order, without repetition |
| Diff.ToggleDiff | GameOfLife.py:89-91 | after a toggle the changed-cell list is the old list with (x, y) removed |
| Diff.ClearDiff | GameOfLife.py:72-75 | against an all-dead grid the changed cells are exactly those where old_grid is non-zero |
| Diff.InitialDiff | GameOfLife.py:38-39 | against the initial all-zero old_grid the changed cells of a 0/1 grid are exactly its alive cells |
| Diff.SetGameDiff | GameOfLife.py:68-70 | against the all -1 sentinel a 0/1 grid's changed cells are every coordinate, in row-major order, w*h of them |
| Engine.ChangedOfArrays | GameOfLife.py:95-99 | for two arrays of one shape, the changed cells are exactly the coordinates where the arrays differ, in strict row-major order |
| Engine.FromCells | GameOfLife.py:70 | a fresh array of the given shape holding the given grid (np.copy / np.zeros) |
| Engine.GameOfLife.constructor | GameOfLife.py:35-39 | old_grid is all zeros, grid is a fresh copy of the initial pattern, and both have its dimensions |
| Engine.GameOfLife.SetGame | GameOfLife.py:68-70 | grid is a fresh copy of arr, old_grid is -1 everywhere, and for a 0/1 arr every coordinate is changed |
| Engine.GameOfLife.ClearGame | GameOfLife.py:72-75 | grid becomes all zeros, old_grid is untouched, and the cells repainted are exactly those where old_grid is non-zero |
| Engine.GameOfLife.UpdateGrid | GameOfLife.py:83-87 | old_grid becomes the pre-step grid, grid becomes the step of that pre-step grid, and the repaint list is the resulting diff |
| Engine.GameOfLife.ToggleCell | GameOfLife.py:89-91 | grid and old_grid change only at (x, y), both to 1 minus the old value, and the diff loses (x, y) and nothing else |
| Engine.GameOfLife.UpdateUi | GameOfLife.py:94-99 | the visited cells are exactly the coordinates where old_grid and grid differ, in row-major order, and neither grid changes |
| Engine.GameOfLife.ClearGameSynced | GameOfLife.py:72-75 | the corrected clear: old_grid takes the pre-clear grid, so the cells repainted are exactly those alive before the clear |
| Engine.ClearAfterStepScenario | GameOfLife.py:72-87 | starting from the vertical blinker, the repaint list of `update_grid` contains (1, 0) and the repaint list of the following `clear_game` does not |
| Engine.ClearAfterStepMissesBornCell | GameOfLife.py:72-75 | after one blinker step, cell (1, 0) is alive but is not in the diff that clear_game computes |

## Left out

- PyQt widgets, menus, `QAction` wiring, window creation and the
  per-cell button styling of `update_ui_cell` (GameOfLife.py:8-29, 41-66,
  101-107). These are presentation only. "Repaint" in the model means a
  coordinate in the list `UpdateUi` returns.
- The direct repaint of the toggled cell (GameOfLife.py:92). `ToggleCell`
  changes state only, and its cell leaves the diff.
- The `update_ui` call at the end of the constructor (GameOfLife.py:66).
  What it would repaint is stated by `InitialDiff`.
- `QTimer` start/stop and the `stop_game` call inside `clear_game`
  (GameOfLife.py:41-42, 73, 77-81). These are event-loop scheduling: a
  caller invokes `UpdateGrid` once per tick.
- Random initialisation with `np.random.choice` (GameOfLife.py:39). The
  initial grid is a constructor parameter.
- `scipy.signal.convolve2d` itself. It is a foreign library; its effect
  is specified by `ConvolveSame` and the explicit count.
- numpy dtypes. `np.zeros` and `-np.ones` make float arrays, and the step
  result is int; every cell is an `int` here.
- Process bootstrap under `__main__` (GameOfLife.py:110-113).
- Engine.GameOfLife.ToggleCell: requires an in-range coordinate. numpy
  would wrap negative indices, but the only callers are the grid's own
  buttons.
- Engine.GameOfLife.SetGame: requires `arr` to have the grid's shape,
  because the model keeps the dimensions fixed, as `grid_width` and
  `grid_height` are. The source accepts any shape and leaves the
  consequences to later calls: with a smaller `arr` the next
  `update_grid` fails with an index error at `onchangegrid[x, y]`
  (GameOfLife.py:98) and `toggle_cell` fails at line 90; with a larger
  `arr` a step runs over the whole array, but only its first 80-by-80
  cells are compared and repainted. The model captures neither
  behaviour.

## Findings

| source | as written | input that shows it | evidently intended | confidence | as-written member | corrected member |
|---|---|---|---|---|---|---|
| GameOfLife.py:72-75 | `clear_game` zeroes `grid` and compares it with `old_grid`, which after a step holds the generation before the one on screen | one step of the vertical 3-by-3 blinker, then clear: cell (1, 0) is alive and shown, but `old_grid` is 0 there, so it is not repainted and stays black | repaint every cell alive before the clear, e.g. by copying `grid` into `old_grid` first, as `update_grid` does | medium, not executed | Engine.ClearAfterStepScenario | Engine.GameOfLife.ClearGameSynced |
