# Game of Life: a Dafny model

This project models the logic of a small pygame program that runs Conway's Game of Life
on a fixed-size grid. It covers three parts.

- **The generation step** (module `Life`). Each cell's neighbour count is read from the
  numpy slice `cur[r-1:r+2, c-1:c+2]`, summed, minus the cell itself. The B3/S23 rule is
  applied branch for branch, and the result goes into a fresh all-dead grid. `Life.Step` is
  the pure function and `Life.Update` is the program's loop over the cells.
- **Grid initialisation** (module `Setup`). `InitGrid` builds an all-dead grid of the
  configured size. When a pattern is given, its template is copied in at the pattern's
  offset. The pattern table is looked up by name in module `Catalog`.
- **The interaction loop** (module `Controller`). The state is the pause flag plus the
  grid. Events are applied in arrival order: Space, the pattern key with the chosen index,
  any other key press, and every other event (key releases, mouse motion, window events),
  which reads the mouse button and pointer position at that moment. Then one tick steps
  the grid unless the game is paused.

Module `Shapes` proves concrete behaviour under this step: the 2x2 block is a still life and
the three-cell blinker has period 2, as long as both stay off the first row and column.

Module `Slicing` models how Python adjusts slice indices:

- a negative bound is counted from the end;
- bounds are then clipped to the axis;
- a stop at or before the start selects nothing.

This rule shapes the grid's first row and column. For the first row, `r - 1 == -1`
means "the last row". On a grid of three or more rows that start lies at or past the stop (2),
so the window is empty. The count is then `0 - cell`, which never allows survival or birth,
so every first-row cell is dead after a step. The first column behaves the same way.

Every other cell gets the usual count, where neighbours outside the grid count as dead.
`Life.InteriorCount` proves that this count matches `Life.ClampedCount`, a separate
eight-neighbour reference definition.

The program does not clamp at its first row and column. The slice start `-1` wraps to the
last index, so on a grid of 3 or more rows that window is empty. `Shapes.BlockInFirstRowDies`
shows that a 2x2 block touching row 0 is not a still life.

Cells are `bool` (alive = `true`). The program stores numeric 0/1 values, and
`Grids.Value` converts a cell back to 0/1 for sums. The settings module is not part of this
model. Its grid size, cell size in pixels and ordered pattern table are the fields of
`Controller.Config`.

## Model

| member | source | states |
|---|---|---|
| Life.NextState | main.py:37-42 | the program's two-branch test agrees with the B3/S23 rule: a live cell is alive next exactly when its count is 2 or 3, a dead cell exactly when its count is 3 |
| Life.CellPaint | main.py:37-47 | only cells alive now are drawn; an alive cell is drawn in the about-to-die colour exactly when the rule makes it dead, and in the alive colour exactly when it survives |
| Life.RowSumRange | main.py:34 | the sum of a run of cells lies between 0 and the run's length, and equals the length exactly when every cell of the run is alive |
| Life.WindowSumRange | main.py:34 | the `numpy.sum` of a rectangular slice lies between 0 and the number of cells in the rectangle |
| Life.SourceCount | main.py:34 | definition of the program's count: the window sum over the row and column slices minus the cell; its meaning is stated by `Life.InteriorCount` (row and column at least 1) and `Life.EmptyWindowDead` (empty window) |
| Life.Step | main.py:29-41 | the next generation has the same number of rows and columns as the current grid, and every cell of it is dead or alive |
| Life.Update | main.py:29-50 | the cell-by-cell loop into a fresh zero grid ends with exactly the pure next generation, read from the unchanged current grid |
| Life.UpdateRow | main.py:32-41 | visiting one row whose cells are still 0 leaves that row equal to the next generation's row and touches no other row |
| Life.InteriorCount | main.py:34 | for a cell with row and column at least 1, the sliced-window sum minus the cell equals the number of live neighbours among the eight, with positions past the bottom or right edge counting 0 |
| Life.InteriorRule | main.py:34-42 | for a cell with row and column at least 1, the next state is alive iff (alive and 2 <= n <= 3) or (dead and n = 3), where n is the clamped neighbour count |
| Life.EmptyWindowDead | main.py:34-41 | a cell whose row or column window is empty is dead after the step, whatever its state |
| Life.EdgeDead | main.py:34-41 | on a grid of at least 3 rows every cell of row 0 is dead after a step; on a grid of at least 3 columns every cell of column 0 is |
| Life.NoSpontaneousBirth | main.py:29-41 | stepping an all-dead grid yields an all-dead grid |
| Life.StepLocal | main.py:32-41 | a cell's next state depends on the current grid only through the cells of its window and the cell itself; two grids that agree there agree on it |
| Slicing.Slice | main.py:34 | the selected range lies within the axis, and a position is in it exactly when it is on the axis and between the start and stop read from the end (negative bounds have the axis length added) |
| Slicing.InnerWindow | main.py:34 | for index k >= 1 the window is the run k-1 .. k+1, clipped at the axis end |
| Slicing.FirstWindowEmpty | main.py:34 | for index 0 on an axis of 3 or more positions the window is empty |
| Shapes.BlockIsStill | main.py:29-50 | a 2x2 block with its top-left cell at row >= 1 and column >= 1 is a fixed point of the step |
| Shapes.BlockStepTwice | main.py:29-50 | stepping that block twice gives the same grid as stepping it once |
| Shapes.BlockInFirstRowDies | main.py:34-41 | a 2x2 block touching row 0 of a grid with at least 3 rows is changed by the step |
| Shapes.BlockCount | main.py:34-42 | around a 2x2 block, the rule on the clamped counts keeps exactly the block's four cells alive |
| Shapes.HorizontalCount | main.py:34-42 | around a horizontal three-cell line, the rule on the clamped counts makes alive exactly the vertical line through its middle |
| Shapes.VerticalCount | main.py:34-42 | around a vertical three-cell line, the rule on the clamped counts makes alive exactly the horizontal line through its middle |
| Shapes.HorizontalToVertical | main.py:29-50 | a horizontal blinker at row >= 2 and column >= 1 becomes the vertical blinker through its middle |
| Shapes.VerticalToHorizontal | main.py:29-50 | that vertical blinker becomes the horizontal one again |
| Shapes.BlinkerPeriodTwo | main.py:29-50 | the blinker differs from itself after one step and is back after two |
| Catalog.Find | main.py:67 | a lookup by name fails exactly when no entry has that name; otherwise it returns the pattern of the first entry with that name |
| Catalog.FindByIndex | main.py:104-110 | with distinct names, looking up the i-th name of the key list returns the i-th pattern |
| Setup.PasteRow | main.py:68-69 | one template row copied into a grid row at a column offset; cells outside it keep their value |
| Setup.Paste | main.py:68-69 | copying the template row by row writes exactly the covered rectangle with the template's cells, and every other cell keeps its value |
| Setup.InitGrid | main.py:63-71 | the grid has the configured size; with no pattern every cell is dead; with a pattern that fits, each cell under the placed template equals the template cell and every other cell is dead |
| Grids.Empty | main.py:63 | the zero grid has the requested size and every cell dead |
| Grids.SetAlive | main.py:117 | writing 1 makes that one cell alive and leaves every other cell and the grid's shape unchanged |
| Controller.Initial | main.py:80-82 | the loop starts paused on an all-dead grid of the configured size |
| Controller.Select | main.py:109-112 | a pattern choice yields a grid of the configured size |
| Controller.PixelToCell | main.py:116-117 | a pixel coordinate inside a window of n cells, divided by the cell size, gives an index below n |
| Controller.ClickedCell | main.py:116-117 | a pointer inside the window maps to a cell inside the grid |
| Controller.Apply | main.py:90-117 | handling any event keeps the grid at the configured size; only a press while paused must lie inside the grid |
| Controller.Tick | main.py:123-126 | a tick keeps the pause flag and the grid's shape |
| Controller.ApplyAll | main.py:90-117 | handling a frame's events in order keeps the grid at the configured size |
| Controller.Frame | main.py:86-126 | a whole loop pass keeps the grid at the configured size |
| Controller.SpaceToggles | main.py:98-99 | Space flips the pause flag, leaves the grid alone, and two presses restore the state |
| Controller.ChooseInRange | main.py:102-110 | a choice 0 <= i < number of patterns pauses and loads exactly the i-th template at its offset, dead elsewhere |
| Controller.ChooseOutOfRange | main.py:102-112 | any other choice pauses on the empty grid |
| Controller.ClickWhilePaused | main.py:114-117 | a press while paused sets cell (y / size, x / size) alive, leaves every other cell unchanged, and never clears a cell |
| Controller.PointerIgnored | main.py:115 | a pointer event while running, or with the button up, changes nothing, wherever the pointer lies |
| Controller.TickBehaviour | main.py:123-126 | a tick while paused leaves the state unchanged; while running it replaces the grid by the next generation |
| Controller.OnlySpaceUnpauses | main.py:98-126 | from a paused state, events without Space leave the game paused, so the frame's tick does not step the grid |
| Controller.PausedFrameIdle | main.py:114-126 | a paused frame with only other keys or unpressed pointer events leaves the whole state unchanged |

## Left out

- Rendering: the rectangle draws, the colour values, the hover highlight, the screen fill and the display update (main.py:44-48, 120, 128-140). Only the choice of colour tag is modelled, in `Life.CellPaint`.
- Window and clock setup, the frame-rate wait and `dt`, event polling, and quitting (main.py:75-79, 87, 93-94, 142). These are I/O and frame pacing. The quit event changes neither the pause flag nor the grid: the rest of that frame's events and its tick still run, and the loop stops after the current pass.
- The console prompt for a pattern: the list printed and the integer parsed from typed input (main.py:105-108). A choice is an event carrying an integer. A crash on non-numeric input is behaviour of the input routine, not of the game.
- The settings module is not part of this model. `GRID_SIZE`, `CELL_SIZE` and `PATTERNS` are the fields of `Controller.Config`. Because `PATTERNS` is a dictionary, its names are distinct; `Controller.ValidConfig` states this, and templates are taken to hold only 0 and 1.
- Patterns that do not fit in the grid, or whose template is empty or ragged. The program raises on most of them. An empty template fails when its first row's length is read (main.py:69), and most misfits fail the slice assignment. A one-row or one-column template lying wholly past the edge is silently dropped instead. The model covers none of these cases: `Setup.InitGrid` requires `Catalog.Fits`, and `Controller.ValidConfig` requires it of every table entry. Negative offsets are not modelled either: the offsets of `Catalog.Pattern` are natural numbers, while the program would read a negative offset from the end of the axis.
- Presses outside the grid while paused: the index `y // size` or `x // size` is past the array's end and numpy raises. `Controller.Accepted` requires a press that meets a paused game to lie within the grid's extent in pixels (`cols * size` by `rows * size`). A press while running is never indexed (main.py:115) and is modelled wherever it lies.
- Numeric cell storage: numpy keeps cells as floats. The model uses `bool`, because the program only ever stores 0 and 1.
- Grids with only one or two rows or columns. `Slicing.Slice` models their first-row and first-column windows, which wrap to the last row or column, but no lemma states what those windows contain.
- Per-cell transition tags (born, survived, died, unchanged). The program computes only the drawing colour, which `Life.CellPaint` models.
