# Game of Life engines, modelled in Dafny

This project models the simulation core of a Conway's Game of Life
application, with the properties of each part proved in Dafny 4.11:

- **`GameOfLife`, the bounded engine** (`bounded.dfy`, module `BoundedGrid`).
  It keeps a dense `height x width` grid of booleans and a generation counter.
  It can optionally wrap at the edges, so the grid behaves as a torus. A step
  counts each cell's eight Moore neighbours into a fresh grid and then swaps
  that grid in. The rule is fixed: a live cell survives with 2 or 3
  neighbours, and a dead cell is born with exactly 3.
- **`InfiniteGameOfLife`, the sparse engine** (`infinite.dfy`, module
  `InfiniteGrid`). It stores only the live coordinates, and every integer pair
  is a legal cell. A step evaluates only the live cells and their neighbours.
  The rule has three configurable thresholds: an underpopulation limit, an
  overpopulation limit and a reproduction number.
- **Two routines of the grid canvas** (`canvas.dfy`, module `Canvas`):
  - the Bresenham walk that paints a continuous line of live cells into the
    bounded grid while the mouse is dragged;
  - the fixed-view conversion from a pixel to the grid cell under it.

The remaining modules hold shared definitions and relate the engines:

- `moore.dfy` (module `Moore`): the eight neighbour offsets, in the order
  both engines visit them.
- `rules.dfy` (module `Rules`): the three-threshold rule, `RuleSet`, and its
  Conway instance (2, 3, 3).
- `agreement.dfy` (module `Agreement`): relates the two engines. A
  non-wrapping bounded grid, read as the set of its live coordinates, gets
  the same counts, toggles and steps from the sparse engine with Conway's
  thresholds, for every cell inside the grid.

The engines are classes whose methods update their fields:

- The bounded engine's grid is a `seq<seq<bool>>` field that the methods
  reassign.
- The sparse engine's dictionary, whose values are always 1, is a
  `set<(int, int)>` field.
- Each loop of the source is a `while` or `for` loop, proved against a
  specification function. Examples: `NextGrid` for a bounded step, `Step`
  for a sparse step, `LinePoints` for the drawn line.
- The sparse engine walks its dictionary of live cells (in insertion order)
  and its set of cells to check (in no defined order). Neither result
  depends on the iteration order, so the model picks each element with `:|`
  and its postconditions hold for every order.

The model follows the code in these places:

- A sparse step on an empty universe returns at once and does not count a
  generation (`core/infinite_game.py:53-54`).
- `set_custom_rules` stores any three integers without checking them. The
  rule thresholds are never validated, and there is no `bounds()` or
  `is_alive` query.
- With a reproduction number of 0, the rule would give birth to a cell far
  from all life, but the sparse step evaluates only the cells next to life.
  - `InfiniteGrid.StepIsPlaneRule` shows the step equals the rule applied
    over the whole plane whenever the reproduction number is not 0.
  - `InfiniteGrid.ZeroReproductionStaysLocal` gives an input where the two
    differ when it is 0.
- On a wrapping grid narrower or shorter than 3 cells, the eight reduced
  offsets do not reach eight different cells. The source and the model both
  probe such a cell more than once, and on a 1-wide torus a live cell counts
  itself. `BoundedGrid.NarrowTorusRepeatsProbes` gives two such inputs.

## Model

| member | source | states |
|---|---|---|
| Moore.DirectionFacts | core/game_of_life.py:70-72 | every neighbour offset is a non-zero unit step, and its position in the visiting order is recovered from it |
| Moore.DirectionsDistinct | core/game_of_life.py:70-72 | the eight offsets are pairwise distinct, so no offset is probed twice |
| Moore.Visited | core/infinite_game.py:31-34 | the nested dx/dy loops with the centre skipped visit the offsets in exactly the listed order |
| BoundedGrid.DeadGrid | core/game_of_life.py:28 | the fresh grid has `height` rows of `width` cells, all dead |
| BoundedGrid.CountFirst | core/game_of_life.py:73-83 | after k directions the running count is at most k; it is the invariant of the counting loop |
| BoundedGrid.Reduce | core/game_of_life.py:78-80 | with wrapping the coordinate lands in [0, size); without wrapping it is unchanged; an in-range coordinate is never moved |
| BoundedGrid.Probe | core/game_of_life.py:78-83 | an in-grid neighbour is read directly, with or without wrapping (the off-grid case is `BoundedGrid.OutsideNeverCounts`) |
| BoundedGrid.Lives | core/game_of_life.py:51-54 | the fixed rule: survive on 2 or 3 neighbours, be born on 3 (related to the three-threshold rule by `BoundedGrid.LivesIsConway`) |
| BoundedGrid.Toggled | core/game_of_life.py:38 | the grid keeps its shape, cell (x, y) flips and every other cell is unchanged |
| BoundedGrid.NeighborCount | core/game_of_life.py:59-85 | a neighbour count is between 0 and 8 |
| BoundedGrid.NextGrid | core/game_of_life.py:44-56 | the next generation has the same dimensions as the old one |
| BoundedGrid.LivesIsConway | core/game_of_life.py:51-54 | the fixed survive/birth test is the three-threshold rule with thresholds (2, 3, 3) |
| BoundedGrid.OutsideNeverCounts | core/game_of_life.py:81-83 | without wrapping, a neighbour coordinate off the grid never counts as alive |
| BoundedGrid.WrappedAlwaysInRange | core/game_of_life.py:78-82 | with wrapping, every probe reads a real cell, the one at (nx mod width, ny mod height) |
| BoundedGrid.CornerAdjacentOnlyWhenWrapping | core/game_of_life.py:75-83 | on grids of at least 3 x 3, a live opposite corner counts as a neighbour of (0, 0) with wrapping; without wrapping, killing it leaves the count of (0, 0) unchanged |
| BoundedGrid.CountFirstMonotone | core/game_of_life.py:75-83 | the running count never decreases as more directions are probed |
| BoundedGrid.DeadGridStaysDead | core/game_of_life.py:44-56 | an all-dead grid steps to an all-dead grid, with or without wrapping |
| BoundedGrid.NarrowTorusRepeatsProbes | core/game_of_life.py:75-83 | on a 2 x 3 torus a lone live cell is counted twice by its neighbour (0, 1), and on a 1 x 1 torus a live cell counts itself eight times |
| BoundedGrid.ToggleTwice | core/game_of_life.py:38 | toggling the same cell twice restores the grid |
| BoundedGrid.GameOfLife.constructor | core/game_of_life.py:23-28 | the new engine has the given dimensions and wrap flag (off by default), generation 0 and every cell dead |
| BoundedGrid.GameOfLife.ToggleCell | core/game_of_life.py:30-38 | the cell at (x, y) flips, and every other cell keeps its state |
| BoundedGrid.GameOfLife.CountAliveNeighbors | core/game_of_life.py:59-85 | the loop returns the number of live neighbours among the eight probes, at most 8, reduced modulo the dimensions when wrapping |
| BoundedGrid.GameOfLife.NextGeneration | core/game_of_life.py:40-57 | every cell's new state is the rule applied to its old state and to its neighbour count on the OLD grid (a synchronous update); the generation goes up by exactly 1 |
| BoundedGrid.GameOfLife.Clear | core/game_of_life.py:87-92 | every cell is dead and the generation is 0 |
| BoundedGrid.GameOfLife.GetGeneration | core/game_of_life.py:94-101 | returns the current generation counter |
| InfiniteGrid.Toggle | core/infinite_game.py:21-26 | the toggled cell's membership flips, and membership of every other cell is unchanged |
| InfiniteGrid.ToggleTwice | core/infinite_game.py:21-26 | toggling the same cell twice restores the live set |
| InfiniteGrid.CountLive | core/infinite_game.py:31-36 | after k directions, the count is at most k |
| InfiniteGrid.NeighborCount | core/infinite_game.py:28-37 | the number of live neighbours is between 0 and 8 |
| InfiniteGrid.NeighborCountIsCardinality | core/infinite_game.py:28-37 | the count equals the number of live cells among the eight neighbours |
| InfiniteGrid.SelfNotNeighbor | core/infinite_game.py:33-34 | a cell is never one of its own neighbours |
| InfiniteGrid.CountIgnoresSelf | core/infinite_game.py:33-35 | whether the cell itself is alive does not change its count |
| InfiniteGrid.CountZeroIffIsolated | core/infinite_game.py:28-37 | the count is 0 exactly when no neighbour is alive |
| InfiniteGrid.CellsToCheck | core/infinite_game.py:39-49 | the union of the 3x3 squares around the live cells (characterised by `InfiniteGrid.CellsToCheckExactly`) |
| InfiniteGrid.Survivors | core/infinite_game.py:59-68 | the cells among those given that the rule keeps or makes alive, each count taken on the old set |
| InfiniteGrid.Step | core/infinite_game.py:56-70 | the survivors among the cells to check (related to the rule over the whole plane by `InfiniteGrid.StepIsPlaneRule`) |
| InfiniteGrid.StepWithinChecked | core/infinite_game.py:56-70 | the new live set is a subset of the cells to check |
| Rules.NextState | core/infinite_game.py:63-68 | the three-threshold rule: a live cell survives when its count lies between the two limits, a dead cell is born when its count equals the reproduction number |
| InfiniteGrid.CheckedIsActive | core/infinite_game.py:39-49 | every cell to check is alive or has a live neighbour |
| InfiniteGrid.ActiveIsChecked | core/infinite_game.py:39-49 | every live cell, and every cell with a live neighbour, is checked |
| InfiniteGrid.CellsToCheckExactly | core/infinite_game.py:39-49 | a cell is checked exactly when it is alive or has a live neighbour |
| InfiniteGrid.LiveCellsAreChecked | core/infinite_game.py:44-47 | every live cell is among the cells to check |
| InfiniteGrid.StepIsPlaneRule | core/infinite_game.py:51-71 | with a reproduction number other than 0, evaluating only the checked cells gives every cell of the plane the state the rule gives it |
| InfiniteGrid.ZeroReproductionStaysLocal | core/infinite_game.py:59-68 | with a reproduction number of 0, a cell far from life satisfies the birth rule but is not born |
| InfiniteGrid.EmptyStaysEmpty | core/infinite_game.py:51-71 | the next generation of an empty universe is empty |
| InfiniteGrid.SweptAll | core/infinite_game.py:45-47 | the nine offsets the nested loops visit cover exactly the 3x3 square around the cell |
| InfiniteGrid.InfiniteGameOfLife.constructor | core/infinite_game.py:10-19 | the new engine has no live cells, generation 0 and Conway's thresholds (2, 3, 3) |
| InfiniteGrid.InfiniteGameOfLife.ToggleCell | core/infinite_game.py:21-26 | (x, y) is removed if it was alive and inserted otherwise; no other cell changes |
| InfiniteGrid.InfiniteGameOfLife.CountNeighbors | core/infinite_game.py:28-37 | the loop returns the number of live cells among the eight neighbours |
| InfiniteGrid.InfiniteGameOfLife.AddSquare | core/infinite_game.py:45-47 | the inner two loops add exactly the cell's 3x3 square to the set |
| InfiniteGrid.InfiniteGameOfLife.GetCellsToCheck | core/infinite_game.py:39-49 | the result is the set of live cells and all their neighbours |
| InfiniteGrid.InfiniteGameOfLife.Evaluate | core/infinite_game.py:60-68 | the threshold tests give the rule's verdict for the cell, using the engine's current thresholds |
| InfiniteGrid.InfiniteGameOfLife.NextGeneration | core/infinite_game.py:51-71 | an empty universe is left as it is, generation included; otherwise the new live set is the step of the old one under the current rule, every count taken on the old set, and the generation goes up by 1 |
| InfiniteGrid.InfiniteGameOfLife.SetCustomRules | core/infinite_game.py:73-77 | the engine's rule becomes exactly the three given thresholds |
| InfiniteGrid.InfiniteGameOfLife.Clear | core/infinite_game.py:79-82 | no cell is alive and the generation is 0 |
| Agreement.InLiveSet | core/game_of_life.py:81-82 | a coordinate belongs to the grid's live set exactly when it lies in the grid and its cell is alive |
| Agreement.CountsAgree | core/game_of_life.py:59-85 | without wrapping, the bounded count of any coordinate equals the sparse count over the grid's live set |
| Agreement.TogglesAgree | core/game_of_life.py:30-38 | toggling a grid cell toggles that coordinate in the live set |
| Agreement.StepsAgree | core/game_of_life.py:40-57 | inside the grid, a non-wrapping bounded step makes a cell alive exactly when the sparse step with Conway's thresholds does |
| Agreement.StepsAgreeOnGrid | core/game_of_life.py:40-57 | the live set after a bounded step is the sparse step of the live set, cut down to the grid |
| Agreement.StepStaysNearGrid | core/infinite_game.py:39-49 | a sparse step of a grid's live set creates cells at most one cell beyond the grid's edges |
| Canvas.Setup | gui/game_modules/grid_canvas.py:177-180 | the deltas are non-negative, the signs are 1 or -1, and dx steps of sx lead from x1 to x2 and dy steps of sy from y1 to y2 |
| Canvas.Start | gui/game_modules/grid_canvas.py:181 | the walk starts at (x1, y1) with error term dx - dy (shown to satisfy the invariant by `Canvas.StartOnTrack`) |
| Canvas.Advance | gui/game_modules/grid_canvas.py:188-194 | one pass of the two error tests (its effect is stated by `Canvas.AdvanceOnTrack`) |
| Canvas.StartOnTrack | gui/game_modules/grid_canvas.py:177-181 | the initial deltas, step signs and error term satisfy the walk's invariant |
| Canvas.StepsAvailable | gui/game_modules/grid_canvas.py:188-194 | before the target, at least one axis steps, and an axis steps only while it still has distance to cover |
| Canvas.AdvanceOnTrack | gui/game_modules/grid_canvas.py:188-194 | one iteration keeps the invariant, moves each axis by 0 or 1 towards the target, moves at least one, and strictly reduces the remaining distance |
| Canvas.Trace | gui/game_modules/grid_canvas.py:183-194 | the walk from a cursor starts at that cursor and ends exactly at the target |
| Canvas.LinePoints | gui/game_modules/grid_canvas.py:175-194 | the drawn line starts at (x1, y1) and ends at (x2, y2) |
| Canvas.TraceConnected | gui/game_modules/grid_canvas.py:183-194 | every step of the walk is a distinct neighbouring cell, and every visited cell lies between the cursor and the target |
| Canvas.LineSteps | gui/game_modules/grid_canvas.py:175-194 | the line is continuous: consecutive cells differ, and each axis moves by 0 or 1 in the direction of the target |
| Canvas.LineInBox | gui/game_modules/grid_canvas.py:175-194 | every cell of the line lies in the rectangle spanned by its endpoints |
| Canvas.Paint | gui/game_modules/grid_canvas.py:184-185 | setting one point alive, if it is in the grid, keeps the grid's dimensions |
| Canvas.PaintAll | gui/game_modules/grid_canvas.py:183-185 | painting a list of points keeps the grid's dimensions |
| Canvas.PaintAllAt | gui/game_modules/grid_canvas.py:183-185 | after painting a list of points, an in-grid cell is alive exactly when it was alive or is among the points |
| Canvas.LinePainted | gui/game_modules/grid_canvas.py:183-194 | painting the line makes exactly its in-grid cells alive, including both endpoints when they are in the grid, and leaves every other cell as it was |
| Canvas.SetIfInRange | gui/game_modules/grid_canvas.py:184-185 | an in-grid point becomes alive; a point off the grid changes nothing |
| Canvas.AdvanceCursor | gui/game_modules/grid_canvas.py:188-194 | one update of the error term and coordinates is one step of the walk |
| Canvas.DrawLineBetweenPoints | gui/game_modules/grid_canvas.py:175-194 | the loop ends; afterwards an in-grid cell is alive exactly when it was alive before or lies on the line; both endpoints are alive when in the grid |
| Canvas.CellSize | gui/game_modules/grid_canvas.py:159 | the board of cols x rows cells of this side fits in the widget, and the side is at least 1 when there are no more cells than pixels along each axis |
| Canvas.Margin | gui/game_modules/grid_canvas.py:160-161 | when the board fits, the margin is non-negative and centres it to within one pixel |
| Canvas.FloorDivFacts | gui/game_modules/grid_canvas.py:163-167 | floor division by the cell size puts the pixel in one cell-sized interval, and the cell index is in range exactly when the offset pixel lies on the board |
| Canvas.CellCoords | gui/game_modules/grid_canvas.py:154-173 | a pixel maps to a cell exactly when it lies on the centred board, and then the cell is in the grid and the pixel lies inside that cell's square |
| Canvas.CellCoordsOfDrawnSquare | gui/game_modules/grid_canvas.py:46-60 | every pixel of the square painted for cell (gx, gy) maps back to (gx, gy) |

## Left out

- Rendering, mouse and wheel events, timers, menus, themes and the
  application entry point: these are user-interface code around the engines.
- The zoomable view branch of `_get_cell_coords`
  (gui/game_modules/grid_canvas.py:168-171): it multiplies by a floating-point
  zoom factor.
- `next_generation_custom`: the GUI calls a method by that name, but neither
  engine class defines it, so it is not part of this model.
- BoundedGrid.GameOfLife.ToggleCell: requires `0 <= x < width` and
  `0 <= y < height`. The canvas does pass other coordinates: in its zoomable
  view, a click goes to `toggle_cell` without a range check
  (gui/game_modules/grid_canvas.py:97-100, 168-173). Python then raises
  IndexError when x >= width, y >= height, x < -width or y < -height. For
  -width <= x < 0 or -height <= y < 0 it wraps the index and flips a cell
  counted from the far end of the row or column. The model excludes both
  cases.
- BoundedGrid.GameOfLife.constructor: width and height are `nat`. Python
  accepts a negative size and then builds an empty grid.
- BoundedGrid.GameOfLife.CountAliveNeighbors: requires a non-empty grid when
  wrapping. Python raises ZeroDivisionError on `% 0` there, but
  `next_generation` never calls it on an empty grid.
- Canvas.DrawLineBetweenPoints: the source stores the integer 1 in the
  boolean grid. The model stores `true`, which has the same truth value
  everywhere the grid is read.
- Canvas.CellCoords: requires `0 < cols <= widgetWidth` and
  `0 < rows <= widgetHeight`. Otherwise the cell size is 0 and Python raises
  ZeroDivisionError. The model does not represent that exception.
- Canvas.LinePoints: states the endpoints and the continuity of the line, not
  the exact number of cells, `max(|dx|, |dy|) + 1`.
- The sparse engine's dictionary values are always 1, so the engine is
  modelled by its key set.
- Integers are unbounded, as in Python.
