# TilingSolver in Dafny

A model of the two halves of TilingSolver:

- `optimize_placement` in `solver.py`, which places labelled square tiles on a
  grid of blocked (`-1`) and open (`0`) cells. It builds a CP-SAT model with one
  0/1 variable per candidate top-left position. The model has an exactly-one or
  at-most-one constraint per square, forces candidates with a blocked footprint
  to 0, allows at most one chosen candidate per cell, and maximises
  10 × (chosen squares with label below `num_mandatory`) + (the other chosen
  squares). On OPTIMAL or FEASIBLE it writes each chosen square's label into
  the grid it was given and returns that grid.
- The array logic of the editor in `grid.py`: resizing that keeps the top-left
  block, painting or erasing the rectangle between the drag start and the
  pointer, the toggle painter, and the blocked/open mask of the formatted
  export.

Modules:

| file | module | what it holds |
|---|---|---|
| `counting.dfy` | `Counting` | sums of 0/1 variables as set cardinalities; cell blocks |
| `grids.dfy` | `Grids` | grids as values (`Matrix`), the `-1`/`0` constants, `ToMatrix` of an `array2` |
| `placement.dfy` | `Placement` | squares, candidates, the valid-assignment predicate, the objective `Score`, the grid after write-back (`Materialized`) |
| `cp_model.dfy` | `CpSat` | the constraints and objective handed to CP-SAT, the solve statuses, and what a solver backend must guarantee (`SolverContract`) |
| `model_builder.dfy` | `ModelBuilder` | the loops that build the variables, the constraints and the objective |
| `solver.dfy` | `Solver` | `optimize_placement`: build, solve, write back in place |
| `placement_properties.dfy` | `PlacementProperties` | what a valid assignment guarantees about the result; the objective's mandatory boundary; feasibility examples |
| `grid_editor.dfy` | `GridEditor` | the editor's resize, paint/erase, toggle and export mask on `array2<int>` |

The CP-SAT solve is a parameter `solve: CpModel -> SolveResult` of
`Solver.OptimizePlacement`. The only assumption about it is `SolverContract`:
on OPTIMAL or FEASIBLE its values satisfy every constraint of the model, and on
OPTIMAL no satisfying assignment has a larger objective.

Each constraint-building method states what its constraints mean: for every
assignment inside the model's variables, they all hold exactly when the
corresponding part of `ValidAssignment` holds. `ModelBuilder.BuildModel`
combines these: the model's solutions are exactly the valid assignments, and
its objective value is `Score`. The write-back is proved against
`MaterializedCell`, the value a cell has after every chosen square's label is
written into its footprint.

Behaviour of the code worth noting:

- `optimize_placement` writes into the grid passed in and returns that same
  array (solver.py:119, 124).
- The objective counts chosen placements: it weighs labels below
  `num_mandatory` 10 and all others 1, whatever their size (solver.py:104-107).
- Squares are identified per instance, one `(size, label)` entry each, and each
  square's constraint is about that one entry.
- `resize_grid` fills newly exposed cells with `-1`, the blocked value
  (grid.py:239).
- Mandatory means `label <= num_mandatory` in the cardinality constraints
  (solver.py:80). The objective uses `label < num_mandatory` for the weight-10
  class (solver.py:105-106). `PlacementProperties.BoundaryShift` and
  `PlacementProperties.BoundaryKeepsRanking` show this has no effect on which
  valid assignments are optimal.

## Model

| member | source | states |
|---|---|---|
| Placement.Offsets | solver.py:73-74 | `range(n - size + 1)` is non-empty exactly when the square fits along the axis; the last offset plus the size is the axis length |
| Placement.CandidateInGrid | solver.py:72-75 | every candidate's footprint lies inside the grid |
| Placement.PlacementsOfMembers | solver.py:81 | the `for i for j` generator of one square lists exactly that square's candidates, each once |
| Placement.MaterializedCellIs | solver.py:115-119 | when at most one chosen placement covers a cell, the cell ends up with that placement's label |
| Counting.CountIsCardinality | solver.py:81-83 | the sum of distinct 0/1 variables equals the number of them that are chosen |
| ModelBuilder.EnumerateCandidates | solver.py:71-75 | the keys of `placements` are exactly the candidates `(s, i, j)` with `i <= rows - size`, `j <= cols - size`, each once |
| ModelBuilder.PlacementSum | solver.py:81-83 | the cardinality sum of a square counts its chosen placements |
| ModelBuilder.SquareConstraints | solver.py:78-89 | the per-square constraints hold exactly when each mandatory square is chosen once, each optional square at most once, and no chosen candidate has a `-1` in its footprint |
| ModelBuilder.CollectOverlap | solver.py:94-99 | the `overlap` list of a cell is exactly the candidates whose footprint contains that cell, each once |
| ModelBuilder.OverlapSum | solver.py:100-101 | `sum(overlap)` counts the chosen placements covering the cell |
| ModelBuilder.OverlapConstraints | solver.py:91-101 | the per-cell constraints hold exactly when no cell is covered by two chosen placements |
| ModelBuilder.ClassPlacementsMembers | solver.py:105-106 | each objective generator lists exactly the candidates of squares with label below (or at least) `num_mandatory`, each once |
| ModelBuilder.PlacementObjective | solver.py:104-107 | the objective's value is 10 × chosen placements with label below `num_mandatory` plus 1 × the others; there is no area term |
| ModelBuilder.BuildModel | solver.py:66-107 | the model's satisfying assignments are exactly the valid assignments, and its objective is `Score` |
| Solver.FillSquare | solver.py:119 | the slice assignment sets exactly the `size`×`size` footprint to the label and leaves every other cell as it was |
| Solver.WriteSquares | solver.py:115-119 | after the write-back loop, each cell covered by a chosen placement holds that placement's label and every other cell keeps its old value |
| Solver.OptimizePlacement | solver.py:66-124 | the grid passed in is returned; on OPTIMAL/FEASIBLE the chosen placements form a valid assignment of the original grid (with maximal `Score` on OPTIMAL) and the grid holds their labels; on any other status the grid is unchanged |
| PlacementProperties.BlockedCellsKept | solver.py:85-89 | a cell under a chosen placement was not blocked, so every `-1` cell is still `-1` after the write-back |
| PlacementProperties.MaterializedCells | solver.py:114-119 | cells outside all chosen footprints keep their value; covered cells show the label of the square covering them |
| PlacementProperties.SelectedOnce | solver.py:78-83 | no square is chosen at two positions |
| PlacementProperties.SquareArea | solver.py:92-101 | with unique positive labels on a `-1`/`0` grid, a chosen square's label occupies exactly its footprint, `size * size` cells |
| PlacementProperties.BoundaryChosenOnce | solver.py:80-81 | the squares labelled exactly `num_mandatory` are mandatory, so each of them is chosen once |
| PlacementProperties.BoundaryShift | solver.py:104-107 | on valid assignments, weighing every mandatory square 10 would raise the objective by exactly 9 per square labelled `num_mandatory` |
| PlacementProperties.BoundaryKeepsRanking | solver.py:104-107 | the objective as written orders valid assignments exactly as the mandatory-weighted one does |
| PlacementProperties.FullyBlockedInfeasible | solver.py:80-89 | on a grid of only `-1` cells no assignment is valid when any square is mandatory |
| PlacementProperties.SinglePlacementValid | solver.py:78-101 | one square at one in-range position whose footprint has no `-1` is a valid assignment |
| PlacementProperties.ExportRecoversInput | solver.py:114-119 | when no label is `-1`, masking the solved grid (every non-`-1` cell to `0`) gives back the `-1`/`0` grid the solver was given |
| GridEditor.Ordered | grid.py:80-81 | the ordered pair of corner coordinates spans exactly the values between the two corners |
| GridEditor.Resize | grid.py:230-248 | a non-positive row or column count is rejected and the old grid kept; otherwise a newly allocated `rows`×`cols` grid holds the old grid's overlapping top-left block and `-1` elsewhere |
| GridEditor.ResizeIdentity | grid.py:238-243 | resizing to the current shape changes nothing |
| GridEditor.ResizeTwice | grid.py:238-243 | resizing to a larger shape and then to a smaller one is the same as resizing to the smaller one directly |
| GridEditor.GrowShrink | grid.py:238-243 | growing a grid and shrinking it back restores it |
| GridEditor.PaintRectangle | grid.py:57-90 | the drag start is the current cell when none is set; every cell of the inclusive rectangle becomes `-1` when erasing, else `color` when drawing; all other cells are unchanged |
| GridEditor.PaintedCells | grid.py:83-90 | erasing takes precedence over drawing inside the rectangle, and nothing outside it changes |
| GridEditor.PaintIdle | grid.py:83-90 | with neither flag set the grid is unchanged |
| GridEditor.PaintIdempotent | grid.py:83-90 | repeating a move event over the same rectangle changes nothing further |
| GridEditor.PaintSymmetric | grid.py:74-81 | the painted rectangle does not depend on which corner the drag started from |
| GridEditor.ToggleRectangle | grid.py:98-118 | only while drawing, each cell of the rectangle goes `0` → `-1` when state bit 0x0001 is set, else `-1` → `0` when bit 0x0002 is set; all other cells are unchanged |
| GridEditor.ToggleOnlySwaps | grid.py:111-118 | a toggled cell either keeps its value or is a `0` turned `-1` (bit 0x0001) or a `-1` turned `0` (bit 0x0002 alone) inside the rectangle |
| GridEditor.ToggleKeepsMask | grid.py:111-118 | a grid of only `-1` and `0` cells stays one under the toggle painter |
| GridEditor.ToggleIdempotent | grid.py:111-118 | toggling the same rectangle twice is the same as toggling it once |
| GridEditor.Masked | grid.py:191-192 | the export mask holds only `-1` and `0`, with `-1` exactly where the grid has `-1` |
| GridEditor.CopyGrid | grid.py:191 | `grid.copy()` is a fresh array with the same contents |
| GridEditor.MaskInPlace | grid.py:192 | after the masked assignment every non-`-1` cell is `0` and every `-1` cell is kept |
| GridEditor.FormattedExport | grid.py:189-192 | the export array is a new array holding the mask of the grid, and the grid itself is unchanged |
| GridEditor.MaskOfMask | grid.py:192 | a grid of only `-1` and `0` cells is its own mask, so masking twice is masking once |

## Left out

- The CP-SAT search (solver.py:110-111) is a foreign library. It is the parameter `solve`, constrained only by `SolverContract`.
- The `print` of the status (solver.py:120, 122). `Solver.OptimizePlacement` returns the status instead.
- `visualize_grid` (solver.py:6-63) is matplotlib rendering.
- The script setup at the end of solver.py (127-141) is one concrete instance, not a behaviour.
- Solver.OptimizePlacement: requires every square size to be at least 1. The code does not check sizes; a size of 0 or less would give candidates with empty footprints or footprints past the grid edge.
- Solver.WriteSquares: requires the chosen placements not to overlap. This always holds for what the solver returns; the overwrite order for overlapping placements is not modelled.
- A mandatory square with no candidate makes `sum(...) == 1` a constraint over no variables. It is modelled as a sum over the empty list equal to 1, which nothing satisfies.
- The Tk window, canvas, `draw_grid`, the event bindings and `mainloop` of grid.py are user interface.
- Pixel-to-cell conversion and panning (`offset_x`, `offset_y`, `on_canvas_drag_pan`, `on_canvas_drag_start`) are left out. Cells are given as row and column indices that must lie in the grid. The code has no bounds check, and numpy would wrap negative indices.
- The globals `is_drawing`, `is_erasing`, `color` and the drag start are parameters. `on_canvas_grab`, `on_canvas_release` and `key_press`, which set them, are not modelled.
- GridEditor.ToggleRectangle: requires a drag start cell. In the code, `on_canvas_drag` with no drag start would fail on `None`. The handler is also not bound to any event (grid.py:267 is commented out).
- `on_zoom` (grid.py:156-166) is floating-point zoom arithmetic for display.
- File I/O: `np.savetxt` (grid.py:195-196) and `np.loadtxt` in `load_grid` (grid.py:219).
- `resize_grid` reads the sizes from text entries. Non-numeric text raises `ValueError` and is handled like a non-positive size. The model takes the sizes as integers.
