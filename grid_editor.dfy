/**
 * The array logic of the grid editor's handlers: resizing that keeps the
 * top-left block, painting or erasing the rectangle between the drag start
 * and the pointer, the toggle painter, and the blocked/open mask of the
 * formatted export. The handlers' globals (`is_drawing`, `is_erasing`,
 * `color`, the drag start) are parameters; cells are given as row and column
 * indices inside the grid.
 */
module GridEditor {
  import opened Grids

  datatype Option<T> = None | Some(value: T)

  /** A grid cell: row `row`, column `col`. */
  datatype Cell = Cell(row: int, col: int)

  predicate InGrid(grid: array2<int>, c: Cell) {
    0 <= c.row < grid.Length0 && 0 <= c.col < grid.Length1
  }

  /** `v` lies between `p` and `q`, whichever of the two is smaller. */
  predicate Between(v: int, p: int, q: int) {
    p <= v <= q || q <= v <= p
  }

  /** `min(p, q), max(p, q)`: the corners' coordinates put in order. */
  function Ordered(p: int, q: int): (r: (int, int))
    ensures r.0 <= r.1
    ensures forall v :: Between(v, p, q) <==> r.0 <= v <= r.1
  {
    if p <= q then (p, q) else (q, p)
  }

  /** Cell (`a`, `b`) lies in the inclusive rectangle with corners `start` and `end`. */
  predicate InRect(start: Cell, end: Cell, a: int, b: int) {
    Between(a, start.row, end.row) && Between(b, start.col, end.col)
  }

  // ---------------------------------------------------------------------------
  // Resizing.

  /** The grid `resize_grid` builds: `rows` by `cols`, the old grid in the overlapping top-left block, -1 elsewhere. */
  function Resized(m: Matrix, rows: nat, cols: nat): (r: Matrix)
    requires Rectangular(m)
    ensures Rectangular(r) && Rows(r) == rows && (rows > 0 ==> Cols(r) == cols)
  {
    seq(rows, a requires 0 <= a < rows =>
      seq(cols, b requires 0 <= b < cols => if a < Rows(m) && b < Cols(m) then m[a][b] else BLOCKED))
  }

  /**
   * `resize_grid`: rejects a non-positive size and keeps the old grid; otherwise
   * returns a new `rows` by `cols` array that starts full of -1 and gets the
   * overlapping top-left block of the old grid copied in.
   */
  method Resize(grid: array2<int>, rows: int, cols: int) returns (newGrid: array2<int>, ok: bool)
    ensures ok <==> rows > 0 && cols > 0
    ensures !ok ==> newGrid == grid
    ensures ok ==> fresh(newGrid) && newGrid.Length0 == rows && newGrid.Length1 == cols
    ensures ok ==> ToMatrix(newGrid) == Resized(ToMatrix(grid), rows, cols)
  {
    if rows <= 0 || cols <= 0 {
      return grid, false;
    }
    newGrid := new int[rows, cols]((a, b) => BLOCKED);
    var keepRows := if grid.Length0 < rows then grid.Length0 else rows;
    var keepCols := if grid.Length1 < cols then grid.Length1 else cols;
    var a := 0;
    while a < keepRows
      invariant 0 <= a <= keepRows
      invariant forall i, j :: 0 <= i < rows && 0 <= j < cols ==>
        newGrid[i, j] == if i < a && j < keepCols then grid[i, j] else BLOCKED
    {
      var b := 0;
      while b < keepCols
        invariant 0 <= b <= keepCols
        invariant forall i, j :: 0 <= i < rows && 0 <= j < cols ==>
          newGrid[i, j] == if (i < a && j < keepCols) || (i == a && j < b) then grid[i, j] else BLOCKED
      {
        newGrid[a, b] := grid[a, b];
        b := b + 1;
      }
      a := a + 1;
    }
    MatrixEquality(ToMatrix(newGrid), Resized(ToMatrix(grid), rows, cols));
    ok := true;
  }

  /** Resizing to the current size changes nothing. */
  lemma ResizeIdentity(m: Matrix)
    requires Rectangular(m)
    ensures Resized(m, Rows(m), Cols(m)) == m
  {
    MatrixEquality(Resized(m, Rows(m), Cols(m)), m);
  }

  /** Two resizes whose first is at least as large as the second amount to the second alone. */
  lemma ResizeTwice(m: Matrix, rows1: nat, cols1: nat, rows2: nat, cols2: nat)
    requires Rectangular(m)
    requires rows2 <= rows1 && cols2 <= cols1
    ensures Resized(Resized(m, rows1, cols1), rows2, cols2) == Resized(m, rows2, cols2)
  {
    MatrixEquality(Resized(Resized(m, rows1, cols1), rows2, cols2), Resized(m, rows2, cols2));
  }

  /** Growing a grid and shrinking it back restores it. */
  lemma GrowShrink(m: Matrix, rows: nat, cols: nat)
    requires Rectangular(m) && Rows(m) <= rows && Cols(m) <= cols
    ensures Resized(Resized(m, rows, cols), Rows(m), Cols(m)) == m
  {
    ResizeTwice(m, rows, cols, Rows(m), Cols(m));
    ResizeIdentity(m);
  }

  // ---------------------------------------------------------------------------
  // Rectangle painting.

  /** A cell after `on_canvas_mouse_move`: erasing wins over drawing; cells outside the rectangle keep their value. */
  function PaintedCell(v: int, inside: bool, isDrawing: bool, isErasing: bool, color: int): int {
    if inside && isErasing then BLOCKED else if inside && isDrawing then color else v
  }

  function Painted(m: Matrix, start: Cell, end: Cell, isDrawing: bool, isErasing: bool, color: int): (r: Matrix)
    requires Rectangular(m)
    ensures Rectangular(r) && Rows(r) == Rows(m) && Cols(r) == Cols(m)
  {
    seq(Rows(m), a requires 0 <= a < Rows(m) =>
      seq(Cols(m), b requires 0 <= b < Cols(m) => PaintedCell(m[a][b], InRect(start, end, a, b), isDrawing, isErasing, color)))
  }

  /**
   * The rectangle loop of `on_canvas_mouse_move`: the drag start is the current
   * cell when none is set yet; the corners are ordered and every cell of the
   * inclusive rectangle is set to -1 when erasing, else to `color` when drawing.
   */
  method PaintRectangle(grid: array2<int>, dragStart: Option<Cell>, cell: Cell, isDrawing: bool, isErasing: bool, color: int)
    returns (start: Cell)
    requires dragStart.Some? ==> InGrid(grid, dragStart.value)
    requires InGrid(grid, cell)
    modifies grid
    ensures start == if dragStart.None? then cell else dragStart.value
    ensures ToMatrix(grid) == Painted(old(ToMatrix(grid)), start, cell, isDrawing, isErasing, color)
  {
    ghost var g0 := ToMatrix(grid);
    start := if dragStart.None? then cell else dragStart.value;
    var (rowStart, rowEnd) := Ordered(start.row, cell.row);
    var (colStart, colEnd) := Ordered(start.col, cell.col);
    var row := rowStart;
    while row <= rowEnd
      invariant rowStart <= row <= rowEnd + 1
      invariant forall i, j :: 0 <= i < grid.Length0 && 0 <= j < grid.Length1 ==>
        grid[i, j] == PaintedCell(g0[i][j], rowStart <= i < row && colStart <= j <= colEnd, isDrawing, isErasing, color)
    {
      var col := colStart;
      while col <= colEnd
        invariant colStart <= col <= colEnd + 1
        invariant forall i, j :: 0 <= i < grid.Length0 && 0 <= j < grid.Length1 ==>
          grid[i, j] == PaintedCell(g0[i][j], colStart <= j <= colEnd && (rowStart <= i < row || (i == row && j < col)),
                                    isDrawing, isErasing, color)
      {
        if isErasing {
          grid[row, col] := BLOCKED;
        } else if isDrawing {
          grid[row, col] := color;
        }
        col := col + 1;
      }
      row := row + 1;
    }
    MatrixEquality(ToMatrix(grid), Painted(g0, start, cell, isDrawing, isErasing, color));
  }

  /** Inside the rectangle erasing leaves -1 and drawing leaves `color`; outside it nothing changes. */
  lemma PaintedCells(m: Matrix, start: Cell, end: Cell, isDrawing: bool, isErasing: bool, color: int, a: int, b: int)
    requires Rectangular(m) && 0 <= a < Rows(m) && 0 <= b < Cols(m)
    ensures InRect(start, end, a, b) && isErasing ==> Painted(m, start, end, isDrawing, isErasing, color)[a][b] == BLOCKED
    ensures InRect(start, end, a, b) && !isErasing && isDrawing ==>
      Painted(m, start, end, isDrawing, isErasing, color)[a][b] == color
    ensures !InRect(start, end, a, b) ==> Painted(m, start, end, isDrawing, isErasing, color)[a][b] == m[a][b]
  {
  }

  /** With neither button held the grid is left as it is. */
  lemma PaintIdle(m: Matrix, start: Cell, end: Cell, color: int)
    requires Rectangular(m)
    ensures Painted(m, start, end, false, false, color) == m
  {
    MatrixEquality(Painted(m, start, end, false, false, color), m);
  }

  /** Repeating a move event over the same rectangle changes nothing further. */
  lemma PaintIdempotent(m: Matrix, start: Cell, end: Cell, isDrawing: bool, isErasing: bool, color: int)
    requires Rectangular(m)
    ensures Painted(Painted(m, start, end, isDrawing, isErasing, color), start, end, isDrawing, isErasing, color) ==
      Painted(m, start, end, isDrawing, isErasing, color)
  {
    var once := Painted(m, start, end, isDrawing, isErasing, color);
    MatrixEquality(Painted(once, start, end, isDrawing, isErasing, color), once);
  }

  /** The rectangle does not depend on which corner the drag started from. */
  lemma PaintSymmetric(m: Matrix, start: Cell, end: Cell, isDrawing: bool, isErasing: bool, color: int)
    requires Rectangular(m)
    ensures Painted(m, start, end, isDrawing, isErasing, color) == Painted(m, end, start, isDrawing, isErasing, color)
  {
    MatrixEquality(Painted(m, start, end, isDrawing, isErasing, color), Painted(m, end, start, isDrawing, isErasing, color));
  }

  // ---------------------------------------------------------------------------
  // The toggle painter.

  /** `event.state & 0x0001`. */
  predicate LowBit(state: nat) { state % 2 == 1 }
  /** `event.state & 0x0002`. */
  predicate SecondBit(state: nat) { (state / 2) % 2 == 1 }

  /** A cell after `on_canvas_drag`. */
  function ToggledCell(v: int, inside: bool, isDrawing: bool, state: nat): int {
    if !(inside && isDrawing) then v
    else if LowBit(state) then (if v == OPEN then BLOCKED else v)
    else if SecondBit(state) then (if v == BLOCKED then OPEN else v)
    else v
  }

  function Toggled(m: Matrix, start: Cell, end: Cell, isDrawing: bool, state: nat): (r: Matrix)
    requires Rectangular(m)
    ensures Rectangular(r) && Rows(r) == Rows(m) && Cols(r) == Cols(m)
  {
    seq(Rows(m), a requires 0 <= a < Rows(m) =>
      seq(Cols(m), b requires 0 <= b < Cols(m) => ToggledCell(m[a][b], InRect(start, end, a, b), isDrawing, state)))
  }

  /**
   * The rectangle loop of `on_canvas_drag`: only while drawing, it turns open
   * cells into blocked ones when bit 0x0001 of the event state is set, and
   * otherwise blocked cells into open ones when bit 0x0002 is set.
   */
  method ToggleRectangle(grid: array2<int>, dragStart: Cell, cell: Cell, isDrawing: bool, state: nat)
    requires isDrawing ==> InGrid(grid, dragStart) && InGrid(grid, cell)
    modifies grid
    ensures ToMatrix(grid) == Toggled(old(ToMatrix(grid)), dragStart, cell, isDrawing, state)
  {
    ghost var g0 := ToMatrix(grid);
    if isDrawing {
      var (rowStart, rowEnd) := Ordered(dragStart.row, cell.row);
      var (colStart, colEnd) := Ordered(dragStart.col, cell.col);
      var row := rowStart;
      while row <= rowEnd
        invariant rowStart <= row <= rowEnd + 1
        invariant forall i, j :: 0 <= i < grid.Length0 && 0 <= j < grid.Length1 ==>
          grid[i, j] == ToggledCell(g0[i][j], rowStart <= i < row && colStart <= j <= colEnd, isDrawing, state)
      {
        var col := colStart;
        while col <= colEnd
          invariant colStart <= col <= colEnd + 1
          invariant forall i, j :: 0 <= i < grid.Length0 && 0 <= j < grid.Length1 ==>
            grid[i, j] == ToggledCell(g0[i][j], colStart <= j <= colEnd && (rowStart <= i < row || (i == row && j < col)),
                                      isDrawing, state)
        {
          if state % 2 == 1 {
            if grid[row, col] == OPEN {
              grid[row, col] := BLOCKED;
            }
          } else if (state / 2) % 2 == 1 {
            if grid[row, col] == BLOCKED {
              grid[row, col] := OPEN;
            }
          }
          col := col + 1;
        }
        row := row + 1;
      }
    }
    MatrixEquality(ToMatrix(grid), Toggled(g0, dragStart, cell, isDrawing, state));
  }

  /**
   * A toggled cell either keeps its value or is an open cell turned blocked
   * (bit 0x0001) or a blocked cell turned open (bit 0x0002 without bit 0x0001),
   * inside the rectangle and while drawing.
   */
  lemma ToggleOnlySwaps(m: Matrix, start: Cell, end: Cell, isDrawing: bool, state: nat, a: int, b: int)
    requires Rectangular(m) && 0 <= a < Rows(m) && 0 <= b < Cols(m)
    ensures var v, w := m[a][b], Toggled(m, start, end, isDrawing, state)[a][b];
      w == v ||
      (isDrawing && InRect(start, end, a, b) && LowBit(state) && v == OPEN && w == BLOCKED) ||
      (isDrawing && InRect(start, end, a, b) && !LowBit(state) && SecondBit(state) && v == BLOCKED && w == OPEN)
  {
  }

  /** A grid of only blocked and open cells stays one under the toggle painter. */
  lemma ToggleKeepsMask(m: Matrix, start: Cell, end: Cell, isDrawing: bool, state: nat)
    requires Rectangular(m) && IsMask(m)
    ensures IsMask(Toggled(m, start, end, isDrawing, state))
  {
    forall a, b | 0 <= a < Rows(m) && 0 <= b < Cols(m)
      ensures Toggled(m, start, end, isDrawing, state)[a][b] == BLOCKED || Toggled(m, start, end, isDrawing, state)[a][b] == OPEN
    {
      ToggleOnlySwaps(m, start, end, isDrawing, state, a, b);
    }
  }

  /** Toggling the same rectangle again changes nothing further. */
  lemma ToggleIdempotent(m: Matrix, start: Cell, end: Cell, isDrawing: bool, state: nat)
    requires Rectangular(m)
    ensures Toggled(Toggled(m, start, end, isDrawing, state), start, end, isDrawing, state) ==
      Toggled(m, start, end, isDrawing, state)
  {
    var once := Toggled(m, start, end, isDrawing, state);
    MatrixEquality(Toggled(once, start, end, isDrawing, state), once);
  }

  // ---------------------------------------------------------------------------
  // The formatted export.

  /** `arr[arr != -1] = 0`: a grid of blocked and open cells, blocked exactly where `m` is. */
  function Masked(m: Matrix): (r: Matrix)
    requires Rectangular(m)
    ensures Rectangular(r) && Rows(r) == Rows(m) && Cols(r) == Cols(m)
    ensures IsMask(r)
    ensures forall a, b :: 0 <= a < Rows(m) && 0 <= b < Cols(m) ==> (r[a][b] == BLOCKED <==> m[a][b] == BLOCKED)
  {
    seq(Rows(m), a requires 0 <= a < Rows(m) =>
      seq(Cols(m), b requires 0 <= b < Cols(m) => if m[a][b] == BLOCKED then BLOCKED else OPEN))
  }

  /** `grid.copy()`. */
  method CopyGrid(grid: array2<int>) returns (copy: array2<int>)
    ensures fresh(copy) && copy.Length0 == grid.Length0 && copy.Length1 == grid.Length1
    ensures ToMatrix(copy) == ToMatrix(grid)
  {
    copy := new int[grid.Length0, grid.Length1];
    var a := 0;
    while a < grid.Length0
      invariant 0 <= a <= grid.Length0
      invariant forall i, j :: 0 <= i < a && 0 <= j < grid.Length1 ==> copy[i, j] == grid[i, j]
    {
      var b := 0;
      while b < grid.Length1
        invariant 0 <= b <= grid.Length1
        invariant forall i, j :: (0 <= i < a || i == a) && 0 <= j < grid.Length1 && (i < a || j < b) ==>
          copy[i, j] == grid[i, j]
      {
        copy[a, b] := grid[a, b];
        b := b + 1;
      }
      a := a + 1;
    }
    MatrixEquality(ToMatrix(copy), ToMatrix(grid));
  }

  /** `arr[arr != -1] = 0`, in place. */
  method MaskInPlace(arr: array2<int>)
    modifies arr
    ensures ToMatrix(arr) == Masked(old(ToMatrix(arr)))
  {
    ghost var g0 := ToMatrix(arr);
    var a := 0;
    while a < arr.Length0
      invariant 0 <= a <= arr.Length0
      invariant forall i, j :: 0 <= i < arr.Length0 && 0 <= j < arr.Length1 ==>
        arr[i, j] == if i < a && g0[i][j] != BLOCKED then OPEN else g0[i][j]
    {
      var b := 0;
      while b < arr.Length1
        invariant 0 <= b <= arr.Length1
        invariant forall i, j :: 0 <= i < arr.Length0 && 0 <= j < arr.Length1 ==>
          arr[i, j] == if (i < a || (i == a && j < b)) && g0[i][j] != BLOCKED then OPEN else g0[i][j]
      {
        if arr[a, b] != BLOCKED {
          arr[a, b] := OPEN;
        }
        b := b + 1;
      }
      a := a + 1;
    }
    MatrixEquality(ToMatrix(arr), Masked(g0));
  }

  /** The `arr` of `show_final_grid`: a masked copy; the grid itself is left as it is. */
  method FormattedExport(grid: array2<int>) returns (arr: array2<int>)
    ensures fresh(arr) && arr.Length0 == grid.Length0 && arr.Length1 == grid.Length1
    ensures ToMatrix(arr) == Masked(ToMatrix(grid))
  {
    arr := CopyGrid(grid);
    MaskInPlace(arr);
  }

  /** A grid of only blocked and open cells is its own mask; so masking twice is masking once. */
  lemma MaskOfMask(m: Matrix)
    requires Rectangular(m) && IsMask(m)
    ensures Masked(m) == m
  {
    MatrixEquality(Masked(m), m);
  }
}
