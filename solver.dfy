/**
 * `optimize_placement` itself: build the model, hand it to the solver, and on
 * OPTIMAL or FEASIBLE write every chosen square's label into its footprint in
 * the grid that was passed in.
 */
module Solver {
  import opened Counting
  import opened Grids
  import opened Placement
  import opened CpSat
  import opened ModelBuilder

  /** `grid[top:top+size, left:left+size] = tag` (solver.py line 119), for an in-range square. */
  method FillSquare(grid: array2<int>, top: nat, left: nat, size: nat, tag: int)
    requires top + size <= grid.Length0 && left + size <= grid.Length1
    modifies grid
    ensures forall a, b :: 0 <= a < grid.Length0 && 0 <= b < grid.Length1 ==>
      grid[a, b] == if top <= a < top + size && left <= b < left + size then tag else old(grid[a, b])
  {
    var a := top;
    while a < top + size
      invariant top <= a <= top + size
      invariant forall a', b :: 0 <= a' < grid.Length0 && 0 <= b < grid.Length1 ==>
        grid[a', b] == if top <= a' < a && left <= b < left + size then tag else old(grid[a', b])
    {
      var b := left;
      while b < left + size
        invariant left <= b <= left + size
        invariant forall a', b' :: 0 <= a' < grid.Length0 && 0 <= b' < grid.Length1 ==>
          grid[a', b'] == if (top <= a' < a && left <= b' < left + size) || (a' == a && left <= b' < b) then tag else old(grid[a', b'])
      {
        grid[a, b] := tag;
        b := b + 1;
      }
      a := a + 1;
    }
  }

  /** Cell (`a`, `b`) is covered by a chosen placement enumerated before `(s, i, j)`. */
  ghost predicate WrittenBefore(squares: seq<Square>, x: set<Candidate>, s: int, i: int, j: int, a: int, b: int) {
    exists c :: c in x && EnumeratedBefore(c, s, i, j) && Covers(squares, c, a, b)
  }

  /**
   * The write-back loop of solver.py lines 115-119: when the chosen placements do
   * not overlap, every cell ends up as `MaterializedCell` of the grid it started from.
   */
  method WriteSquares(grid: array2<int>, squares: seq<Square>, x: set<Candidate>)
    requires PositiveSizes(squares)
    requires InModel(grid.Length0, grid.Length1, squares, x)
    requires NoOverlap(ToMatrix(grid), squares, x)
    modifies grid
    ensures forall a, b :: 0 <= a < grid.Length0 && 0 <= b < grid.Length1 ==>
      grid[a, b] == MaterializedCell(old(ToMatrix(grid)), squares, x, a, b)
  {
    ghost var g0 := ToMatrix(grid);
    var rows, cols := grid.Length0, grid.Length1;
    var s := 0;
    while s < |squares|
      invariant 0 <= s <= |squares|
      invariant forall c, a, b ::
        c in x && EnumeratedBefore(c, s, 0, 0) && Covers(squares, c, a, b) && 0 <= a < rows && 0 <= b < cols
        ==> grid[a, b] == squares[c.sq].tag
      invariant forall a, b :: 0 <= a < rows && 0 <= b < cols && grid[a, b] != g0[a][b] ==>
        WrittenBefore(squares, x, s, 0, 0, a, b)
    {
      var size, tag := squares[s].size, squares[s].tag;
      var i := 0;
      while i < rows - size + 1
        invariant 0 <= i <= Offsets(rows, size)
        invariant forall c, a, b ::
          c in x && EnumeratedBefore(c, s, i, 0) && Covers(squares, c, a, b) && 0 <= a < rows && 0 <= b < cols
          ==> grid[a, b] == squares[c.sq].tag
        invariant forall a, b :: 0 <= a < rows && 0 <= b < cols && grid[a, b] != g0[a][b] ==>
          WrittenBefore(squares, x, s, i, 0, a, b)
      {
        var j := 0;
        while j < cols - size + 1
          invariant 0 <= j <= Offsets(cols, size)
          invariant forall c, a, b ::
            c in x && EnumeratedBefore(c, s, i, j) && Covers(squares, c, a, b) && 0 <= a < rows && 0 <= b < cols
            ==> grid[a, b] == squares[c.sq].tag
          invariant forall a, b :: 0 <= a < rows && 0 <= b < cols && grid[a, b] != g0[a][b] ==>
            WrittenBefore(squares, x, s, i, j, a, b)
        {
          var c0 := Candidate(s, i, j);
          if c0 in x {
            FillSquare(grid, i, j, size, tag);
            forall c, a, b | c in x && EnumeratedBefore(c, s, i, j + 1) && Covers(squares, c, a, b) &&
              0 <= a < rows && 0 <= b < cols
              ensures grid[a, b] == squares[c.sq].tag
            {
              if Covers(squares, c0, a, b) {
                assert |Covering(squares, x, a, b)| <= 1;
                CoverUnique(squares, x, a, b, c, c0);
              }
            }
            forall a, b | 0 <= a < rows && 0 <= b < cols && grid[a, b] != g0[a][b]
              ensures WrittenBefore(squares, x, s, i, j + 1, a, b)
            {
              if Covers(squares, c0, a, b) {
                assert EnumeratedBefore(c0, s, i, j + 1);
              } else {
                var c :| c in x && EnumeratedBefore(c, s, i, j) && Covers(squares, c, a, b);
                assert EnumeratedBefore(c, s, i, j + 1);
              }
            }
          } else {
            forall c, a, b | c in x && EnumeratedBefore(c, s, i, j + 1) && Covers(squares, c, a, b) &&
              0 <= a < rows && 0 <= b < cols
              ensures grid[a, b] == squares[c.sq].tag
            {
              assert c != c0 && EnumeratedBefore(c, s, i, j);
            }
            forall a, b | 0 <= a < rows && 0 <= b < cols && grid[a, b] != g0[a][b]
              ensures WrittenBefore(squares, x, s, i, j + 1, a, b)
            {
              var c :| c in x && EnumeratedBefore(c, s, i, j) && Covers(squares, c, a, b);
              assert EnumeratedBefore(c, s, i, j + 1);
            }
          }
          j := j + 1;
        }
        i := i + 1;
      }
      s := s + 1;
    }
    forall a, b | 0 <= a < rows && 0 <= b < cols
      ensures grid[a, b] == MaterializedCell(g0, squares, x, a, b)
    {
      if CoveredBy(squares, x, a, b) {
        var c :| c in x && Covers(squares, c, a, b);
        MaterializedCellIs(g0, squares, x, a, b, c);
      } else {
        assert WrittenBefore(squares, x, s, 0, 0, a, b) ==> CoveredBy(squares, x, a, b);
      }
    }
  }

  /**
   * `optimize_placement(grid, squares, num_mandatory)` with the CP-SAT solve given as
   * `solve`. The grid passed in is updated in place and returned. On OPTIMAL or
   * FEASIBLE the chosen placements form a valid assignment (an optimal one on
   * OPTIMAL) and the grid holds their labels; on any other status it is unchanged.
   */
  method OptimizePlacement(grid: array2<int>, squares: seq<Square>, numMandatory: int, solve: CpModel -> SolveResult)
    returns (result: array2<int>, status: Status, chosen: set<Candidate>)
    requires PositiveSizes(squares)
    requires SolverContract(solve)
    modifies grid
    ensures result == grid
    ensures Succeeded(status) ==> ValidAssignment(old(ToMatrix(grid)), squares, numMandatory, chosen)
    ensures Succeeded(status) ==> forall a, b :: 0 <= a < grid.Length0 && 0 <= b < grid.Length1 ==>
      grid[a, b] == MaterializedCell(old(ToMatrix(grid)), squares, chosen, a, b)
    ensures status == Optimal ==> forall y :: ValidAssignment(old(ToMatrix(grid)), squares, numMandatory, y) ==>
      Score(squares, numMandatory, y) <= Score(squares, numMandatory, chosen)
    ensures !Succeeded(status) ==> unchanged(grid)
  {
    var g := ToMatrix(grid);
    var model := BuildModel(g, squares, numMandatory);
    var outcome := solve(model);
    status, chosen := outcome.status, outcome.values;
    if Succeeded(status) {
      assert ValidAssignment(g, squares, numMandatory, chosen);
      assert InModel(grid.Length0, grid.Length1, squares, chosen);
      WriteSquares(grid, squares, chosen);
    }
    result := grid;
  }
}
