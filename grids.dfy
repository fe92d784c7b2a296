/** Grids as the two programs see them: an integer matrix whose cells are -1 (blocked), 0 (open) or a label. */
module Grids {

  /** A grid as a value: `g[a][b]` is row `a`, column `b`. */
  type Matrix = seq<seq<int>>

  /** The value of a blocked cell. */
  const BLOCKED: int := -1
  /** The value of an open cell. */
  const OPEN: int := 0

  function Rows(g: Matrix): nat { |g| }
  function Cols(g: Matrix): nat { if |g| == 0 then 0 else |g[0]| }

  predicate Rectangular(g: Matrix) {
    forall a :: 0 <= a < |g| ==> |g[a]| == Cols(g)
  }

  /** The contents of a 2-D array as a value. */
  function ToMatrix(grid: array2<int>): (g: Matrix)
    reads grid
    ensures Rectangular(g) && Rows(g) == grid.Length0
    ensures grid.Length0 > 0 ==> Cols(g) == grid.Length1
    ensures forall a, b :: 0 <= a < grid.Length0 && 0 <= b < grid.Length1 ==> g[a][b] == grid[a, b]
  {
    seq(grid.Length0, a requires 0 <= a < grid.Length0 reads grid =>
      seq(grid.Length1, b requires 0 <= b < grid.Length1 reads grid => grid[a, b]))
  }

  /** Every cell is blocked or open, as the grid editor's formatted export writes it. */
  predicate IsMask(g: Matrix) {
    forall a, b :: 0 <= a < |g| && 0 <= b < |g[a]| ==> g[a][b] == BLOCKED || g[a][b] == OPEN
  }

  /** Two grids of the same shape that agree on every cell are equal. */
  lemma MatrixEquality(m1: Matrix, m2: Matrix)
    requires Rectangular(m1) && Rectangular(m2) && Rows(m1) == Rows(m2) && Cols(m1) == Cols(m2)
    requires forall a, b :: 0 <= a < Rows(m1) && 0 <= b < Cols(m1) ==> m1[a][b] == m2[a][b]
    ensures m1 == m2
  {
    forall a | 0 <= a < Rows(m1) ensures m1[a] == m2[a] {
      assert |m1[a]| == |m2[a]| == Cols(m1);
    }
  }
}
