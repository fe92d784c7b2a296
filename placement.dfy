/**
 * The tile-placement problem of `optimize_placement`: the grid, the squares to
 * place, the candidate top-left positions (the keys of the `placements`
 * dictionary), and what an assignment of the 0/1 placement variables must
 * satisfy.
 */
module Placement {
  import opened Counting
  import opened Grids

  /** An entry `(size, label)` of the `squares` list; `tag` is the label. */
  datatype Square = Square(size: int, tag: int)

  /** The key `(s_id, i, j)`: square number `sq` with its top-left cell at (`row`, `col`). */
  datatype Candidate = Candidate(sq: nat, row: nat, col: nat)

  predicate PositiveSizes(squares: seq<Square>) {
    forall s :: 0 <= s < |squares| ==> squares[s].size >= 1
  }

  /** `len(range(n - size + 1))`: the number of top-left offsets along an axis of length `n`. */
  function Offsets(n: int, size: int): (k: nat)
    ensures k > 0 ==> (k - 1) + size == n
    ensures k > 0 <==> n - size + 1 > 0
  {
    if n - size + 1 > 0 then n - size + 1 else 0
  }

  /** `c` is a key of `placements`. */
  predicate IsCandidate(rows: int, cols: int, squares: seq<Square>, c: Candidate) {
    c.sq < |squares| && c.row < Offsets(rows, squares[c.sq].size) && c.col < Offsets(cols, squares[c.sq].size)
  }

  /** Every variable set to 1 is one of the model's variables. */
  ghost predicate InModel(rows: int, cols: int, squares: seq<Square>, x: set<Candidate>) {
    forall c :: c in x ==> IsCandidate(rows, cols, squares, c)
  }

  /** Cell (`a`, `b`) lies in the footprint of `c`. */
  predicate Covers(squares: seq<Square>, c: Candidate, a: int, b: int) {
    c.sq < |squares| &&
    c.row <= a < c.row + squares[c.sq].size &&
    c.col <= b < c.col + squares[c.sq].size
  }

  /** `np.any(grid[i:i+size, j:j+size] == -1)` for an in-range footprint. */
  predicate FootprintBlocked(g: Matrix, size: int, i: int, j: int)
    requires Rectangular(g)
    requires 0 <= i && 0 <= j && i + size <= Rows(g) && j + size <= Cols(g)
  {
    exists a, b | i <= a < i + size && j <= b < j + size :: g[a][b] == BLOCKED
  }

  /** The placements of square `s` in row-major order: the generator `(placements[(s, i, j)] for i for j)`. */
  function PlacementsOf(s: nat, rowOffsets: nat, colOffsets: nat): seq<Candidate> {
    if rowOffsets == 0 then []
    else PlacementsOf(s, rowOffsets - 1, colOffsets) + seq(colOffsets, j requires 0 <= j => Candidate(s, rowOffsets - 1, j))
  }

  /** A square is mandatory when its label is at most `num_mandatory`. */
  predicate Mandatory(tag: int, numMandatory: int) { tag <= numMandatory }

  /** The chosen placements of square `s`. */
  ghost function Selected(x: set<Candidate>, s: nat): set<Candidate> {
    set c | c in x && c.sq == s
  }

  /** The chosen placements whose footprint contains cell (`a`, `b`). */
  ghost function Covering(squares: seq<Square>, x: set<Candidate>, a: int, b: int): set<Candidate> {
    set c | c in x && Covers(squares, c, a, b)
  }

  /** The cardinality constraint of square `s`: exactly one placement if mandatory, at most one otherwise. */
  ghost predicate CardinalityOK(squares: seq<Square>, numMandatory: int, x: set<Candidate>, s: nat)
    requires s < |squares|
  {
    if Mandatory(squares[s].tag, numMandatory) then |Selected(x, s)| == 1 else |Selected(x, s)| <= 1
  }

  /** No chosen placement has a blocked cell in its footprint. */
  ghost predicate AvoidsBlocked(g: Matrix, squares: seq<Square>, x: set<Candidate>)
    requires Rectangular(g) && PositiveSizes(squares)
  {
    forall c :: c in x && IsCandidate(Rows(g), Cols(g), squares, c) ==>
      !FootprintBlocked(g, squares[c.sq].size, c.row, c.col)
  }

  /** No grid cell is covered by two chosen placements. */
  ghost predicate NoOverlap(g: Matrix, squares: seq<Square>, x: set<Candidate>) {
    forall a, b :: 0 <= a < Rows(g) && 0 <= b < Cols(g) ==> |Covering(squares, x, a, b)| <= 1
  }

  /** Every constraint `optimize_placement` adds to the model holds of the assignment `x`. */
  ghost predicate ValidAssignment(g: Matrix, squares: seq<Square>, numMandatory: int, x: set<Candidate>)
    requires Rectangular(g) && PositiveSizes(squares)
  {
    InModel(Rows(g), Cols(g), squares, x) &&
    (forall s :: 0 <= s < |squares| ==> CardinalityOK(squares, numMandatory, x, s)) &&
    AvoidsBlocked(g, squares, x) &&
    NoOverlap(g, squares, x)
  }

  /** The chosen placements of squares whose label is below, respectively at least, `num_mandatory`. */
  ghost function HeavyChosen(squares: seq<Square>, numMandatory: int, x: set<Candidate>): set<Candidate> {
    set c | c in x && c.sq < |squares| && squares[c.sq].tag < numMandatory
  }
  ghost function LightChosen(squares: seq<Square>, numMandatory: int, x: set<Candidate>): set<Candidate> {
    set c | c in x && c.sq < |squares| && squares[c.sq].tag >= numMandatory
  }

  /** The objective: 10 per chosen placement with label below `num_mandatory`, 1 per other one. No area term. */
  ghost function Score(squares: seq<Square>, numMandatory: int, x: set<Candidate>): int {
    10 * |HeavyChosen(squares, numMandatory, x)| + |LightChosen(squares, numMandatory, x)|
  }

  /** Some chosen placement covers cell (`a`, `b`). */
  ghost predicate CoveredBy(squares: seq<Square>, x: set<Candidate>, a: int, b: int) {
    exists c :: c in x && Covers(squares, c, a, b)
  }

  /** The value of cell (`a`, `b`) after the chosen squares are written into `g`. */
  ghost function MaterializedCell(g: Matrix, squares: seq<Square>, x: set<Candidate>, a: int, b: int): int
    requires Rectangular(g) && 0 <= a < Rows(g) && 0 <= b < Cols(g)
  {
    if CoveredBy(squares, x, a, b) then
      var c :| c in x && Covers(squares, c, a, b); squares[c.sq].tag
    else
      g[a][b]
  }

  /** The whole grid after the chosen squares are written into `g`. */
  ghost function Materialized(g: Matrix, squares: seq<Square>, x: set<Candidate>): (m: Matrix)
    requires Rectangular(g)
    ensures Rectangular(m) && Rows(m) == Rows(g) && Cols(m) == Cols(g)
  {
    seq(Rows(g), a requires 0 <= a < Rows(g) =>
      seq(Cols(g), b requires 0 <= b < Cols(g) => MaterializedCell(g, squares, x, a, b)))
  }

  // ---------------------------------------------------------------------------
  // Facts about candidates and placements used by the model builder.

  /** A candidate's footprint lies inside the grid. */
  lemma CandidateInGrid(rows: nat, cols: nat, squares: seq<Square>, c: Candidate)
    requires PositiveSizes(squares) && IsCandidate(rows, cols, squares, c)
    ensures c.row + squares[c.sq].size <= rows && c.col + squares[c.sq].size <= cols
  {
  }

  /** The generator over `i` and `j` lists exactly the placements of `s`, each once. */
  lemma {:induction false} PlacementsOfMembers(s: nat, rowOffsets: nat, colOffsets: nat)
    ensures Distinct(PlacementsOf(s, rowOffsets, colOffsets))
    ensures forall c :: c in PlacementsOf(s, rowOffsets, colOffsets) <==>
      c.sq == s && c.row < rowOffsets && c.col < colOffsets
  {
    if rowOffsets > 0 {
      var prefix := PlacementsOf(s, rowOffsets - 1, colOffsets);
      var last := seq(colOffsets, j requires 0 <= j => Candidate(s, rowOffsets - 1, j));
      PlacementsOfMembers(s, rowOffsets - 1, colOffsets);
      assert forall c :: c in last <==> c.sq == s && c.row == rowOffsets - 1 && c.col < colOffsets by {
        forall c: Candidate | c.sq == s && c.row == rowOffsets - 1 && c.col < colOffsets ensures c in last {
          assert last[c.col] == c;
        }
      }
      assert Distinct(last);
      DistinctConcat(prefix, last);
    }
  }

  /** When at most one chosen placement covers a cell, any two that cover it are the same. */
  lemma CoverUnique(squares: seq<Square>, x: set<Candidate>, a: int, b: int, c1: Candidate, c2: Candidate)
    requires |Covering(squares, x, a, b)| <= 1
    requires c1 in x && Covers(squares, c1, a, b) && c2 in x && Covers(squares, c2, a, b)
    ensures c1 == c2
  {
    AtMostOneMember(Covering(squares, x, a, b), c1, c2);
  }

  /** Under no overlap, a covered cell shows the label of the one chosen placement covering it. */
  lemma MaterializedCellIs(g: Matrix, squares: seq<Square>, x: set<Candidate>, a: int, b: int, c: Candidate)
    requires Rectangular(g) && 0 <= a < Rows(g) && 0 <= b < Cols(g)
    requires |Covering(squares, x, a, b)| <= 1
    requires c in x && Covers(squares, c, a, b)
    ensures MaterializedCell(g, squares, x, a, b) == squares[c.sq].tag
  {
    assert CoveredBy(squares, x, a, b);
    forall c' | c' in x && Covers(squares, c', a, b) ensures c' == c {
      CoverUnique(squares, x, a, b, c', c);
    }
  }
}
