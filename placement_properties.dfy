/**
 * What a valid assignment guarantees about the grid `optimize_placement` returns,
 * and what the objective it maximises means.
 */
module PlacementProperties {
  import opened Counting
  import opened Grids
  import opened Placement
  import GridEditor

  /** Every label is positive, as the colour table of the editor and the plot expect. */
  predicate PositiveLabels(squares: seq<Square>) {
    forall s :: 0 <= s < |squares| ==> squares[s].tag > 0
  }

  /** Labels are positive and no two squares share one (the per-instance variant). */
  predicate UniquePositiveLabels(squares: seq<Square>) {
    PositiveLabels(squares) &&
    (forall s, t :: 0 <= s < t < |squares| ==> squares[s].tag != squares[t].tag)
  }

  /** The cells of `m` holding `v`. */
  ghost function CellsWith(m: Matrix, v: int): set<(int, int)>
    requires Rectangular(m)
  {
    set a, b | 0 <= a < Rows(m) && 0 <= b < Cols(m) && m[a][b] == v :: (a, b)
  }

  /** A cell under a chosen placement was not blocked; so a blocked cell keeps -1. */
  lemma BlockedCellsKept(g: Matrix, squares: seq<Square>, numMandatory: int, x: set<Candidate>, a: int, b: int)
    requires Rectangular(g) && PositiveSizes(squares)
    requires ValidAssignment(g, squares, numMandatory, x)
    requires 0 <= a < Rows(g) && 0 <= b < Cols(g)
    ensures CoveredBy(squares, x, a, b) ==> g[a][b] != BLOCKED
    ensures g[a][b] == BLOCKED ==> MaterializedCell(g, squares, x, a, b) == BLOCKED
  {
    if CoveredBy(squares, x, a, b) {
      var c :| c in x && Covers(squares, c, a, b);
      assert !FootprintBlocked(g, squares[c.sq].size, c.row, c.col);
    }
  }

  /** Cells no chosen placement covers keep their value; covered cells show the coverer's label. */
  lemma MaterializedCells(g: Matrix, squares: seq<Square>, numMandatory: int, x: set<Candidate>, a: int, b: int)
    requires Rectangular(g) && PositiveSizes(squares)
    requires ValidAssignment(g, squares, numMandatory, x)
    requires 0 <= a < Rows(g) && 0 <= b < Cols(g)
    ensures !CoveredBy(squares, x, a, b) ==> Materialized(g, squares, x)[a][b] == g[a][b]
    ensures forall c :: c in x && Covers(squares, c, a, b) ==> Materialized(g, squares, x)[a][b] == squares[c.sq].tag
  {
    forall c | c in x && Covers(squares, c, a, b)
      ensures Materialized(g, squares, x)[a][b] == squares[c.sq].tag
    {
      MaterializedCellIs(g, squares, x, a, b, c);
    }
  }

  /** A square is chosen at no more than one position. */
  lemma SelectedOnce(squares: seq<Square>, numMandatory: int, x: set<Candidate>, c1: Candidate, c2: Candidate)
    requires c1.sq < |squares| && CardinalityOK(squares, numMandatory, x, c1.sq)
    requires c1 in x && c2 in x && c1.sq == c2.sq
    ensures c1 == c2
  {
    AtMostOneMember(Selected(x, c1.sq), c1, c2);
  }

  /**
   * With unique positive labels on a blocked/open grid, a chosen square's label
   * occupies exactly its `size * size` footprint in the result.
   */
  lemma SquareArea(g: Matrix, squares: seq<Square>, numMandatory: int, x: set<Candidate>, c: Candidate)
    requires Rectangular(g) && PositiveSizes(squares) && IsMask(g) && UniquePositiveLabels(squares)
    requires ValidAssignment(g, squares, numMandatory, x)
    requires c in x
    ensures CellsWith(Materialized(g, squares, x), squares[c.sq].tag) ==
      Block(c.row, c.col, squares[c.sq].size, squares[c.sq].size)
    ensures |CellsWith(Materialized(g, squares, x), squares[c.sq].tag)| == squares[c.sq].size * squares[c.sq].size
  {
    var m := Materialized(g, squares, x);
    var size, tag := squares[c.sq].size, squares[c.sq].tag;
    var footprint := Block(c.row, c.col, size, size);
    forall p | p in footprint
      ensures p in CellsWith(m, tag)
    {
      var (a, b) := p;
      MaterializedCellIs(g, squares, x, a, b, c);
    }
    forall p | p in CellsWith(m, tag)
      ensures p in footprint
    {
      var (a, b) := p;
      assert CoveredBy(squares, x, a, b);
      var c' :| c' in x && Covers(squares, c', a, b);
      MaterializedCellIs(g, squares, x, a, b, c');
      assert c'.sq == c.sq;
      SelectedOnce(squares, numMandatory, x, c, c');
    }
    BlockCells(c.row, c.col, size, size);
  }

  // ---------------------------------------------------------------------------
  // The objective's mandatory/optional boundary.

  /** The number of the first `n` squares whose label is `v`. */
  function LabelCount(squares: seq<Square>, v: int, n: nat): nat
    requires n <= |squares|
  {
    if n == 0 then 0 else LabelCount(squares, v, n - 1) + (if squares[n - 1].tag == v then 1 else 0)
  }

  /** The chosen placements of the first `n` squares whose label is `v`. */
  ghost function ChosenWithLabel(squares: seq<Square>, x: set<Candidate>, v: int, n: nat): set<Candidate> {
    set c | c in x && c.sq < n && c.sq < |squares| && squares[c.sq].tag == v
  }

  /** Squares labelled `num_mandatory` are mandatory, so each is chosen exactly once. */
  lemma {:induction false} BoundaryChosenOnce(squares: seq<Square>, numMandatory: int, x: set<Candidate>, n: nat)
    requires n <= |squares|
    requires forall s :: 0 <= s < n ==> CardinalityOK(squares, numMandatory, x, s)
    ensures |ChosenWithLabel(squares, x, numMandatory, n)| == LabelCount(squares, numMandatory, n)
  {
    if n > 0 {
      var s := n - 1;
      BoundaryChosenOnce(squares, numMandatory, x, s);
      if squares[s].tag == numMandatory {
        assert CardinalityOK(squares, numMandatory, x, s);
        assert ChosenWithLabel(squares, x, numMandatory, n) ==
          ChosenWithLabel(squares, x, numMandatory, s) + Selected(x, s);
        assert ChosenWithLabel(squares, x, numMandatory, s) * Selected(x, s) == {};
      } else {
        assert ChosenWithLabel(squares, x, numMandatory, n) == ChosenWithLabel(squares, x, numMandatory, s);
      }
    }
  }

  /** The objective with every mandatory square (`label <= num_mandatory`) weighted 10. */
  ghost function MandatoryWeightedScore(squares: seq<Square>, numMandatory: int, x: set<Candidate>): int {
    10 * |set c | c in x && c.sq < |squares| && squares[c.sq].tag <= numMandatory| +
    |set c | c in x && c.sq < |squares| && squares[c.sq].tag > numMandatory|
  }

  /**
   * solver.py weighs the square labelled `num_mandatory` 1, not 10. Over valid
   * assignments this only lowers the objective by a constant, 9 per square with
   * that label.
   */
  lemma BoundaryShift(g: Matrix, squares: seq<Square>, numMandatory: int, x: set<Candidate>)
    requires Rectangular(g) && PositiveSizes(squares)
    requires ValidAssignment(g, squares, numMandatory, x)
    ensures MandatoryWeightedScore(squares, numMandatory, x) ==
      Score(squares, numMandatory, x) + 9 * LabelCount(squares, numMandatory, |squares|)
  {
    var below := HeavyChosen(squares, numMandatory, x);
    var at := ChosenWithLabel(squares, x, numMandatory, |squares|);
    var above := set c | c in x && c.sq < |squares| && squares[c.sq].tag > numMandatory;
    var upTo := set c | c in x && c.sq < |squares| && squares[c.sq].tag <= numMandatory;
    assert upTo == below + at && below * at == {};
    assert LightChosen(squares, numMandatory, x) == at + above && at * above == {};
    BoundaryChosenOnce(squares, numMandatory, x, |squares|);
  }

  /** Hence the objective as written ranks valid assignments exactly as the mandatory-weighted one does. */
  lemma BoundaryKeepsRanking(g: Matrix, squares: seq<Square>, numMandatory: int, x: set<Candidate>, y: set<Candidate>)
    requires Rectangular(g) && PositiveSizes(squares)
    requires ValidAssignment(g, squares, numMandatory, x) && ValidAssignment(g, squares, numMandatory, y)
    ensures Score(squares, numMandatory, x) <= Score(squares, numMandatory, y) <==>
      MandatoryWeightedScore(squares, numMandatory, x) <= MandatoryWeightedScore(squares, numMandatory, y)
  {
    BoundaryShift(g, squares, numMandatory, x);
    BoundaryShift(g, squares, numMandatory, y);
  }

  // ---------------------------------------------------------------------------
  // Feasibility.

  /** On a grid with every cell blocked, no assignment places a mandatory square. */
  lemma FullyBlockedInfeasible(g: Matrix, squares: seq<Square>, numMandatory: int, x: set<Candidate>, s: nat)
    requires Rectangular(g) && PositiveSizes(squares)
    requires forall a, b :: 0 <= a < Rows(g) && 0 <= b < Cols(g) ==> g[a][b] == BLOCKED
    requires s < |squares| && Mandatory(squares[s].tag, numMandatory)
    ensures !ValidAssignment(g, squares, numMandatory, x)
  {
    forall c | IsCandidate(Rows(g), Cols(g), squares, c)
      ensures FootprintBlocked(g, squares[c.sq].size, c.row, c.col)
    {
      assert g[c.row][c.col] == BLOCKED;
    }
    if |Selected(x, s)| == 1 {
      var c :| c in Selected(x, s);
      assert IsCandidate(Rows(g), Cols(g), squares, c) ==> FootprintBlocked(g, squares[c.sq].size, c.row, c.col);
      assert !(InModel(Rows(g), Cols(g), squares, x) && AvoidsBlocked(g, squares, x));
    } else {
      assert !CardinalityOK(squares, numMandatory, x, s);
    }
  }

  /** One square at one unblocked in-range position is a valid assignment, mandatory or not. */
  lemma SinglePlacementValid(g: Matrix, square: Square, numMandatory: int, c: Candidate)
    requires Rectangular(g) && square.size >= 1
    requires IsCandidate(Rows(g), Cols(g), [square], c)
    requires !FootprintBlocked(g, square.size, c.row, c.col)
    ensures ValidAssignment(g, [square], numMandatory, {c})
  {
    assert Selected({c}, 0) == {c};
    forall a, b | 0 <= a < Rows(g) && 0 <= b < Cols(g)
      ensures |Covering([square], {c}, a, b)| <= 1
    {
      SubsetCardinality(Covering([square], {c}, a, b), {c});
    }
  }

  // ---------------------------------------------------------------------------
  // The solved grid and the editor's export.

  /**
   * The formatted export of a solved grid is the blocked/open grid the solver was
   * given: placed labels differ from -1 and sit only on open cells.
   */
  lemma ExportRecoversInput(g: Matrix, squares: seq<Square>, numMandatory: int, x: set<Candidate>)
    requires Rectangular(g) && PositiveSizes(squares) && IsMask(g)
    requires forall s :: 0 <= s < |squares| ==> squares[s].tag != BLOCKED
    requires ValidAssignment(g, squares, numMandatory, x)
    ensures GridEditor.Masked(Materialized(g, squares, x)) == g
  {
    var m := Materialized(g, squares, x);
    forall a, b | 0 <= a < Rows(g) && 0 <= b < Cols(g)
      ensures GridEditor.Masked(m)[a][b] == g[a][b]
    {
      BlockedCellsKept(g, squares, numMandatory, x, a, b);
      if CoveredBy(squares, x, a, b) {
        var c :| c in x && Covers(squares, c, a, b);
        MaterializedCellIs(g, squares, x, a, b, c);
      }
    }
    MatrixEquality(GridEditor.Masked(m), g);
  }
}
