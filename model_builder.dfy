/**
 * The model-building half of `optimize_placement`: the `placements` dictionary,
 * the per-square cardinality and blocked-footprint constraints, the per-cell
 * non-overlap constraints and the objective. Each constraint-building method
 * states what the constraints it adds mean for an assignment.
 */
module ModelBuilder {
  import opened Counting
  import opened Grids
  import opened Placement
  import opened CpSat

  /** `c` comes before key `(s, i, j)` in the loops' `s_id`, `i`, `j` order. */
  predicate EnumeratedBefore(c: Candidate, s: int, i: int, j: int) {
    c.sq < s || (c.sq == s && (c.row < i || (c.row == i && c.col < j)))
  }

  /** The keys of `placements` (solver.py lines 71-75): every candidate, each once. */
  method EnumerateCandidates(rows: nat, cols: nat, squares: seq<Square>) returns (vars: seq<Candidate>)
    ensures Distinct(vars)
    ensures forall c :: c in vars <==> IsCandidate(rows, cols, squares, c)
  {
    vars := [];
    var s := 0;
    while s < |squares|
      invariant 0 <= s <= |squares|
      invariant Distinct(vars)
      invariant forall c :: c in vars <==> IsCandidate(rows, cols, squares, c) && c.sq < s
    {
      var size := squares[s].size;
      var i := 0;
      while i < rows - size + 1
        invariant 0 <= i <= Offsets(rows, size)
        invariant Distinct(vars)
        invariant forall c :: c in vars <==> IsCandidate(rows, cols, squares, c) && EnumeratedBefore(c, s, i, 0)
      {
        var j := 0;
        while j < cols - size + 1
          invariant 0 <= j <= Offsets(cols, size)
          invariant Distinct(vars)
          invariant forall c :: c in vars <==> IsCandidate(rows, cols, squares, c) && EnumeratedBefore(c, s, i, j)
        {
          DistinctAppend(vars, Candidate(s, i, j));
          vars := vars + [Candidate(s, i, j)];
          j := j + 1;
        }
        i := i + 1;
      }
      s := s + 1;
    }
  }

  /**
   * The `overlap` list of cell (`a`, `b`) (solver.py lines 94-99): the candidates
   * whose footprint contains the cell, each once.
   */
  method CollectOverlap(rows: nat, cols: nat, squares: seq<Square>, a: nat, b: nat) returns (overlap: seq<Candidate>)
    ensures Distinct(overlap)
    ensures forall c :: c in overlap <==> IsCandidate(rows, cols, squares, c) && Covers(squares, c, a, b)
  {
    overlap := [];
    var s := 0;
    while s < |squares|
      invariant 0 <= s <= |squares|
      invariant Distinct(overlap)
      invariant forall c :: c in overlap <==> IsCandidate(rows, cols, squares, c) && Covers(squares, c, a, b) && c.sq < s
    {
      var size := squares[s].size;
      var di := 0;
      while di < size
        invariant 0 <= di <= if size < 0 then 0 else size
        invariant Distinct(overlap)
        invariant forall c :: c in overlap <==>
          IsCandidate(rows, cols, squares, c) && Covers(squares, c, a, b) && (c.sq < s || (c.sq == s && a - c.row < di))
      {
        var dj := 0;
        while dj < size
          invariant 0 <= dj <= size
          invariant Distinct(overlap)
          invariant forall c :: c in overlap <==>
            IsCandidate(rows, cols, squares, c) && Covers(squares, c, a, b) &&
            (c.sq < s || (c.sq == s && (a - c.row < di || (a - c.row == di && b - c.col < dj))))
        {
          if 0 <= a - di < rows - size + 1 && 0 <= b - dj < cols - size + 1 {
            var c := Candidate(s, a - di, b - dj);
            DistinctAppend(overlap, c);
            overlap := overlap + [c];
          }
          dj := dj + 1;
        }
        di := di + 1;
      }
      s := s + 1;
    }
  }

  // ---------------------------------------------------------------------------
  // Per-square constraints (solver.py lines 78-89).

  /** The cardinality constraints of the squares before `n` hold. */
  ghost predicate CardinalitiesUpTo(squares: seq<Square>, numMandatory: int, x: set<Candidate>, n: int)
    requires n <= |squares|
  {
    forall s :: 0 <= s < n ==> CardinalityOK(squares, numMandatory, x, s)
  }

  /** No chosen candidate enumerated before `(s, i, j)` has a blocked footprint. */
  ghost predicate AvoidsBlockedBefore(g: Matrix, squares: seq<Square>, x: set<Candidate>, s: int, i: int, j: int)
    requires Rectangular(g) && PositiveSizes(squares)
  {
    forall c :: c in x && IsCandidate(Rows(g), Cols(g), squares, c) && EnumeratedBefore(c, s, i, j) ==>
      !FootprintBlocked(g, squares[c.sq].size, c.row, c.col)
  }

  /** `sum(placements[(s, i, j)] for i for j)` counts the chosen placements of square `s`. */
  lemma PlacementSum(rows: nat, cols: nat, squares: seq<Square>, s: nat, x: set<Candidate>)
    requires s < |squares| && InModel(rows, cols, squares, x)
    ensures Count(PlacementsOf(s, Offsets(rows, squares[s].size), Offsets(cols, squares[s].size)), x) == |Selected(x, s)|
  {
    var vs := PlacementsOf(s, Offsets(rows, squares[s].size), Offsets(cols, squares[s].size));
    PlacementsOfMembers(s, Offsets(rows, squares[s].size), Offsets(cols, squares[s].size));
    CountIsCardinality(vs, x);
    assert Chosen(vs, x) == Selected(x, s);
  }

  lemma BlockedStep(g: Matrix, squares: seq<Square>, x: set<Candidate>, s: nat, i: nat, j: nat)
    requires Rectangular(g) && PositiveSizes(squares)
    requires IsCandidate(Rows(g), Cols(g), squares, Candidate(s, i, j))
    ensures AvoidsBlockedBefore(g, squares, x, s, i, j + 1) <==>
      AvoidsBlockedBefore(g, squares, x, s, i, j) &&
      (Candidate(s, i, j) in x ==> !FootprintBlocked(g, squares[s].size, i, j))
  {
    var c0 := Candidate(s, i, j);
    forall c | EnumeratedBefore(c, s, i, j + 1) && !EnumeratedBefore(c, s, i, j)
      ensures c == c0
    {
      assert c.sq == s && c.row == i && c.col == j;
    }
  }

  lemma BlockedNextRow(g: Matrix, squares: seq<Square>, x: set<Candidate>, s: nat, i: nat)
    requires Rectangular(g) && PositiveSizes(squares) && s < |squares|
    ensures AvoidsBlockedBefore(g, squares, x, s, i, Offsets(Cols(g), squares[s].size)) <==>
      AvoidsBlockedBefore(g, squares, x, s, i + 1, 0)
  {
    var n := Offsets(Cols(g), squares[s].size);
    assert forall c :: IsCandidate(Rows(g), Cols(g), squares, c) ==>
      (EnumeratedBefore(c, s, i, n) <==> EnumeratedBefore(c, s, i + 1, 0));
  }

  lemma BlockedNextSquare(g: Matrix, squares: seq<Square>, x: set<Candidate>, s: nat)
    requires Rectangular(g) && PositiveSizes(squares) && s < |squares|
    ensures AvoidsBlockedBefore(g, squares, x, s, Offsets(Rows(g), squares[s].size), 0) <==>
      AvoidsBlockedBefore(g, squares, x, s + 1, 0, 0)
  {
    var n := Offsets(Rows(g), squares[s].size);
    assert forall c :: IsCandidate(Rows(g), Cols(g), squares, c) ==>
      (EnumeratedBefore(c, s, n, 0) <==> EnumeratedBefore(c, s + 1, 0, 0));
  }

  /**
   * The constraints of solver.py lines 78-89: for every assignment within the
   * model's variables, they all hold exactly when every square meets its
   * cardinality constraint and no chosen placement covers a blocked cell.
   */
  method SquareConstraints(g: Matrix, squares: seq<Square>, numMandatory: int) returns (cs: seq<Constraint>)
    requires Rectangular(g) && PositiveSizes(squares)
    ensures forall x :: InModel(Rows(g), Cols(g), squares, x) ==>
      (AllHold(cs, x) <==>
        CardinalitiesUpTo(squares, numMandatory, x, |squares|) && AvoidsBlocked(g, squares, x))
  {
    var rows, cols := Rows(g), Cols(g);
    cs := [];
    var s := 0;
    while s < |squares|
      invariant 0 <= s <= |squares|
      invariant forall x :: InModel(rows, cols, squares, x) ==>
        (AllHold(cs, x) <==>
          CardinalitiesUpTo(squares, numMandatory, x, s) && AvoidsBlockedBefore(g, squares, x, s, 0, 0))
    {
      var size, tag := squares[s].size, squares[s].tag;
      var vs := PlacementsOf(s, Offsets(rows, size), Offsets(cols, size));
      var card := if Mandatory(tag, numMandatory) then SumEq(vs, 1) else SumLe(vs, 1);
      forall x | InModel(rows, cols, squares, x)
        ensures AllHold(cs + [card], x) <==>
          CardinalitiesUpTo(squares, numMandatory, x, s + 1) && AvoidsBlockedBefore(g, squares, x, s, 0, 0)
      {
        AllHoldAppend(cs, card, x);
        PlacementSum(rows, cols, squares, s, x);
        assert Holds(card, x) <==> CardinalityOK(squares, numMandatory, x, s);
        assert CardinalitiesUpTo(squares, numMandatory, x, s + 1) <==>
          CardinalitiesUpTo(squares, numMandatory, x, s) && CardinalityOK(squares, numMandatory, x, s);
      }
      cs := cs + [card];
      var i := 0;
      while i < rows - size + 1
        invariant 0 <= i <= Offsets(rows, size)
        invariant forall x :: InModel(rows, cols, squares, x) ==>
          (AllHold(cs, x) <==>
            CardinalitiesUpTo(squares, numMandatory, x, s + 1) && AvoidsBlockedBefore(g, squares, x, s, i, 0))
      {
        var j := 0;
        while j < cols - size + 1
          invariant 0 <= j <= Offsets(cols, size)
          invariant forall x :: InModel(rows, cols, squares, x) ==>
            (AllHold(cs, x) <==>
              CardinalitiesUpTo(squares, numMandatory, x, s + 1) && AvoidsBlockedBefore(g, squares, x, s, i, j))
        {
          if FootprintBlocked(g, size, i, j) {
            forall x | InModel(rows, cols, squares, x)
              ensures AllHold(cs + [FixedZero(Candidate(s, i, j))], x) <==>
                CardinalitiesUpTo(squares, numMandatory, x, s + 1) && AvoidsBlockedBefore(g, squares, x, s, i, j + 1)
            {
              AllHoldAppend(cs, FixedZero(Candidate(s, i, j)), x);
              BlockedStep(g, squares, x, s, i, j);
            }
            cs := cs + [FixedZero(Candidate(s, i, j))];
          } else {
            forall x | InModel(rows, cols, squares, x)
              ensures AvoidsBlockedBefore(g, squares, x, s, i, j + 1) <==> AvoidsBlockedBefore(g, squares, x, s, i, j)
            {
              BlockedStep(g, squares, x, s, i, j);
            }
          }
          j := j + 1;
        }
        forall x | InModel(rows, cols, squares, x)
          ensures AvoidsBlockedBefore(g, squares, x, s, i, j) <==> AvoidsBlockedBefore(g, squares, x, s, i + 1, 0)
        {
          BlockedNextRow(g, squares, x, s, i);
        }
        i := i + 1;
      }
      forall x | InModel(rows, cols, squares, x)
        ensures AvoidsBlockedBefore(g, squares, x, s, i, 0) <==> AvoidsBlockedBefore(g, squares, x, s + 1, 0, 0)
      {
        BlockedNextSquare(g, squares, x, s);
      }
      s := s + 1;
    }
    forall x | InModel(rows, cols, squares, x)
      ensures AvoidsBlockedBefore(g, squares, x, s, 0, 0) <==> AvoidsBlocked(g, squares, x)
    {
      assert forall c :: IsCandidate(rows, cols, squares, c) ==> EnumeratedBefore(c, s, 0, 0);
    }
  }

  // ---------------------------------------------------------------------------
  // Per-cell non-overlap constraints (solver.py lines 91-101).

  /** No cell before (`a`, `b`) in row-major order is covered twice. */
  ghost predicate NoOverlapBefore(g: Matrix, squares: seq<Square>, x: set<Candidate>, a: int, b: int) {
    forall a', b' :: 0 <= a' < Rows(g) && 0 <= b' < Cols(g) && (a' < a || (a' == a && b' < b)) ==>
      |Covering(squares, x, a', b')| <= 1
  }

  /** `sum(overlap)` counts the chosen placements covering the cell. */
  lemma OverlapSum(rows: nat, cols: nat, squares: seq<Square>, a: nat, b: nat, overlap: seq<Candidate>, x: set<Candidate>)
    requires Distinct(overlap)
    requires forall c :: c in overlap <==> IsCandidate(rows, cols, squares, c) && Covers(squares, c, a, b)
    requires InModel(rows, cols, squares, x)
    ensures Count(overlap, x) == |Covering(squares, x, a, b)|
  {
    CountIsCardinality(overlap, x);
    assert Chosen(overlap, x) == Covering(squares, x, a, b);
  }

  /**
   * The constraints of solver.py lines 91-101: for every assignment within the
   * model's variables, they all hold exactly when no cell is covered twice.
   */
  method OverlapConstraints(g: Matrix, squares: seq<Square>) returns (cs: seq<Constraint>)
    requires Rectangular(g)
    ensures forall x :: InModel(Rows(g), Cols(g), squares, x) ==> (AllHold(cs, x) <==> NoOverlap(g, squares, x))
  {
    var rows, cols := Rows(g), Cols(g);
    cs := [];
    var a := 0;
    while a < rows
      invariant 0 <= a <= rows
      invariant forall x :: InModel(rows, cols, squares, x) ==> (AllHold(cs, x) <==> NoOverlapBefore(g, squares, x, a, 0))
    {
      var b := 0;
      while b < cols
        invariant 0 <= b <= cols
        invariant forall x :: InModel(rows, cols, squares, x) ==> (AllHold(cs, x) <==> NoOverlapBefore(g, squares, x, a, b))
      {
        var overlap := CollectOverlap(rows, cols, squares, a, b);
        if |overlap| > 0 {
          forall x | InModel(rows, cols, squares, x)
            ensures AllHold(cs + [SumLe(overlap, 1)], x) <==> NoOverlapBefore(g, squares, x, a, b + 1)
          {
            AllHoldAppend(cs, SumLe(overlap, 1), x);
            OverlapSum(rows, cols, squares, a, b, overlap, x);
          }
          cs := cs + [SumLe(overlap, 1)];
        } else {
          forall x | InModel(rows, cols, squares, x)
            ensures NoOverlapBefore(g, squares, x, a, b + 1) <==> NoOverlapBefore(g, squares, x, a, b)
          {
            OverlapSum(rows, cols, squares, a, b, overlap, x);
          }
        }
        b := b + 1;
      }
      a := a + 1;
    }
  }

  // ---------------------------------------------------------------------------
  // The objective (solver.py lines 104-107).

  /**
   * The variables of the first `n` squares whose label is below `num_mandatory`
   * (`heavy`) or at least `num_mandatory` (`!heavy`), in the generator's order.
   */
  function ClassPlacements(rows: nat, cols: nat, squares: seq<Square>, numMandatory: int, heavy: bool, n: nat): seq<Candidate>
    requires n <= |squares|
  {
    if n == 0 then []
    else
      ClassPlacements(rows, cols, squares, numMandatory, heavy, n - 1) +
      (if (squares[n - 1].tag < numMandatory) == heavy
       then PlacementsOf(n - 1, Offsets(rows, squares[n - 1].size), Offsets(cols, squares[n - 1].size))
       else [])
  }

  lemma {:induction false} ClassPlacementsMembers(rows: nat, cols: nat, squares: seq<Square>, numMandatory: int, heavy: bool, n: nat)
    requires n <= |squares|
    ensures Distinct(ClassPlacements(rows, cols, squares, numMandatory, heavy, n))
    ensures forall c :: c in ClassPlacements(rows, cols, squares, numMandatory, heavy, n) <==>
      IsCandidate(rows, cols, squares, c) && c.sq < n && (squares[c.sq].tag < numMandatory) == heavy
  {
    if n > 0 {
      var s := n - 1;
      ClassPlacementsMembers(rows, cols, squares, numMandatory, heavy, s);
      var prefix := ClassPlacements(rows, cols, squares, numMandatory, heavy, s);
      var block := PlacementsOf(s, Offsets(rows, squares[s].size), Offsets(cols, squares[s].size));
      PlacementsOfMembers(s, Offsets(rows, squares[s].size), Offsets(cols, squares[s].size));
      if (squares[s].tag < numMandatory) == heavy {
        DistinctConcat(prefix, block);
      } else {
        assert ClassPlacements(rows, cols, squares, numMandatory, heavy, n) == prefix;
      }
    }
  }

  /** The objective `10 * sum(heavy) + sum(light)` of solver.py lines 104-107. */
  function PlacementObjective(rows: nat, cols: nat, squares: seq<Square>, numMandatory: int): (obj: Objective)
    ensures forall x :: InModel(rows, cols, squares, x) ==> ObjectiveValue(obj, x) == Score(squares, numMandatory, x)
  {
    var heavy := ClassPlacements(rows, cols, squares, numMandatory, true, |squares|);
    var light := ClassPlacements(rows, cols, squares, numMandatory, false, |squares|);
    ClassPlacementsMembers(rows, cols, squares, numMandatory, true, |squares|);
    ClassPlacementsMembers(rows, cols, squares, numMandatory, false, |squares|);
    assert forall x :: InModel(rows, cols, squares, x) ==> ObjectiveValue(Objective(10, heavy, light), x) == Score(squares, numMandatory, x) by {
      forall x | InModel(rows, cols, squares, x)
        ensures ObjectiveValue(Objective(10, heavy, light), x) == Score(squares, numMandatory, x)
      {
        CountIsCardinality(heavy, x);
        CountIsCardinality(light, x);
        assert Chosen(heavy, x) == HeavyChosen(squares, numMandatory, x);
        assert Chosen(light, x) == LightChosen(squares, numMandatory, x);
      }
    }
    Objective(10, heavy, light)
  }

  /**
   * The whole model of `optimize_placement`: its assignments that satisfy every
   * constraint are exactly the valid assignments, and its objective is `Score`.
   */
  method BuildModel(g: Matrix, squares: seq<Square>, numMandatory: int) returns (m: CpModel)
    requires Rectangular(g) && PositiveSizes(squares)
    ensures Distinct(m.vars)
    ensures forall c :: c in m.vars <==> IsCandidate(Rows(g), Cols(g), squares, c)
    ensures forall x :: Satisfies(m, x) <==> ValidAssignment(g, squares, numMandatory, x)
    ensures forall x :: InModel(Rows(g), Cols(g), squares, x) ==> ObjectiveValue(m.objective, x) == Score(squares, numMandatory, x)
  {
    var vars := EnumerateCandidates(Rows(g), Cols(g), squares);
    var squareCs := SquareConstraints(g, squares, numMandatory);
    var overlapCs := OverlapConstraints(g, squares);
    m := CpModel(vars, squareCs + overlapCs, PlacementObjective(Rows(g), Cols(g), squares, numMandatory));
    forall x
      ensures Satisfies(m, x) <==> ValidAssignment(g, squares, numMandatory, x)
    {
      AllHoldConcat(squareCs, overlapCs, x);
    }
  }
}
