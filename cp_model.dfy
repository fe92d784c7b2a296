/**
 * The part of a CP-SAT model that `optimize_placement` builds: one Boolean
 * variable per candidate, linear constraints over sums of those variables,
 * and a maximised objective. The solver itself is not modelled; `SolverContract`
 * states what any backend returning a status and values must guarantee.
 */
module CpSat {
  import opened Counting
  import opened Placement

  /** `model.Add(sum(vars) == bound)`, `model.Add(sum(vars) <= bound)` and `model.Add(v == 0)`. */
  datatype Constraint =
    | SumEq(vars: seq<Candidate>, bound: int)
    | SumLe(vars: seq<Candidate>, bound: int)
    | FixedZero(v: Candidate)

  /** `weight * sum(heavy) + sum(light)`, the expression handed to `model.Maximize`. */
  datatype Objective = Objective(weight: int, heavy: seq<Candidate>, light: seq<Candidate>)

  datatype CpModel = CpModel(vars: seq<Candidate>, constraints: seq<Constraint>, objective: Objective)

  /** The status codes a CP-SAT solve can return. */
  datatype Status = Optimal | Feasible | Infeasible | ModelInvalid | Unknown

  /** What the solver reports: its status and the variables whose value is 1. */
  datatype SolveResult = SolveResult(status: Status, values: set<Candidate>)

  /** `status == OPTIMAL or status == FEASIBLE`: the values form a solution. */
  predicate Succeeded(status: Status) { status == Optimal || status == Feasible }

  predicate Holds(k: Constraint, x: set<Candidate>) {
    match k
    case SumEq(vs, bound) => Count(vs, x) == bound
    case SumLe(vs, bound) => Count(vs, x) <= bound
    case FixedZero(v) => v !in x
  }

  ghost predicate AllHold(cs: seq<Constraint>, x: set<Candidate>) {
    forall k :: k in cs ==> Holds(k, x)
  }

  function ObjectiveValue(obj: Objective, x: set<Candidate>): int {
    obj.weight * Count(obj.heavy, x) + Count(obj.light, x)
  }

  /** `x` assigns only variables of `m` and meets all of its constraints. */
  ghost predicate Satisfies(m: CpModel, x: set<Candidate>) {
    (forall c :: c in x ==> c in m.vars) && AllHold(m.constraints, x)
  }

  /**
   * The backend's promise: when it reports OPTIMAL or FEASIBLE its values satisfy the
   * model, and when it reports OPTIMAL no satisfying assignment scores higher.
   */
  ghost predicate SolverContract(solve: CpModel -> SolveResult) {
    forall m :: Succeeded(solve(m).status) ==>
      Satisfies(m, solve(m).values) &&
      (solve(m).status == Optimal ==>
        forall y :: Satisfies(m, y) ==> ObjectiveValue(m.objective, y) <= ObjectiveValue(m.objective, solve(m).values))
  }

  /** Appending a constraint adds exactly its own condition. */
  lemma AllHoldAppend(cs: seq<Constraint>, k: Constraint, x: set<Candidate>)
    ensures AllHold(cs + [k], x) <==> AllHold(cs, x) && Holds(k, x)
  {
    assert forall k' :: k' in cs + [k] <==> k' in cs || k' == k;
  }

  lemma AllHoldConcat(cs: seq<Constraint>, ds: seq<Constraint>, x: set<Candidate>)
    ensures AllHold(cs + ds, x) <==> AllHold(cs, x) && AllHold(ds, x)
  {
    assert forall k' :: k' in cs + ds <==> k' in cs || k' in ds;
  }
}
