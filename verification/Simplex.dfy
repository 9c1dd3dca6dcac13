/** Why the solver's pivot rules work, and exactly when they do.
    `z` is the subject of the objective row. */
module Simplex {
  import opened Variables
  import opened LinearAlgebra
  import opened RowAlgebra

  /** The threshold below which `optimize` treats an objective coefficient as negative. */
  const TOLERANCE: real := 0.00000001

  /** Parameters at zero: the solution the solver reports. */
  ghost function BasicSolution(rows: Rows): Valuation { Extend(rows, Zero()) }

  ghost predicate SlackFeasible(rows: Rows) {
    forall r <- rows :: r.kind.Slack? ==> rows[r].constant >= 0.0
  }

  ghost predicate DummyFeasible(rows: Rows) {
    forall r <- rows :: r.kind.Dummy? ==> rows[r].constant == 0.0
  }

  ghost predicate Feasible(rows: Rows) {
    SlackFeasible(rows) && DummyFeasible(rows)
  }

  /** Rows of dummy variables mention only dummy variables. */
  ghost predicate DummyRowsPure(rows: Rows) {
    forall r <- rows, v <- rows[r].terms :: r.kind.Dummy? ==> v.kind.Dummy?
  }

  ghost predicate OnlyRestricted(e: Expr) {
    forall v <- e.terms :: v.IsRestricted()
  }

  /** What `entry` becomes when it trades places with `exit`. */
  function Ratio(rows: Rows, entry: Variable, exit: Variable): real
    requires exit in rows && Coef(rows[exit], entry) != 0.0
  {
    -rows[exit].constant / Coef(rows[exit], entry)
  }

  /** The feasible tables are those whose reported solution is admissible. */
  lemma FeasibleMeansAdmissible(rows: Rows)
    requires Solved(rows)
    ensures Sat(rows, BasicSolution(rows))
    ensures Admissible(BasicSolution(rows)) <==> Feasible(rows)
    ensures forall r <- rows :: BasicSolution(rows)(r) == rows[r].constant
  {
    hide Eval;
    ExtendSat(rows, Zero());
    var s := BasicSolution(rows);
    forall r <- rows ensures s(r) == rows[r].constant {
      EvalAtZero(rows[r], Zero());
    }
    if Admissible(s) {
      assert forall r <- rows :: s(r) == rows[r].constant;
    }
  }

  lemma RatioConstant(c: real, b: real)
    requires c != 0.0
    ensures b * -(1.0 / c) == -b / c
  {}

  /** The constants after a pivot. */
  lemma PivotConstants(rows: Rows, entry: Variable, exit: Variable)
    requires Solved(rows) && exit in rows && entry in rows[exit].terms
    ensures var after, t := Pivot(rows, entry, exit), Ratio(rows, entry, exit);
            && after.Keys == rows.Keys - {exit} + {entry}
            && after[entry].constant == t
            && (forall r <- rows :: r != exit ==> after[r].constant == rows[r].constant + Mul(Coef(rows[r], entry), t))
  {
    hide Mul;
    hide ChangeSubject;
    var e := ChangeSubject(rows[exit], exit, entry);
    ChangeSubjectConstant(rows[exit], exit, entry);
    forall r | r in rows && r != exit
      ensures Substitute(rows[r], entry, e).constant == rows[r].constant + Mul(Coef(rows[r], entry), e.constant)
    {
      SubstituteConstant(rows[r], entry, e);
    }
  }

  lemma ChangeSubjectConstant(e: Expr, existing: Variable, subject: Variable)
    requires Coef(e, subject) != 0.0
    ensures ChangeSubject(e, existing, subject).constant == -e.constant / Coef(e, subject)
  {
    RatioConstant(Coef(e, subject), e.constant);
  }

  lemma SubstituteConstant(row: Expr, v: Variable, e: Expr)
    ensures Substitute(row, v, e).constant == row.constant + Mul(Coef(row, v), e.constant)
  {
    MulZero(e.constant);
  }

  // ---- one primal step

  /** The exit variable `findPivotableExitVariable:` looks for. */
  ghost predicate MinRatioExit(rows: Rows, entry: Variable, exit: Variable) {
    && exit in rows && exit.IsPivotable() && Coef(rows[exit], entry) < 0.0
    && (forall r <- rows :: r.IsPivotable() && Coef(rows[r], entry) < 0.0 ==>
          Ratio(rows, entry, exit) <= Ratio(rows, entry, r))
  }

  lemma RatioBound(c: real, b: real, t: real)
    requires c < 0.0 && t <= -b / c
    ensures b + Mul(c, t) >= 0.0
  {
    var q := -b / c;
    assert q * c == -b;
    MulMonotone(-c, t, q);
  }

  lemma MulMonotone(k: real, x: real, y: real)
    requires k >= 0.0 && x <= y
    ensures k * x <= k * y
  {}

  lemma RatioSign(c: real, b: real)
    requires c < 0.0 && b >= 0.0
    ensures -b / c >= 0.0
    ensures -b / c == 0.0 <==> b == 0.0
  {
    var q := -b / c;
    assert q * c == -b;
    if q <= 0.0 {
      MulMonotone(-c, q, 0.0);
    }
  }

  lemma MulSign(a: real, b: real)
    ensures a >= 0.0 && b >= 0.0 ==> Mul(a, b) >= 0.0
    ensures a <= 0.0 && b >= 0.0 ==> Mul(a, b) <= 0.0
    ensures a < 0.0 && b > 0.0 ==> Mul(a, b) < 0.0
    ensures Mul(a, b) == 0.0 <==> a == 0.0 || b == 0.0
  {
    if a < 0.0 && b > 0.0 {
      assert (-a) * b > 0.0;
    }
    if a != 0.0 && b != 0.0 {
      NonZeroProduct(a, b);
    }
  }

  /** Pivoting on the minimum ratio keeps every slack row non-negative. */
  lemma StepKeepsSlacks(rows: Rows, entry: Variable, exit: Variable)
    requires Solved(rows) && SlackFeasible(rows) && MinRatioExit(rows, entry, exit)
    ensures Ratio(rows, entry, exit) >= 0.0
    ensures SlackFeasible(Pivot(rows, entry, exit))
  {
    hide Mul;
    hide Pivot;
    PivotConstants(rows, entry, exit);
    var t := Ratio(rows, entry, exit);
    RatioSign(Coef(rows[exit], entry), rows[exit].constant);
    forall r | r in rows && r != exit && r.kind.Slack?
      ensures rows[r].constant + Mul(Coef(rows[r], entry), t) >= 0.0
    {
      var c := Coef(rows[r], entry);
      if c < 0.0 {
        RatioBound(c, rows[r].constant, t);
      } else {
        MulSign(c, t);
      }
    }
  }

  /** The objective's value never rises, and falls exactly when the step has positive length. */
  lemma StepImproves(rows: Rows, z: Variable, entry: Variable, exit: Variable)
    requires Solved(rows) && SlackFeasible(rows) && MinRatioExit(rows, entry, exit)
    requires z in rows && z != exit && Coef(rows[z], entry) < 0.0
    ensures var after := Pivot(rows, entry, exit);
            && z in after
            && after[z].constant <= rows[z].constant
            && (after[z].constant < rows[z].constant <==> rows[exit].constant > 0.0)
  {
    PivotConstants(rows, entry, exit);
    RatioSign(Coef(rows[exit], entry), rows[exit].constant);
    MulSign(Coef(rows[z], entry), Ratio(rows, entry, exit));
  }

  /** `findPivotableExitVariable:` never lets a dummy leave.  A step therefore keeps the
      dummy rows at zero exactly when it has length zero or no dummy row mentions `entry`. */
  lemma StepKeepsDummies(rows: Rows, entry: Variable, exit: Variable)
    requires Solved(rows) && DummyFeasible(rows) && MinRatioExit(rows, entry, exit)
    requires !entry.kind.Dummy?
    ensures DummyFeasible(Pivot(rows, entry, exit)) <==>
            rows[exit].constant == 0.0 || (forall r <- rows :: r.kind.Dummy? ==> entry !in rows[r].terms)
  {
    hide Mul;
    hide Pivot;
    PivotConstants(rows, entry, exit);
    var after, t := Pivot(rows, entry, exit), Ratio(rows, entry, exit);
    assert t == 0.0 <==> rows[exit].constant == 0.0 by {
      assert t * Coef(rows[exit], entry) == -rows[exit].constant;
    }
    forall r | r in rows && r.kind.Dummy?
      ensures after[r].constant == 0.0 <==> t == 0.0 || entry !in rows[r].terms
    {
      assert r != exit;
      MulSign(Coef(rows[r], entry), t);
    }
    forall r | r in after && r.kind.Dummy? ensures r in rows {
    }
  }

  lemma StepKeepsPurity(rows: Rows, entry: Variable, exit: Variable)
    requires Solved(rows) && DummyRowsPure(rows)
    requires exit in rows && entry in rows[exit].terms && entry.IsPivotable() && exit.IsPivotable()
    ensures DummyRowsPure(Pivot(rows, entry, exit))
  {
    var after := Pivot(rows, entry, exit);
    forall r | r in after && r.kind.Dummy? ensures after[r] == rows[r] {
    }
  }

  // ---- runs of `optimize`

  ghost predicate OptimizerStep(rows: Rows, z: Variable, x: Exchange) {
    && z in rows
    && x.entry.IsPivotable() && x.entry in rows[z].terms && rows[z].terms[x.entry] < -TOLERANCE
    && (forall v <- rows[z].terms :: v.IsPivotable() ==> rows[z].terms[x.entry] <= rows[z].terms[v])
    && MinRatioExit(rows, x.entry, x.exit)
  }

  ghost predicate OptimizerRun(rows: Rows, z: Variable, run: seq<Exchange>)
    decreases |run|
  {
    run == [] ||
    (OptimizerStep(rows, z, run[0]) && OptimizerRun(Pivot(rows, run[0].entry, run[0].exit), z, run[1..]))
  }

  /** One more step at the end of a run. */
  lemma {:induction false} RunSnoc(rows: Rows, z: Variable, run: seq<Exchange>, x: Exchange)
    requires CanRun(rows, run) && OptimizerRun(rows, z, run) && OptimizerStep(Run(rows, run), z, x)
    ensures CanRun(rows, run + [x]) && OptimizerRun(rows, z, run + [x])
    ensures Run(rows, run + [x]) == Pivot(Run(rows, run), x.entry, x.exit)
    decreases |run|
  {
    hide OptimizerStep;
    hide Pivot;
    if run == [] {
      assert run + [x] == [x];
      assert OptimizerStep(rows, z, x);
      StepCanRun(rows, z, x);
    } else {
      assert (run + [x])[1..] == run[1..] + [x];
      RunSnoc(Pivot(rows, run[0].entry, run[0].exit), z, run[1..], x);
    }
  }

  lemma StepCanRun(rows: Rows, z: Variable, x: Exchange)
    requires OptimizerStep(rows, z, x)
    ensures x.exit in rows && x.entry in rows[x.exit].terms && Coef(rows[x.exit], x.entry) != 0.0
    ensures CanRun(rows, [x]) && Run(rows, [x]) == Pivot(rows, x.entry, x.exit)
    ensures OptimizerRun(rows, z, [x])
  {
    var after := Pivot(rows, x.entry, x.exit);
    assert [x][1..] == [];
    assert CanRun(after, []) && Run(after, []) == after && OptimizerRun(after, z, []);
  }

  /** Any run of `optimize` keeps the meaning and feasibility of the table, and the value of
      the objective never rises along it. */
  lemma {:induction false} OptimizerRunSafe(rows: Rows, z: Variable, run: seq<Exchange>, s: Valuation)
    requires Solved(rows) && Feasible(rows) && DummyRowsPure(rows)
    requires z in rows && z.kind.Objective? && OptimizerRun(rows, z, run)
    ensures CanRun(rows, run)
    ensures var after := Run(rows, run);
            && Solved(after) && Feasible(after) && DummyRowsPure(after)
            && (Sat(after, s) <==> Sat(rows, s))
            && z in after && after[z].constant <= rows[z].constant
    decreases |run|
  {
    hide Mul;
    hide Pivot;
    if run != [] {
      var entry, exit := run[0].entry, run[0].exit;
      PivotSolved(rows, entry, exit);
      PivotMeaning(rows, entry, exit, s);
      StepKeepsSlacks(rows, entry, exit);
      StepKeepsDummies(rows, entry, exit);
      StepKeepsPurity(rows, entry, exit);
      StepImproves(rows, z, entry, exit);
      OptimizerRunSafe(Pivot(rows, entry, exit), z, run[1..], s);
    }
  }

  // ---- optimality and unboundedness

  function Ones(S: set<Variable>): Expr {
    Expr(map v | v in S :: 1.0, 0.0)
  }

  function SlackTerms(e: Expr): set<Variable> {
    set v | v in e.terms && v.kind.Slack?
  }

  lemma {:induction false} DotMonotone(S: set<Variable>, d: Expr, e: Expr, s: Valuation)
    requires forall v <- S :: Mul(Coef(d, v), s(v)) <= Mul(Coef(e, v), s(v))
    ensures Dot(S, d, s) <= Dot(S, e, s)
    decreases |S|
  {
    hide Mul;
    if S != {} {
      DotMonotone(S - {Pick(S)}, d, e, s);
    }
  }

  /** `optimize` stops when no slack in the objective row has a coefficient below
      `-TOLERANCE`. */
  ghost predicate Stopped(e: Expr) {
    forall v <- e.terms :: v.IsPivotable() ==> e.terms[v] >= -TOLERANCE
  }

  /** The tolerance is 1e-8: a slack counts as long as its coefficient is below minus that. */
  lemma StoppedAt(e: Expr)
    ensures Stopped(e) <==> forall v <- e.terms :: v.kind.Slack? ==> e.terms[v] >= -0.00000001
  {}

  /** No solution beats the reported one by more than the tolerance times the sum of the
      slacks that occur in the objective row. */
  lemma StoppedIsNearlyOptimal(rows: Rows, z: Variable, s: Valuation)
    requires z in rows && Stopped(rows[z]) && OnlyRestricted(rows[z])
    requires Sat(rows, s) && Admissible(s)
    ensures s(z) >= rows[z].constant - TOLERANCE * Eval(Ones(SlackTerms(rows[z])), s)
  {
    hide Dot;
    hide Mul;
    var e := rows[z];
    var ones := Ones(SlackTerms(e));
    var floor := Scale(ones, -TOLERANCE);
    forall v | v in e.terms ensures Mul(Coef(floor, v), s(v)) <= Mul(Coef(e, v), s(v)) {
      if v.kind.Slack? {
        assert Coef(floor, v) == -TOLERANCE;
        MulSign(Coef(e, v) + TOLERANCE, s(v));
        MulSum(Coef(e, v) + TOLERANCE, -TOLERANCE, s(v));
      } else {
        MulZero(Coef(floor, v));
        MulZero(Coef(e, v));
      }
    }
    DotMonotone(e.terms.Keys, floor, e, s);
    DotWiden(floor.terms.Keys, e.terms.Keys, floor, s);
    EvalScale(-TOLERANCE, ones, floor, s);
    assert Eval(e, s) >= e.constant + Eval(floor, s);
  }

  /** No slack could lower the objective: what an exact optimiser would stop at. */
  ghost predicate Optimised(e: Expr) {
    forall v <- e.terms :: v.IsPivotable() ==> e.terms[v] >= 0.0
  }

  /** No admissible solution has a smaller objective than the reported one. */
  ghost predicate IsMinimum(rows: Rows, z: Variable) {
    forall s: Valuation :: Sat(rows, s) && Admissible(s) ==> BasicSolution(rows)(z) <= s(z)
  }

  /** When no slack has a negative coefficient the reported solution is a true minimum over
      all admissible solutions. */
  lemma StoppedIsOptimal(rows: Rows, z: Variable, s: Valuation)
    requires Solved(rows) && Feasible(rows)
    requires z in rows && Optimised(rows[z]) && OnlyRestricted(rows[z])
    requires Sat(rows, s) && Admissible(s)
    ensures Sat(rows, BasicSolution(rows)) && Admissible(BasicSolution(rows))
    ensures BasicSolution(rows)(z) <= s(z)
  {
    hide Dot;
    hide Mul;
    FeasibleMeansAdmissible(rows);
    var e := rows[z];
    var none := Expr(map[], 0.0);
    forall v | v in e.terms ensures Mul(Coef(none, v), s(v)) <= Mul(Coef(e, v), s(v)) {
      MulZero(s(v));
      MulZero(Coef(e, v));
      MulSign(Coef(e, v), s(v));
    }
    DotMonotone(e.terms.Keys, none, e, s);
    DotWiden({}, e.terms.Keys, none, s);
    DotZero({}, none, s);
  }

  /** The solution reached by giving `entry` the value `length` and every other parameter zero. */
  lemma MoveAlong(rows: Rows, entry: Variable, length: real) returns (s: Valuation)
    requires Solved(rows) && DummyFeasible(rows) && DummyRowsPure(rows)
    requires entry.IsPivotable() && entry !in rows && length >= 0.0
    ensures Sat(rows, s)
    ensures forall r <- rows :: s(r) == rows[r].constant + Mul(Coef(rows[r], entry), length)
    ensures (forall r <- rows :: r.kind.Slack? ==> rows[r].constant + Mul(Coef(rows[r], entry), length) >= 0.0)
            ==> Admissible(s)
  {
    hide Eval;
    hide Mul;
    var p := Update(Zero(), entry, length);
    s := Extend(rows, p);
    ExtendSat(rows, p);
    forall r | r in rows ensures s(r) == rows[r].constant + Mul(Coef(rows[r], entry), length) {
      EvalAtZero(rows[r], Zero());
      EvalUpdate(rows[r], Zero(), entry, length);
      MulIs(Coef(rows[r], entry), length);
    }
    forall r | r in rows && r.kind.Dummy? ensures s(r) == 0.0 {
      MulSign(Coef(rows[r], entry), length);
    }
  }

  /** The ray that `optimize` reports as unbounded really has no lower bound. */
  lemma NoExitIsUnbounded(rows: Rows, z: Variable, entry: Variable, bound: real) returns (s: Valuation)
    requires Solved(rows) && Feasible(rows) && DummyRowsPure(rows)
    requires z in rows && entry.IsPivotable() && entry in rows[z].terms && rows[z].terms[entry] < 0.0
    requires forall r <- rows :: r.IsPivotable() ==> Coef(rows[r], entry) >= 0.0
    ensures Sat(rows, s) && Admissible(s) && s(z) < bound
  {
    hide Eval;
    hide Mul;
    var k := rows[z].terms[entry];
    var gap := rows[z].constant - bound;
    var length := (if gap > 0.0 then gap / -k else 0.0) + 1.0;
    LongEnough(k, gap);
    forall r | r in rows && r.kind.Slack? ensures rows[r].constant + Mul(Coef(rows[r], entry), length) >= 0.0 {
      MulSign(Coef(rows[r], entry), length);
    }
    s := MoveAlong(rows, entry, length);
  }

  /** Every row that a negative coefficient would drain has room for a step. */
  ghost predicate HasRoom(rows: Rows, z: Variable) {
    z in rows &&
    forall v <- rows[z].terms, r <- rows ::
      v.IsPivotable() && rows[z].terms[v] < 0.0 && r.IsPivotable() && Coef(rows[r], v) < 0.0 ==> rows[r].constant > 0.0
  }

  /** A step that all rows of `S` have room for. */
  lemma {:induction false} SmallStep(rows: Rows, S: set<Variable>, v: Variable) returns (t: real)
    requires S <= rows.Keys
    requires forall r <- S :: rows[r].constant >= 0.0 && (Coef(rows[r], v) < 0.0 ==> rows[r].constant > 0.0)
    ensures t > 0.0 && forall r <- S :: rows[r].constant + Mul(Coef(rows[r], v), t) >= 0.0
    decreases |S|
  {
    hide Mul;
    hide Coef;
    if S == {} {
      return 1.0;
    }
    var q := Pick(S);
    var u := SmallStep(rows, S - {q}, v);
    var b, c := rows[q].constant, Coef(rows[q], v);
    t := u;
    if c < 0.0 {
      RatioSign(c, b);
      t := if -b / c < u then -b / c else u;
      RatioBound(c, b, t);
    } else {
      MulSign(c, u);
    }
    forall r | r in S - {q} ensures rows[r].constant + Mul(Coef(rows[r], v), t) >= 0.0 {
      ShorterStep(rows[r].constant, Coef(rows[r], v), t, u);
    }
  }

  lemma ShorterStep(b: real, c: real, t: real, u: real)
    requires b >= 0.0 && 0.0 <= t <= u && b + Mul(c, u) >= 0.0
    ensures b + Mul(c, t) >= 0.0
  {
    if c < 0.0 {
      MulMonotone(-c, t, u);
    } else {
      MulSign(c, t);
    }
  }

  /** For tables with room the reported solution is a minimum exactly when no slack has a
      negative coefficient.  `optimize` stops earlier when the remaining ones lie inside its
      tolerance, and then misses the minimum. */
  lemma OptimalExactly(rows: Rows, z: Variable)
    requires Solved(rows) && Feasible(rows) && DummyRowsPure(rows)
    requires z in rows && OnlyRestricted(rows[z]) && HasRoom(rows, z)
    ensures IsMinimum(rows, z) <==> Optimised(rows[z])
  {
    hide Mul;
    hide Sat;
    hide BasicSolution;
    FeasibleMeansAdmissible(rows);
    if Optimised(rows[z]) {
      forall s: Valuation | Sat(rows, s) && Admissible(s) ensures BasicSolution(rows)(z) <= s(z) {
        StoppedIsOptimal(rows, z, s);
      }
    } else {
      var v :| v in rows[z].terms && v.IsPivotable() && rows[z].terms[v] < 0.0;
      var t := SmallStep(rows, (set r | r in rows && r.kind.Slack?), v);
      var s := MoveAlong(rows, v, t);
      MulSign(Coef(rows[z], v), t);
      assert Sat(rows, s) && Admissible(s) && s(z) < rows[z].constant;
    }
  }

  lemma MulIs(a: real, b: real)
    ensures Mul(a, b) == a * b
  {}

  lemma LongEnough(k: real, gap: real)
    requires k < 0.0
    ensures var length := (if gap > 0.0 then gap / -k else 0.0) + 1.0;
            length > 0.0 && Mul(k, length) + gap < 0.0
  {
    if gap > 0.0 {
      var q := gap / -k;
      assert q * -k == gap;
      assert k * (q + 1.0) == k * q + k;
      if q <= 0.0 { MulMonotone(-k, q, 0.0); }
    }
  }
}
