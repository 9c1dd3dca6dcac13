/** Which tables stay solvable by inspection: the invariant kept by adding constraints, and
    the exact cases in which taking a constraint out breaks it. */
module Removal {
  import opened Variables
  import opened LinearAlgebra
  import opened RowAlgebra
  import opened Simplex
  import opened Incremental

  /** Rows of restricted variables and objectives mention only restricted variables. */
  ghost predicate Layered(rows: Rows) {
    forall r <- rows :: r.IsRestricted() || r.kind.Objective? ==> OnlyRestricted(rows[r])
  }

  ghost predicate Sound(rows: Rows) {
    Feasible(rows) && DummyRowsPure(rows) && Layered(rows)
  }

  /** The invariant while some slack rows may be negative. */
  ghost predicate Repairable(rows: Rows) {
    DummyFeasible(rows) && DummyRowsPure(rows) && Layered(rows)
  }

  lemma PivotLayered(rows: Rows, entry: Variable, exit: Variable)
    requires Solved(rows) && Layered(rows)
    requires exit in rows && entry in rows[exit].terms && entry.IsRestricted() && exit.IsRestricted()
    ensures Layered(Pivot(rows, entry, exit))
  {
    var e := ChangeSubject(rows[exit], exit, entry);
    ChangeSubjectSolved(rows[exit], exit, entry);
    assert OnlyRestricted(e);
    var after := Pivot(rows, entry, exit);
    forall r | r in after && (r.IsRestricted() || r.kind.Objective?) ensures OnlyRestricted(after[r]) {
      if r != entry {
        assert after[r] == Substitute(rows[r], entry, e);
        assert OnlyRestricted(rows[r]);
      }
    }
  }

  /** A whole run of `optimize` keeps the invariant. */
  lemma {:induction false} RunSound(rows: Rows, z: Variable, run: seq<Exchange>)
    requires Solved(rows) && Sound(rows)
    requires z in rows && z.kind.Objective? && OptimizerRun(rows, z, run)
    ensures CanRun(rows, run) && Solved(Run(rows, run)) && Sound(Run(rows, run))
    ensures forall r <- rows :: !r.IsRestricted() ==> r in Run(rows, run)
    decreases |run|
  {
    hide Pivot;
    hide Layered;
    OptimizerRunSafe(rows, z, run, Zero());
    if run != [] {
      var entry, exit := run[0].entry, run[0].exit;
      PivotSolved(rows, entry, exit);
      PivotLayered(rows, entry, exit);
      StepKeepsSlacks(rows, entry, exit);
      StepKeepsDummies(rows, entry, exit);
      StepKeepsPurity(rows, entry, exit);
      RunSound(Pivot(rows, entry, exit), z, run[1..]);
    }
  }

  /** What a run of `optimize` delivers: the table it stops at reports an admissible solution
      of the table it was given, and none of them has a smaller objective. */
  lemma OptimizeMinimises(rows: Rows, z: Variable, run: seq<Exchange>, s: Valuation)
    requires Solved(rows) && Sound(rows) && z in rows && z.kind.Objective? && OptimizerRun(rows, z, run)
    requires CanRun(rows, run)
    requires var after := Run(rows, run);
             z in after && Optimised(after[z])
    requires Sat(rows, s) && Admissible(s)
    ensures var best := BasicSolution(Run(rows, run));
            Sat(rows, best) && Admissible(best) && best(z) <= s(z)
  {
    hide Sat;
    var after := Run(rows, run);
    RunSound(rows, z, run);
    OptimizerRunSafe(rows, z, run, s);
    StoppedIsOptimal(after, z, s);
    OptimizerRunSafe(rows, z, run, BasicSolution(after));
  }

  /** The objective row mentions only restricted variables, because the goal does. */
  lemma ObjectiveRestricted(rows: Rows, z: Variable, goal: Expr, eqs: Equations)
    requires Solved(rows) && Represents(rows, z, goal, eqs) && z in rows && z !in goal.terms
    requires OnlyRestricted(goal)
    requires forall r <- rows :: r.IsRestricted() ==> OnlyRestricted(rows[r])
    ensures OnlyRestricted(rows[z])
  {
    hide Eval;
    forall x | x in rows[z].terms ensures x.IsRestricted() {
      if !x.IsRestricted() {
        var s, t := Extend(rows, Zero()), Extend(rows, Unit(x));
        ExtendSat(rows, Zero());
        ExtendSat(rows, Unit(x));
        forall v | v in goal.terms ensures s(v) == t(v) {
          if v in rows {
            EvalSame(rows[v], Zero(), Unit(x));
          }
        }
        EvalSame(goal, s, t);
        EvalAtUnit(rows[z], x);
        EvalAtZero(rows[z], Zero());
      }
    }
  }

  // ---- adding

  /** The subject `chooseSubject:` may return for an expression with non-negative constant. */
  ghost predicate ValidSubject(rows: Rows, e: Expr, v: Variable) {
    && v in e.terms && e.constant >= 0.0
    && (v.IsClient()
        || (v.kind.Slack? && e.terms[v] < 0.0 && OnlyRestricted(e)
            && forall r <- rows :: v in rows[r].terms ==> r.kind.Objective?)
        || ((forall u <- e.terms :: u.IsDummy()) && e.constant == 0.0
            && forall r <- rows :: v !in rows[r].terms))
  }

  lemma QuotientSign(b: real, c: real)
    requires b >= 0.0 && c < 0.0
    ensures b * -(1.0 / c) >= 0.0
  {
    var k := 1.0 / c;
    assert k * c == 1.0;
    if k >= 0.0 {
      MulMonotone(k, c, 0.0);
    }
    MulMonotone(b, 0.0, -k);
  }

  /** Entering a row with a valid subject keeps the invariant: direct addition never needs
      repair. */
  lemma EnterSound(rows: Rows, e: Expr, v: Variable)
    requires Solved(rows) && Sound(rows) && ZeroFree(e) && ValidSubject(rows, e, v)
    requires forall u <- e.terms :: u !in rows
    ensures Sound(Enter(rows, e, v))
  {
    hide Layered;
    hide DummyRowsPure;
    hide Enter;
    hide NewSubject;
    hide ValidSubject;
    EnterUntouched(rows, e, v);
    EnterLayered(rows, e, v);
    EnterPure(rows, e, v);
    NewSubjectFeasible(rows, e, v);
    EnterKeys(rows, e, v);
    EnteredRow(rows, e, v);
  }

  lemma NewSubjectFeasible(rows: Rows, e: Expr, v: Variable)
    requires ValidSubject(rows, e, v)
    ensures v in e.terms && Coef(e, v) == e.terms[v]
    ensures v.kind.Slack? && e.terms[v] != 0.0 ==> NewSubject(e, v).constant >= 0.0
    ensures v.kind.Dummy? && e.terms[v] != 0.0 ==> NewSubject(e, v).constant == 0.0
  {
    if v.kind.Slack? {
      QuotientSign(e.constant, e.terms[v]);
    }
  }

  lemma EnterKeys(rows: Rows, e: Expr, v: Variable)
    requires Coef(e, v) != 0.0
    ensures Enter(rows, e, v).Keys == rows.Keys + {v}
  {
    hide NewSubject;
  }

  lemma EnteredRow(rows: Rows, e: Expr, v: Variable)
    requires Coef(e, v) != 0.0
    ensures v in Enter(rows, e, v) && Enter(rows, e, v)[v] == NewSubject(e, v)
  {
    hide NewSubject;
  }

  /** Rows of restricted variables do not mention a valid subject. */
  lemma EnterUntouched(rows: Rows, e: Expr, v: Variable)
    requires Solved(rows) && Layered(rows) && ZeroFree(e) && ValidSubject(rows, e, v)
    requires forall u <- e.terms :: u !in rows
    ensures v !in rows
    ensures forall r <- rows :: r.IsRestricted() ==> Enter(rows, e, v)[r] == rows[r]
  {
    hide NewSubject;
    forall r | r in rows && r.IsRestricted() ensures v !in rows[r].terms {
      assert OnlyRestricted(rows[r]);
    }
  }

  lemma EnterPure(rows: Rows, e: Expr, v: Variable)
    requires Solved(rows) && Layered(rows) && DummyRowsPure(rows) && ZeroFree(e) && ValidSubject(rows, e, v)
    requires forall u <- e.terms :: u !in rows
    ensures DummyRowsPure(Enter(rows, e, v))
  {
    EnterUntouched(rows, e, v);
    NewSubjectSolved(e, v);
    var after := Enter(rows, e, v);
    assert after[v] == NewSubject(e, v);
    forall r, u | r in after && u in after[r].terms && r.kind.Dummy? ensures u.kind.Dummy? {
      if r != v {
        assert after[r] == rows[r];
      }
    }
  }

  lemma EnterLayered(rows: Rows, e: Expr, v: Variable)
    requires Solved(rows) && Layered(rows) && ZeroFree(e) && ValidSubject(rows, e, v)
    requires forall u <- e.terms :: u !in rows
    ensures Layered(Enter(rows, e, v))
  {
    NewSubjectSolved(e, v);
    var row := NewSubject(e, v);
    var after := Enter(rows, e, v);
    forall r | r in after && (r.IsRestricted() || r.kind.Objective?) ensures OnlyRestricted(after[r]) {
      if r != v {
        assert after[r] == Substitute(rows[r], v, row) && OnlyRestricted(rows[r]);
      }
    }
  }

  // ---- removing

  ghost predicate Drains(rows: Rows, m: Variable, r: Variable) {
    r in rows && r.IsRestricted() && Coef(rows[r], m) < 0.0
  }

  ghost predicate Restricts(rows: Rows, m: Variable, r: Variable) {
    r in rows && r.IsRestricted() && Coef(rows[r], m) != 0.0
  }

  /** The variable `exitVariableForMarker:` returns, in its three stages. */
  ghost predicate MarkerExit(rows: Rows, z: Variable, m: Variable, exit: Variable) {
    && exit in rows && exit != z && Coef(rows[exit], m) != 0.0
    && (if exists r :: Drains(rows, m, r) then
          Drains(rows, m, exit) && forall r :: Drains(rows, m, r) ==> Ratio(rows, m, exit) <= Ratio(rows, m, r)
        else if exists r :: Restricts(rows, m, r) then
          Restricts(rows, m, exit) && forall r :: Restricts(rows, m, r) ==> Ratio(rows, m, r) <= Ratio(rows, m, exit)
        else true)
  }

  /** The tables on which a removal goes wrong: a dummy row mentions the marker, and every
      row the marker drains has room to spare. */
  ghost predicate Stranded(rows: Rows, m: Variable) {
    && (exists d <- rows :: d.kind.Dummy? && m in rows[d].terms)
    && (exists r :: Drains(rows, m, r))
    && (forall r :: Drains(rows, m, r) ==> rows[r].constant > 0.0)
  }

  lemma RatioOfPositive(c: real, b: real, t: real)
    requires c > 0.0 && b >= 0.0 && -b / c <= t <= 0.0
    ensures b + Mul(c, t) >= 0.0
  {
    var q := -b / c;
    assert q * c == -b;
    MulMonotone(c, q, t);
  }

  lemma RatioZero(c: real, b: real)
    requires c != 0.0
    ensures -b / c == 0.0 <==> b == 0.0
    ensures c > 0.0 && b >= 0.0 ==> -b / c <= 0.0
  {
    var q := -b / c;
    assert q * c == -b;
    if c > 0.0 && b >= 0.0 && q > 0.0 {
      MulMonotone(c, 0.0, q);
    }
  }

  /** After removing a marker the reported solution still satisfies the remaining
      constraints exactly when the table was not stranded. */
  lemma RemovalKeepsFeasible(rows: Rows, z: Variable, m: Variable, exit: Variable)
    requires Solved(rows) && Feasible(rows) && m !in rows && MarkerExit(rows, z, m, exit)
    ensures Feasible(Pivot(rows, m, exit) - {m}) <==> !Stranded(rows, m)
  {
    hide Mul;
    hide Pivot;
    PivotConstants(rows, m, exit);
    var t := Ratio(rows, m, exit);
    RatioZero(Coef(rows[exit], m), rows[exit].constant);
    var after := Pivot(rows, m, exit) - {m};
    forall r | r in after
      ensures r in rows && r != exit
      ensures after[r].constant == rows[r].constant + Mul(Coef(rows[r], m), t)
    {
    }
    if exists r :: Drains(rows, m, r) {
      RatioSign(Coef(rows[exit], m), rows[exit].constant);
      forall r | r in after && r.kind.Slack? ensures after[r].constant >= 0.0 {
        if Drains(rows, m, r) {
          RatioBound(Coef(rows[r], m), rows[r].constant, t);
        } else {
          MulSign(Coef(rows[r], m), t);
        }
      }
      forall r | r in after && r.kind.Dummy? ensures after[r].constant == 0.0 <==> t == 0.0 || m !in rows[r].terms {
        MulSign(Coef(rows[r], m), t);
      }
      DrainedAtZero(rows, m, exit);
    } else {
      forall r | r in after && Restricts(rows, m, r)
        ensures r.kind.Slack? ==> after[r].constant >= 0.0
        ensures r.kind.Dummy? ==> after[r].constant == 0.0
      {
        RatioZero(Coef(rows[r], m), rows[r].constant);
        assert Restricts(rows, m, exit) && !Drains(rows, m, exit) && !Drains(rows, m, r);
        assert Ratio(rows, m, r) <= t <= 0.0;
        RatioOfPositive(Coef(rows[r], m), rows[r].constant, t);
        MulSign(Coef(rows[r], m), t);
      }
      forall r | r in after && r.IsRestricted() && !Restricts(rows, m, r)
        ensures after[r].constant == rows[r].constant
      {
        MulZero(t);
      }
    }
  }

  /** With the smallest ratio leaving, the step is empty exactly when some drained row is. */
  lemma DrainedAtZero(rows: Rows, m: Variable, exit: Variable)
    requires Feasible(rows) && Drains(rows, m, exit)
    requires forall r :: Drains(rows, m, r) ==> Ratio(rows, m, exit) <= Ratio(rows, m, r)
    ensures rows[exit].constant == 0.0 <==> exists r :: Drains(rows, m, r) && rows[r].constant == 0.0
    ensures forall r :: Drains(rows, m, r) ==> rows[r].constant >= 0.0
  {
    if r :| Drains(rows, m, r) && rows[r].constant == 0.0 {
      RatioZero(Coef(rows[r], m), rows[r].constant);
      RatioSign(Coef(rows[exit], m), rows[exit].constant);
      RatioZero(Coef(rows[exit], m), rows[exit].constant);
    }
  }

  /** Taking a marker out keeps the invariant exactly when a dummy leaves the table with it
      or no dummy row mentions it. */
  lemma RemovalKeepsSound(rows: Rows, z: Variable, m: Variable, exit: Variable)
    requires Solved(rows) && Feasible(rows) && DummyRowsPure(rows) && RestrictedLayered(rows)
    requires m.IsRestricted() && m !in rows && MarkerExit(rows, z, m, exit)
    requires var after := Pivot(rows, m, exit) - {m};
             forall r <- after :: r.kind.Objective? ==> OnlyRestricted(after[r])
    ensures Sound(Pivot(rows, m, exit) - {m}) <==>
            exit.kind.Dummy? || forall d <- rows :: d.kind.Dummy? ==> m !in rows[d].terms
  {
    hide Pivot;
    hide Feasible;
    hide MarkerExit;
    RemovalKeepsFeasible(rows, z, m, exit);
    RemovalKeepsPurity(rows, z, m, exit);
    RemovalKeepsLayers(rows, z, m, exit);
    if exit.kind.Dummy? {
      DummyExitIsEmpty(rows, z, m, exit);
    }
  }

  lemma DummyExitIsEmpty(rows: Rows, z: Variable, m: Variable, exit: Variable)
    requires Feasible(rows) && MarkerExit(rows, z, m, exit) && exit.kind.Dummy?
    ensures !Stranded(rows, m)
  {}

  ghost predicate OnlyDummies(e: Expr) {
    forall v <- e.terms :: v.kind.Dummy?
  }

  /** One dummy row that stays. */
  lemma DummyRowAfter(rows: Rows, m: Variable, exit: Variable, d: Variable)
    requires Solved(rows) && DummyRowsPure(rows) && exit in rows && m in rows[exit].terms
    requires d in rows && d != exit && d.kind.Dummy?
    ensures OnlyDummies(Substitute(rows[d], m, ChangeSubject(rows[exit], exit, m))) <==>
            exit.kind.Dummy? || m !in rows[d].terms
  {
    hide ChangeSubject;
    var e := ChangeSubject(rows[exit], exit, m);
    ChangeSubjectSolved(rows[exit], exit, m);
    if m in rows[d].terms {
      hide Substitute;
      SubstituteCoefs(rows[d], m, e);
      NonZeroProduct(Coef(rows[d], m), Coef(e, exit));
      assert Coef(Substitute(rows[d], m, e), exit) == SubstitutedCoef(rows[d], m, e, exit);
      forall v | v in Substitute(rows[d], m, e).terms ensures v in rows[d].terms || v in e.terms {
        assert Coef(Substitute(rows[d], m, e), v) == SubstitutedCoef(rows[d], m, e, v);
        MulZero(Coef(rows[d], m));
      }
    }
  }

  lemma RemovalKeepsPurity(rows: Rows, z: Variable, m: Variable, exit: Variable)
    requires Solved(rows) && DummyRowsPure(rows) && m.IsRestricted() && m !in rows && MarkerExit(rows, z, m, exit)
    ensures DummyRowsPure(Pivot(rows, m, exit) - {m}) <==>
            exit.kind.Dummy? || forall d <- rows :: d.kind.Dummy? ==> m !in rows[d].terms
  {
    var after := Pivot(rows, m, exit) - {m};
    assert exit in rows && m in rows[exit].terms;
    forall d | d in rows && d != exit && d.kind.Dummy?
      ensures d in after && (OnlyDummies(after[d]) <==> exit.kind.Dummy? || m !in rows[d].terms)
    {
      DummyRowAfter(rows, m, exit, d);
    }
    hide MarkerExit;
    hide ChangeSubject;
    hide Substitute;
    assert DummyRowsPure(after) <==> forall d <- after :: d.kind.Dummy? ==> OnlyDummies(after[d]);
  }

  /** `Layered` without what it says of objectives. */
  ghost predicate RestrictedLayered(rows: Rows) {
    forall r <- rows :: r.IsRestricted() ==> OnlyRestricted(rows[r])
  }

  lemma RemovalKeepsLayers(rows: Rows, z: Variable, m: Variable, exit: Variable)
    requires Solved(rows) && RestrictedLayered(rows) && m.IsRestricted() && m !in rows && MarkerExit(rows, z, m, exit)
    ensures RestrictedLayered(Pivot(rows, m, exit) - {m})
  {
    var e := ChangeSubject(rows[exit], exit, m);
    ChangeSubjectSolved(rows[exit], exit, m);
    forall r | r in rows && r != exit && r.IsRestricted() ensures OnlyRestricted(Substitute(rows[r], m, e)) {
      if m in rows[r].terms {
        assert Restricts(rows, m, r) && OnlyRestricted(rows[exit]);
      }
    }
  }

  lemma SolvedLess(rows: Rows, v: Variable)
    requires Solved(rows)
    ensures Solved(rows - {v})
  {}
}
