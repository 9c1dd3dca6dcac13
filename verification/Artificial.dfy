/** The artificial variable: adding an equation that has no ready subject. */
module Artificial {
  import opened Variables
  import opened LinearAlgebra
  import opened RowAlgebra
  import opened Simplex
  import opened Incremental
  import opened Removal

  /** A row `v == e` for a new variable stands for the equation `e - v == 0`. */
  lemma NewRowRepresents(rows: Rows, z: Variable, goal: Expr, eqs: Equations, v: Variable, e: Expr, equation: Expr)
    requires Solved(rows) && Represents(rows, z, goal, eqs)
    requires v !in rows && v !in eqs && !Mentions(eqs, v) && v !in equation.terms
    requires forall r <- rows :: v !in rows[r].terms
    requires forall s: Valuation :: Sat(rows, s) ==> Eval(e, s) == Eval(equation, s)
    ensures Represents(rows[v := e], z, goal, eqs[v := With(equation, v, -1.0)])
  {
    hide Eval;
    hide Solved;
    var more := rows[v := e];
    forall s: Valuation
      ensures Sat(more, s) <==> Holds(eqs[v := With(equation, v, -1.0)], s) && s(z) == Eval(goal, s)
    {
      SatExtended(rows, v, e, s);
      HoldsExtended(eqs, v, With(equation, v, -1.0), s);
      EvalWith(equation, v, -1.0, s);
    }
  }

  lemma SatExtended(rows: Rows, v: Variable, e: Expr, s: Valuation)
    requires v !in rows
    ensures Sat(rows[v := e], s) <==> Sat(rows, s) && s(v) == Eval(e, s)
  {
    hide Eval;
    var more := rows[v := e];
    assert forall r <- rows :: more[r] == rows[r];
    if Sat(more, s) {
      forall r <- rows ensures s(r) == Eval(rows[r], s) {
        assert s(r) == Eval(more[r], s);
      }
      assert s(v) == Eval(more[v], s);
    }
  }

  /** Setting the artificial variable to zero turns `equation - a == 0` into the equation. */
  lemma ZeroOutRepresents(rows: Rows, z: Variable, goal: Expr, eqs: Equations, a: Variable, m: Variable, equation: Expr,
                          after: Rows)
    requires Represents(rows, z, goal, eqs[a := With(equation, a, -1.0)])
    requires a !in eqs && !Mentions(eqs, a) && a !in equation.terms && a !in goal.terms && a != z && m !in eqs
    requires forall s: Valuation :: Sat(after, s) <==> Sat(rows, Update(s, a, 0.0))
    ensures Represents(after, z, goal, eqs[m := equation])
  {
    hide Eval;
    hide Sat;
    var fixed := eqs[a := With(equation, a, -1.0)];
    forall s: Valuation
      ensures Sat(after, s) <==> Holds(eqs[m := equation], s) && s(z) == Eval(goal, s)
    {
      var t := Update(s, a, 0.0);
      HoldsExtended(eqs, a, With(equation, a, -1.0), t);
      HoldsExtended(eqs, m, equation, s);
      HoldsUpdate(eqs, s, a, 0.0);
      EvalWith(equation, a, -1.0, t);
      EvalUpdateAbsent(equation, s, a, 0.0);
      EvalUpdateAbsent(goal, s, a, 0.0);
    }
  }

  lemma RunRepresents(rows: Rows, run: seq<Exchange>, z: Variable, goal: Expr, eqs: Equations)
    requires Solved(rows) && CanRun(rows, run) && Represents(rows, z, goal, eqs)
    ensures Solved(Run(rows, run)) && Represents(Run(rows, run), z, goal, eqs)
  {
    hide Sat;
    hide Holds;
    hide Run;
    hide CanRun;
    RunMeaning(rows, run, Zero());
    forall s: Valuation
      ensures Sat(Run(rows, run), s) <==> Holds(eqs, s) && s(z) == Eval(goal, s)
    {
      RunMeaning(rows, run, s);
    }
  }

  lemma PivotRepresents(rows: Rows, entry: Variable, exit: Variable, z: Variable, goal: Expr, eqs: Equations)
    requires Solved(rows) && exit in rows && entry in rows[exit].terms && Represents(rows, z, goal, eqs)
    ensures Represents(Pivot(rows, entry, exit), z, goal, eqs)
  {
    hide Sat;
    hide Holds;
    hide Pivot;
    forall s: Valuation
      ensures Sat(Pivot(rows, entry, exit), s) <==> Holds(eqs, s) && s(z) == Eval(goal, s)
    {
      PivotMeaning(rows, entry, exit, s);
    }
  }

  /** The table while the artificial objective `w` and the artificial variable `a` are in:
      both rows start out as the same expression. */
  ghost predicate Twins(rows: Rows, w: Variable, a: Variable) {
    forall s: Valuation :: Sat(rows, s) ==> s(w) == s(a)
  }

  /** The artificial objective reports the artificial variable's value, so a non-zero result
      leaves the artificial variable basic: the row the source then forgets. */
  lemma NonZeroLeavesArtificial(rows: Rows, w: Variable, a: Variable)
    requires Solved(rows) && Twins(rows, w, a) && w in rows
    ensures rows[w].constant == if a in rows then rows[a].constant else 0.0
  {
    FeasibleMeansAdmissible(rows);
    var s := BasicSolution(rows);
    assert s(w) == s(a);
  }

  /** A row of dummies only cannot stand for an expression that has a slack in it, or a
      constant: the pivotable variable `addWithArtificialVariable:` asks for exists. */
  lemma PivotableExists(before: Rows, e: Expr, a: Variable, after: Rows)
    requires Solved(before) && Feasible(before) && DummyRowsPure(before)
    requires Solved(after) && Feasible(after)
    requires a in before && before[a] == e && OnlyRestricted(e)
    requires (exists v <- e.terms :: v.IsPivotable()) || e.constant != 0.0
    requires forall s: Valuation :: Sat(after, s) <==> Sat(before, s)
    requires a in after && after[a].constant == 0.0 && OnlyRestricted(after[a])
    ensures exists v <- after[a].terms :: v.IsPivotable()
  {
    hide Eval;
    if forall v <- after[a].terms :: !v.IsPivotable() {
      var s := BasicSolution(before);
      FeasibleMeansAdmissible(before);
      assert Sat(after, s);
      assert s(a) == 0.0 by {
        EvalAtZero(after[a], s);
      }
      if v :| v in e.terms && v.IsPivotable() {
        var t := Extend(before, Unit(v));
        ExtendSat(before, Unit(v));
        EvalAtUnit(e, v);
        forall d | d in after[a].terms ensures t(d) == 0.0 {
          if d in before {
            EvalSame(before[d], Zero(), Unit(v));
            EvalAtZero(before[d], Zero());
          }
        }
        EvalAtZero(after[a], t);
        EvalAtZero(e, Zero());
      }
    }
  }

  /** A step of length zero keeps the invariant. */
  lemma DegeneratePivotSound(rows: Rows, entry: Variable, exit: Variable)
    requires Solved(rows) && Sound(rows)
    requires exit in rows && entry in rows[exit].terms && entry.IsPivotable() && exit.IsPivotable()
    requires rows[exit].constant == 0.0
    ensures Sound(Pivot(rows, entry, exit))
  {
    hide Mul;
    hide Pivot;
    PivotConstants(rows, entry, exit);
    PivotLayered(rows, entry, exit);
    StepKeepsPurity(rows, entry, exit);
    var t := Ratio(rows, entry, exit);
    assert t == 0.0;
    forall r | r in rows ensures Mul(Coef(rows[r], entry), t) == 0.0 {
      MulZero(Coef(rows[r], entry));
    }
  }

  lemma NewRowSound(rows: Rows, v: Variable, e: Expr)
    requires Sound(rows) && OnlyRestricted(e) && e.constant >= 0.0 && (v.kind.Slack? || v.kind.Objective?)
    ensures Sound(rows[v := e])
  {}

  lemma FewerRowsSound(rows: Rows, v: Variable)
    requires Sound(rows)
    ensures Sound(rows - {v})
  {}

  lemma FewerTermsSound(rows: Rows, v: Variable, after: Rows)
    requires Sound(rows) && after.Keys == rows.Keys && forall r <- rows :: after[r] == Without(rows[r], v)
    ensures Sound(after)
  {}

  /** The equations during the artificial phase are still keyed. */
  lemma PhaseKeyed(eqs: Equations, w: Variable, a: Variable, equation: Expr)
    requires Keyed(eqs) && w != a && w !in eqs && a !in eqs && !Mentions(eqs, w) && !Mentions(eqs, a)
    requires w !in equation.terms && a !in equation.terms && forall k <- eqs :: k !in equation.terms
    ensures Keyed(eqs[w := With(equation, w, -1.0)][a := With(equation, a, -1.0)])
    ensures Keyed(eqs[a := With(equation, a, -1.0)])
  {}

  lemma EntryKeyed(eqs: Equations, m: Variable, equation: Expr)
    requires Keyed(eqs) && m !in eqs && !Mentions(eqs, m) && Coef(equation, m) != 0.0
    requires forall k <- eqs :: k !in equation.terms
    ensures Keyed(eqs[m := equation])
  {}

  /** The artificial row alone, constant zero: the equation already follows from the rest. */
  lemma ConstantArtificial(rows: Rows, a: Variable, s: Valuation)
    requires Solved(rows) && a in rows && rows[a].terms == map[] && rows[a].constant == 0.0
    ensures Sat(rows - {a}, s) <==> Sat(rows, Update(s, a, 0.0))
  {
    EvalAtZero(rows[a], s);
    DropRowMeaning(rows, a, s);
  }

  /** What the row left behind by a refused equation shows: a solution of everything would
      need slacks that add up to the row's constant divided by the tolerance, and there is
      no such solution at all when no coefficient lies inside the tolerance. */
  ghost predicate Refutes(row: Expr, eqs: Equations, equation: Expr) {
    && row.constant > 0.0
    && (forall s: Valuation :: Admissible(s) && Holds(eqs, s) && Eval(equation, s) == 0.0 ==>
          row.constant <= TOLERANCE * Eval(Ones(SlackTerms(row)), s))
    && (Optimised(row) ==> forall s: Valuation :: Admissible(s) && Holds(eqs, s) ==> Eval(equation, s) != 0.0)
  }

  /** While both are basic the artificial objective and the artificial variable have one row. */
  lemma TwinRows(rows: Rows, w: Variable, a: Variable)
    requires Solved(rows) && Twins(rows, w, a) && w in rows && a in rows
    ensures rows[w] == rows[a]
  {
    forall p: Valuation ensures Eval(rows[w], p) == Eval(rows[a], p) {
      ExtendSat(rows, p);
      assert Extend(rows, p)(w) == Extend(rows, p)(a);
    }
    SameValues(rows[w], rows[a]);
  }

  /** What a solution of the list and the equation would mean for the artificial objective. */
  lemma PositiveArtificialIsInfeasible(rows: Rows, w: Variable, a: Variable, z: Variable, goal: Expr, eqs: Equations,
                                       equation: Expr, s: Valuation)
    requires Solved(rows) && Sound(rows) && Twins(rows, w, a) && w in rows && w.kind.Objective? && a.kind.Slack?
    requires w != z && a != z && w != a && w !in goal.terms && a !in goal.terms && z !in goal.terms
    requires w !in eqs && a !in eqs && !Mentions(eqs, w) && !Mentions(eqs, a) && !Mentions(eqs, z)
    requires w !in equation.terms && a !in equation.terms && z !in equation.terms && z.kind.Objective?
    requires Represents(rows, z, goal, eqs[w := With(equation, w, -1.0)][a := With(equation, a, -1.0)])
    requires Stopped(rows[w]) && rows[w].constant != 0.0
    requires Admissible(s) && Holds(eqs, s) && Eval(equation, s) == 0.0
    ensures rows[w].constant <= TOLERANCE * Eval(Ones(SlackTerms(rows[w])), s)
    ensures !Optimised(rows[w])
  {
    hide Eval;
    hide Sat;
    hide Holds;
    NonZeroLeavesArtificial(rows, w, a);
    var t := Update(Update(Update(s, w, 0.0), a, 0.0), z, Eval(goal, s));
    PhaseHolds(eqs, w, a, z, equation, s, Eval(goal, s));
    EvalUpdateAbsent(goal, s, w, 0.0);
    EvalUpdateAbsent(goal, Update(s, w, 0.0), a, 0.0);
    EvalUpdateAbsent(goal, Update(Update(s, w, 0.0), a, 0.0), z, Eval(goal, s));
    assert Sat(rows, t);
    assert Admissible(t);
    StoppedIsNearlyOptimal(rows, w, t);
    EvalSame(Ones(SlackTerms(rows[w])), s, t);
    FeasibleMeansAdmissible(rows);
    if Optimised(rows[w]) {
      StoppedIsOptimal(rows, w, t);
    }
  }

  lemma PhaseHolds(eqs: Equations, w: Variable, a: Variable, z: Variable, equation: Expr, s: Valuation, x: real)
    requires w !in eqs && a !in eqs && w != a && z != w && z != a
    requires !Mentions(eqs, w) && !Mentions(eqs, a) && !Mentions(eqs, z)
    requires w !in equation.terms && a !in equation.terms && z !in equation.terms
    requires Holds(eqs, s) && Eval(equation, s) == 0.0
    ensures Holds(eqs[w := With(equation, w, -1.0)][a := With(equation, a, -1.0)],
                  Update(Update(Update(s, w, 0.0), a, 0.0), z, x))
  {
    hide Eval;
    var s1 := Update(s, w, 0.0);
    var s2 := Update(s1, a, 0.0);
    var t := Update(s2, z, x);
    HoldsUpdate(eqs, s, w, 0.0);
    HoldsUpdate(eqs, s1, a, 0.0);
    HoldsUpdate(eqs, s2, z, x);
    EvalUpdateAbsent(equation, s, w, 0.0);
    EvalUpdateAbsent(equation, s1, a, 0.0);
    EvalUpdateAbsent(equation, s2, z, x);
    EvalWith(equation, w, -1.0, t);
    EvalWith(equation, a, -1.0, t);
    HoldsExtended(eqs, w, With(equation, w, -1.0), t);
    HoldsExtended(eqs[w := With(equation, w, -1.0)], a, With(equation, a, -1.0), t);
  }

  /** Taking the artificial objective's row out of the table. */
  lemma DropObjective(rows: Rows, w: Variable, a: Variable, z: Variable, goal: Expr, eqs: Equations, equation: Expr)
    requires Solved(rows) && w in rows && w != z && w != a && w !in goal.terms
    requires Keyed(eqs) && w !in eqs && a !in eqs && !Mentions(eqs, w) && !Mentions(eqs, a)
    requires w !in equation.terms && a !in equation.terms && forall k <- eqs :: k !in equation.terms
    requires Represents(rows, z, goal, eqs[w := With(equation, w, -1.0)][a := With(equation, a, -1.0)])
    ensures Solved(rows - {w})
    ensures Represents(rows - {w}, z, goal, eqs[a := With(equation, a, -1.0)])
  {
    hide Represents;
    var both := eqs[w := With(equation, w, -1.0)][a := With(equation, a, -1.0)];
    PhaseKeyed(eqs, w, a, equation);
    DropRowRepresents(rows, z, goal, both, w);
    assert both - {w} == eqs[a := With(equation, a, -1.0)];
  }

  /** With the artificial variable gone as well, the equation itself remains. */
  lemma DropArtificial(rows: Rows, a: Variable, z: Variable, goal: Expr, eqs: Equations, m: Variable, equation: Expr,
                       after: Rows)
    requires Solved(rows) && Represents(rows, z, goal, eqs[a := With(equation, a, -1.0)])
    requires a !in eqs && !Mentions(eqs, a) && a !in equation.terms && a !in goal.terms && a != z && m !in eqs
    requires
      || (a in rows && rows[a].terms == map[] && rows[a].constant == 0.0 && after == rows - {a})
      || (a !in rows && after.Keys == rows.Keys && forall r <- rows :: after[r] == Without(rows[r], a))
    ensures Represents(after, z, goal, eqs[m := equation])
  {
    hide Represents;
    hide Sat;
    hide Solved;
    forall s: Valuation ensures Sat(after, s) <==> Sat(rows, Update(s, a, 0.0)) {
      if a in rows {
        ConstantArtificial(rows, a, s);
      } else {
        DropColumnMeaning(rows, a, after, s);
      }
    }
    ZeroOutRepresents(rows, z, goal, eqs, a, m, equation, after);
  }
}
