/** Editing a constraint's constant, and the dual simplex that repairs the table after it
    (Source/GSCassowarySolver.m). */
module Edits {
  import opened Options
  import opened Variables
  import opened LinearAlgebra
  import opened RowAlgebra
  import opened Simplex
  import opened Incremental

  function ShiftRow(rows: Rows, r: Variable, d: real): Rows
    requires r in rows
  {
    rows[r := Expr(rows[r].terms, rows[r].constant + d)]
  }

  function ShiftColumn(rows: Rows, v: Variable, d: real): Rows {
    map r | r in rows :: Expr(rows[r].terms, rows[r].constant + Coef(rows[r], v) * d)
  }

  /** What `deltaEditConstant:plusVariable:minusVariable:` does to the rows.  A required edit
      constraint has no minus variable. */
  function EditRows(rows: Rows, delta: real, plus: Variable, minus: Option<Variable>): Rows {
    if plus in rows then ShiftRow(rows, plus, delta)
    else if minus.Some? && minus.value in rows then ShiftRow(rows, minus.value, -delta)
    else ShiftColumn(rows, plus, delta)
  }

  /** One of the two variables is basic. */
  predicate AnyBasic(rows: Rows, plus: Variable, minus: Option<Variable>) {
    plus in rows || (minus.Some? && minus.value in rows)
  }

  function ShiftConstant(e: Expr, d: real): Expr {
    Expr(e.terms, e.constant + d)
  }

  lemma EvalShiftConstant(e: Expr, d: real, s: Valuation)
    ensures Eval(ShiftConstant(e, d), s) == Eval(e, s) + d
  {
    DotAgree(e.terms.Keys, ShiftConstant(e, d), e, s);
  }

  lemma ShiftRowMeaning(rows: Rows, r: Variable, d: real, s: Valuation)
    requires Solved(rows) && r in rows
    ensures Sat(ShiftRow(rows, r, d), s) <==> Sat(rows, Update(s, r, s(r) - d))
  {
    hide Eval;
    var t := Update(s, r, s(r) - d);
    EvalShiftConstant(rows[r], d, s);
    forall q <- rows ensures Eval(rows[q], t) == Eval(rows[q], s) {
      EvalUpdateAbsent(rows[q], s, r, s(r) - d);
    }
    var after := ShiftRow(rows, r, d);
    assert after[r] == ShiftConstant(rows[r], d);
    assert forall q <- rows :: q != r ==> after[q] == rows[q];
    assert after.Keys == rows.Keys;
    if Sat(after, s) {
      assert s(r) == Eval(after[r], s);
      forall q <- rows ensures t(q) == Eval(rows[q], t) {
        assert s(q) == Eval(after[q], s);
      }
    }
    if Sat(rows, t) {
      forall q <- after ensures s(q) == Eval(after[q], s) {
        assert t(q) == Eval(rows[q], t);
      }
    }
  }

  lemma ShiftColumnMeaning(rows: Rows, v: Variable, d: real, s: Valuation)
    requires v !in rows
    ensures Sat(ShiftColumn(rows, v, d), s) <==> Sat(rows, Update(s, v, s(v) + d))
  {
    hide Eval;
    forall r <- rows ensures Eval(ShiftColumn(rows, v, d)[r], s) == Eval(rows[r], Update(s, v, s(v) + d)) {
      assert ShiftColumn(rows, v, d)[r] == ShiftConstant(rows[r], Coef(rows[r], v) * d);
      EvalShiftConstant(rows[r], Coef(rows[r], v) * d, s);
      var x := s(v) + d;
      EvalUpdate(rows[r], s, v, x);
      assert x - s(v) == d;
    }
  }

  /** The variables of one edit constraint: the equation of `plus` mentions them with
      opposite coefficients, and no other equation mentions them. */
  ghost predicate ErrorPair(eqs: Equations, plus: Variable, minus: Option<Variable>) {
    && plus in eqs
    && (minus.Some? ==>
          && minus.value != plus && Coef(eqs[plus], minus.value) == -Coef(eqs[plus], plus)
          && !Mentions(eqs - {plus}, minus.value))
  }

  /** How far the edit moves the constant of the constraint's equation.  The classic update
      applies to all three cases; here the sign is reversed when a variable of the pair is
      basic. */
  function EquationShift(rows: Rows, equation: Expr, delta: real, plus: Variable, minus: Option<Variable>): real {
    if AnyBasic(rows, plus, minus) then -(Coef(equation, plus) * delta) else Coef(equation, plus) * delta
  }

  /** Only the constant of the edited equation, and a constant in the goal, change. */
  lemma EditMeaning(rows: Rows, z: Variable, goal: Expr, eqs: Equations, delta: real, plus: Variable,
                    minus: Option<Variable>)
    returns (offset: real)
    requires Solved(rows) && Represents(rows, z, goal, eqs) && Keyed(eqs) && ErrorPair(eqs, plus, minus)
    requires plus != z && minus != Some(z)
    ensures Represents(EditRows(rows, delta, plus, minus), z, ShiftConstant(goal, offset),
                       eqs[plus := ShiftConstant(eqs[plus], EquationShift(rows, eqs[plus], delta, plus, minus))])
  {
    hide Eval;
    hide Sat;
    var v, d :=
      if plus !in rows && minus.Some? && minus.value in rows then minus.value else plus,
      if plus in rows then -delta else delta;
    offset := Coef(goal, v) * d;
    var shift := EquationShift(rows, eqs[plus], delta, plus, minus);
    assert shift == Coef(eqs[plus], v) * d by { MoveSign(Coef(eqs[plus], plus), delta); }
    var after := EditRows(rows, delta, plus, minus);
    var moved := eqs[plus := ShiftConstant(eqs[plus], shift)];
    forall s: Valuation
      ensures Sat(after, s) <==> Holds(moved, s) && s(z) == Eval(ShiftConstant(goal, offset), s)
    {
      if v in rows {
        ShiftRowMeaning(rows, v, -d, s);
        assert s(v) - -d == s(v) + d;
      } else {
        ShiftColumnMeaning(rows, v, d, s);
      }
      MovedHolds(eqs, plus, v, d, s);
      EvalShiftConstant(goal, offset, s);
      EvalUpdate(goal, s, v, s(v) + d);
      assert s(v) + d - s(v) == d;
    }
  }

  lemma MoveSign(c: real, d: real)
    ensures -(c * d) == c * -d && -(c * d) == (-c) * d
  {}

  /** Moving `v` by `d` in the edited equation is the same as moving its constant. */
  lemma MovedHolds(eqs: Equations, k: Variable, v: Variable, d: real, s: Valuation)
    requires k in eqs && !Mentions(eqs - {k}, v)
    ensures Holds(eqs, Update(s, v, s(v) + d)) <==>
            Holds(eqs[k := ShiftConstant(eqs[k], Coef(eqs[k], v) * d)], s)
  {
    hide Eval;
    var shift := Coef(eqs[k], v) * d;
    var moved := eqs[k := ShiftConstant(eqs[k], shift)];
    var t := Update(s, v, s(v) + d);
    assert moved - {k} == eqs - {k};
    HoldsWith(eqs, k, t);
    HoldsWith(moved, k, s);
    HoldsUpdate(eqs - {k}, s, v, s(v) + d);
    EvalUpdate(eqs[k], s, v, s(v) + d);
    assert s(v) + d - s(v) == d;
    EvalShiftConstant(eqs[k], shift, s);
  }

  /** After an edit the table forces the edited equation with its constant moved by `wish`
      exactly when `wish` is the move of the case at hand. */
  lemma EditReachesTarget(rows: Rows, z: Variable, goal: Expr, eqs: Equations, delta: real, wish: real, plus: Variable,
                          minus: Option<Variable>)
    requires Solved(rows) && Represents(rows, z, goal, eqs) && Keyed(eqs) && ErrorPair(eqs, plus, minus)
    requires plus != z && minus != Some(z)
    ensures var wanted := ShiftConstant(eqs[plus], wish);
            (forall s: Valuation :: Sat(EditRows(rows, delta, plus, minus), s) ==> Eval(wanted, s) == 0.0) <==>
            wish == EquationShift(rows, eqs[plus], delta, plus, minus)
  {
    hide Eval;
    hide Sat;
    hide EditRows;
    hide EquationShift;
    var offset := EditMeaning(rows, z, goal, eqs, delta, plus, minus);
    var after := EditRows(rows, delta, plus, minus);
    var shift := EquationShift(rows, eqs[plus], delta, plus, minus);
    var moved := eqs[plus := ShiftConstant(eqs[plus], shift)];
    forall s: Valuation | Sat(after, s) ensures Eval(ShiftConstant(eqs[plus], wish), s) == wish - shift {
      assert Eval(moved[plus], s) == 0.0;
      EvalShiftConstant(eqs[plus], shift, s);
      EvalShiftConstant(eqs[plus], wish, s);
    }
    EditRowsSolved(rows, delta, plus, minus);
    ExtendSat(after, Zero());
    var s := Extend(after, Zero());
    if wish != shift {
      assert Eval(ShiftConstant(eqs[plus], wish), s) != 0.0;
    }
  }

  lemma EditRowsSolved(rows: Rows, delta: real, plus: Variable, minus: Option<Variable>)
    requires Solved(rows)
    ensures Solved(EditRows(rows, delta, plus, minus))
  {
    var after := EditRows(rows, delta, plus, minus);
    forall r <- after ensures after[r].terms == rows[r].terms {
    }
  }

  // ---- repairing the table

  /** The entry variable `dualOptimize` picks for an infeasible row. */
  ghost predicate DualEntry(rows: Rows, z: Variable, entry: Variable, exit: Variable) {
    && z in rows && exit in rows && entry.IsPivotable() && Coef(rows[exit], entry) > 0.0
    && (forall v <- rows[exit].terms :: v.IsPivotable() && rows[exit].terms[v] > 0.0 ==>
          Coef(rows[z], entry) / Coef(rows[exit], entry) <= Coef(rows[z], v) / rows[exit].terms[v])
  }

  /** The infeasible row becomes feasible. */
  lemma DualStepRepairs(rows: Rows, z: Variable, entry: Variable, exit: Variable)
    requires Solved(rows) && DualEntry(rows, z, entry, exit) && rows[exit].constant < 0.0
    ensures Pivot(rows, entry, exit)[entry].constant > 0.0
  {
    PivotConstants(rows, entry, exit);
    var t, c := Ratio(rows, entry, exit), Coef(rows[exit], entry);
    assert t * c == -rows[exit].constant;
    if t <= 0.0 {
      MulMonotone(c, t, 0.0);
    }
  }

  lemma QuotientBound(zv: real, rv: real, q: real)
    requires zv >= 0.0 && q >= 0.0 && (rv > 0.0 ==> q <= zv / rv)
    ensures zv - q * rv >= 0.0
  {
    if rv > 0.0 {
      var p := zv / rv;
      assert p * rv == zv;
      MulMonotone(rv, q, p);
    } else {
      MulMonotone(q, rv, 0.0);
    }
  }

  lemma QuotientNonNegative(a: real, b: real)
    requires a >= 0.0 && b > 0.0
    ensures a / b >= 0.0
  {
    var q := a / b;
    assert q * b == a;
    if q < 0.0 { MulSign(q, b); }
  }

  /** The dual step keeps every coefficient of the objective row non-negative, so the repair
      ends at an optimum. */
  lemma DualStepKeepsOptimal(rows: Rows, z: Variable, entry: Variable, exit: Variable)
    requires Solved(rows) && DualEntry(rows, z, entry, exit) && z != exit && Optimised(rows[z])
    ensures Optimised(Pivot(rows, entry, exit)[z])
  {
    hide ChangeSubject;
    var e := ChangeSubject(rows[exit], exit, entry);
    var after := Pivot(rows, entry, exit);
    var k := Coef(rows[z], entry);
    var c := Coef(rows[exit], entry);
    QuotientNonNegative(k, c);
    if entry in rows[z].terms {
      SubstituteCoefs(rows[z], entry, e);
      assert after[z] == Substitute(rows[z], entry, e);
      forall v | v in after[z].terms && v.IsPivotable() ensures after[z].terms[v] >= 0.0 {
        assert after[z].terms[v] == SubstitutedCoef(rows[z], entry, e, v);
        DualCoef(rows[exit], exit, entry, v, k);
        if v != exit && v != entry {
          QuotientBound(Coef(rows[z], v), Coef(rows[exit], v), k / c);
        }
      }
    }
  }

  /** The coefficients of the new entry row, times the entry's objective coefficient. */
  lemma DualCoef(row: Expr, exit: Variable, entry: Variable, v: Variable, k: real)
    requires ZeroFree(row) && entry in row.terms && exit !in row.terms
    ensures var e, c := ChangeSubject(row, exit, entry), Coef(row, entry);
            && (v == exit ==> k * Coef(e, v) == k / c)
            && (v != exit && v != entry ==> k * Coef(e, v) == -(k / c * Coef(row, v)))
            && (v == entry ==> Coef(e, v) == 0.0)
  {
    var c := Coef(row, entry);
    var q := 1.0 / c;
    assert q * c == 1.0;
    assert k * q == k / c;
    var x := Coef(row, v);
    assert k * (x * -q) == -((k * q) * x);
    MulZero(k);
  }

  /** When no entry exists the constraints really cannot be met. */
  lemma NoDualEntryIsInfeasible(rows: Rows, exit: Variable, s: Valuation)
    requires exit in rows && exit.IsRestricted() && rows[exit].constant < 0.0 && OnlyRestricted(rows[exit])
    requires forall v <- rows[exit].terms :: v.IsPivotable() ==> rows[exit].terms[v] <= 0.0
    requires Sat(rows, s)
    ensures !Admissible(s)
  {
    hide Dot;
    hide Mul;
    if Admissible(s) {
      var e := rows[exit];
      var none := Expr(map[], 0.0);
      forall v | v in e.terms ensures Mul(Coef(e, v), s(v)) <= Mul(Coef(none, v), s(v)) {
        MulZero(s(v));
        MulZero(Coef(e, v));
        MulSign(Coef(e, v), s(v));
      }
      DotMonotone(e.terms.Keys, e, none, s);
      DotWiden({}, e.terms.Keys, none, s);
      DotZero({}, none, s);
    }
  }
}
