/** What adding and removing constraints means: the tableau is compared with the list of
    equations it stands for and with the objective as it was stated. */
module Incremental {
  import opened Variables
  import opened LinearAlgebra
  import opened RowAlgebra
  import opened Simplex

  /** One equation `e == 0` per key; the key is a variable found in no other equation. */
  type Equations = map<Variable, Expr>

  ghost predicate Holds(eqs: Equations, s: Valuation) {
    forall k <- eqs :: Eval(eqs[k], s) == 0.0
  }

  ghost predicate Keyed(eqs: Equations) {
    && (forall k <- eqs :: Coef(eqs[k], k) != 0.0)
    && (forall k <- eqs, j <- eqs :: j != k ==> k !in eqs[j].terms)
  }

  ghost predicate Mentions(eqs: Equations, v: Variable) {
    exists k <- eqs :: v in eqs[k].terms
  }

  /** The rows say exactly that the equations hold and that `z` is the stated goal. */
  ghost predicate Represents(rows: Rows, z: Variable, goal: Expr, eqs: Equations) {
    forall s: Valuation :: Sat(rows, s) <==> Holds(eqs, s) && s(z) == Eval(goal, s)
  }

  lemma HoldsUpdate(eqs: Equations, s: Valuation, v: Variable, x: real)
    requires !Mentions(eqs, v)
    ensures Holds(eqs, Update(s, v, x)) <==> Holds(eqs, s)
  {
    hide Eval;
    forall k <- eqs ensures Eval(eqs[k], Update(s, v, x)) == Eval(eqs[k], s) {
      EvalSame(eqs[k], Update(s, v, x), s);
    }
  }

  lemma EvalUpdateAbsent(e: Expr, s: Valuation, v: Variable, x: real)
    requires v !in e.terms
    ensures Eval(e, Update(s, v, x)) == Eval(e, s)
  {
    EvalSame(e, Update(s, v, x), s);
  }

  // ---- a new row

  /** `expression == 0` entered as a row with the given subject. */
  function Enter(rows: Rows, expression: Expr, subject: Variable): Rows
    requires Coef(expression, subject) != 0.0
  {
    var e := NewSubject(expression, subject);
    SubstituteAll(rows, subject, e)[subject := e]
  }

  lemma NewSubjectEquation(e: Expr, subject: Variable, s: Valuation)
    requires Coef(e, subject) != 0.0
    ensures s(subject) == Eval(NewSubject(e, subject), s) <==> Eval(e, s) == 0.0
  {
    hide Eval;
    var c := Coef(e, subject);
    var k := 1.0 / c;
    EvalScale(-k, e, Scale(e, -k), s);
    EvalWithout(Scale(e, -k), subject, s);
    assert c * k == 1.0;
    UnitCancel(c, k, s(subject));
    assert Eval(NewSubject(e, subject), s) == Mul(-k, Eval(e, s)) + s(subject);
    MulSign(-k, Eval(e, s));
  }

  lemma UnitCancel(c: real, k: real, x: real)
    requires c * k == 1.0
    ensures (c * -k) * x == -x
  {
    assert c * -k == -1.0;
  }

  lemma EnterMeaning(rows: Rows, expression: Expr, subject: Variable, s: Valuation)
    requires Solved(rows) && ZeroFree(expression) && subject in expression.terms
    requires forall v <- expression.terms :: v !in rows
    ensures Sat(Enter(rows, expression, subject), s) <==> Sat(rows, s) && Eval(expression, s) == 0.0
  {
    hide Eval;
    hide NewSubject;
    var e := NewSubject(expression, subject);
    var after := Enter(rows, expression, subject);
    NewSubjectEquation(expression, subject, s);
    assert subject !in rows;
    if s(subject) == Eval(e, s) {
      forall r | r in rows ensures Eval(after[r], s) == Eval(rows[r], s) {
        assert after[r] == Substitute(rows[r], subject, e);
        EvalSubstitute(rows[r], subject, e, s);
        var gap := Eval(e, s) - s(subject);
        assert Coef(rows[r], subject) * gap == 0.0;
      }
    }
    assert after[subject] == e;
    assert forall r :: r in after && r != subject <==> r in rows;
  }

  lemma NewSubjectSolved(e: Expr, subject: Variable)
    requires ZeroFree(e) && subject in e.terms
    ensures ZeroFree(NewSubject(e, subject)) && NewSubject(e, subject).terms.Keys == e.terms.Keys - {subject}
  {
    var k := 1.0 / Coef(e, subject);
    assert k * Coef(e, subject) == 1.0;
    forall v <- e.terms ensures e.terms[v] * -k != 0.0 {
      NonZeroProduct(e.terms[v], -k);
    }
  }

  /** Entering an equation that uses fresh or parametric variables extends the list. */
  lemma EnterRepresents(rows: Rows, z: Variable, goal: Expr, eqs: Equations,
                        expression: Expr, subject: Variable, key: Variable, equation: Expr)
    requires Solved(rows) && Represents(rows, z, goal, eqs) && key !in eqs
    requires ZeroFree(expression) && subject in expression.terms && forall v <- expression.terms :: v !in rows
    requires forall s: Valuation :: Sat(rows, s) ==> (Eval(expression, s) == 0.0 <==> Eval(equation, s) == 0.0)
    ensures Represents(Enter(rows, expression, subject), z, goal, eqs[key := equation])
  {
    hide Eval;
    forall s: Valuation
      ensures Sat(Enter(rows, expression, subject), s) <==>
              Holds(eqs[key := equation], s) && s(z) == Eval(goal, s)
    {
      EnterMeaning(rows, expression, subject, s);
      HoldsExtended(eqs, key, equation, s);
    }
  }

  lemma HoldsExtended(eqs: Equations, key: Variable, equation: Expr, s: Valuation)
    requires key !in eqs
    ensures Holds(eqs[key := equation], s) <==> Holds(eqs, s) && Eval(equation, s) == 0.0
  {
    var more := eqs[key := equation];
    assert forall k <- eqs :: more[k] == eqs[k];
    if Holds(more, s) {
      forall k <- eqs ensures Eval(eqs[k], s) == 0.0 {
        assert Eval(more[k], s) == 0.0;
      }
      assert Eval(more[key], s) == 0.0;
    }
  }

  // ---- removing a row or a column

  lemma DropRowMeaning(rows: Rows, m: Variable, s: Valuation)
    requires Solved(rows) && m in rows
    ensures Sat(rows - {m}, s) <==> Sat(rows, Update(s, m, Eval(rows[m], s)))
  {
    hide Eval;
    var t := Update(s, m, Eval(rows[m], s));
    forall r <- rows ensures Eval(rows[r], t) == Eval(rows[r], s) {
      EvalUpdateAbsent(rows[r], s, m, Eval(rows[m], s));
    }
  }

  /** Removing the row of a key releases exactly that key's equation. */
  lemma DropRowRepresents(rows: Rows, z: Variable, goal: Expr, eqs: Equations, m: Variable)
    requires Solved(rows) && Represents(rows, z, goal, eqs) && Keyed(eqs)
    requires m in rows && m in eqs && m != z && m !in goal.terms
    ensures Represents(rows - {m}, z, goal, eqs - {m})
  {
    hide Eval;
    hide Sat;
    forall s: Valuation
      ensures Sat(rows - {m}, s) <==> Holds(eqs - {m}, s) && s(z) == Eval(goal, s)
    {
      DropRowMeaning(rows, m, s);
      var t := Update(s, m, Eval(rows[m], s));
      assert !Mentions(eqs - {m}, m);
      HoldsUpdate(eqs - {m}, s, m, Eval(rows[m], s));
      EvalUpdateAbsent(goal, s, m, Eval(rows[m], s));
      if Holds(eqs - {m}, s) && s(z) == Eval(goal, s) {
        var x := Solution(eqs[m], s, m);
        HoldsUpdate(eqs - {m}, s, m, x);
        EvalUpdateAbsent(goal, s, m, x);
        var u := Update(s, m, x);
        assert Holds(eqs, u) by { HoldsWith(eqs, m, u); }
        assert Sat(rows, u);
        SatBasicIs(rows, m, s, x);
      } else if Sat(rows - {m}, s) {
        HoldsWith(eqs, m, t);
      }
    }
  }

  lemma HoldsWith(eqs: Equations, m: Variable, s: Valuation)
    requires m in eqs
    ensures Holds(eqs, s) <==> Holds(eqs - {m}, s) && Eval(eqs[m], s) == 0.0
  {
    hide Eval;
    var rest := eqs - {m};
    assert forall k <- rest :: rest[k] == eqs[k];
    assert forall k <- eqs :: k == m || k in rest;
  }

  /** A basic variable that completes a solution has its row's value. */
  lemma SatBasicIs(rows: Rows, m: Variable, s: Valuation, x: real)
    requires Solved(rows) && m in rows && Sat(rows, Update(s, m, x))
    ensures x == Eval(rows[m], s)
  {
    EvalUpdateAbsent(rows[m], s, m, x);
  }

  lemma Solution(e: Expr, s: Valuation, m: Variable) returns (x: real)
    requires Coef(e, m) != 0.0
    ensures Eval(e, Update(s, m, x)) == 0.0
  {
    hide Eval;
    var c := Coef(e, m);
    var d := Eval(e, s) / c;
    assert c * d == Eval(e, s);
    x := s(m) - d;
    EvalUpdate(e, s, m, x);
  }

  lemma DropColumnMeaning(rows: Rows, v: Variable, after: Rows, s: Valuation)
    requires v !in rows && after.Keys == rows.Keys
    requires forall r <- rows :: after[r] == Without(rows[r], v)
    ensures Sat(after, s) <==> Sat(rows, Update(s, v, 0.0))
  {
    hide Eval;
    forall r <- rows ensures Eval(after[r], s) == Eval(rows[r], Update(s, v, 0.0)) {
      EvalWithout(rows[r], v, s);
      EvalUpdate(rows[r], s, v, 0.0);
      MulSign(Coef(rows[r], v), s(v));
    }
  }

  /** A variable the equations and the goal do not mention occurs nowhere in the rows. */
  lemma UnmentionedIsAbsent(rows: Rows, z: Variable, goal: Expr, eqs: Equations, v: Variable)
    requires Solved(rows) && Represents(rows, z, goal, eqs)
    requires !Mentions(eqs, v) && v !in goal.terms && v != z
    ensures v !in rows && forall r <- rows :: v !in rows[r].terms
  {
    hide Eval;
    var s := Extend(rows, Zero());
    ExtendSat(rows, Zero());
    var t := Update(s, v, s(v) + 1.0);
    HoldsUpdate(eqs, s, v, s(v) + 1.0);
    EvalUpdateAbsent(goal, s, v, s(v) + 1.0);
    assert Sat(rows, t);
    if v in rows {
      EvalUpdateAbsent(rows[v], s, v, s(v) + 1.0);
    }
    forall r <- rows ensures v !in rows[r].terms {
      EvalUpdate(rows[r], s, v, s(v) + 1.0);
      MulOne(Coef(rows[r], v), s(v));
      assert t(r) == s(r);
      assert Coef(rows[r], v) == 0.0;
    }
  }

  lemma MulOne(c: real, x: real)
    ensures c * (x + 1.0 - x) == c
  {}

  /** A key is always mentioned by some row other than the objective's, so a live constraint
      can always be taken out. */
  lemma KeyHasRow(rows: Rows, z: Variable, goal: Expr, eqs: Equations, m: Variable)
    requires Solved(rows) && Represents(rows, z, goal, eqs) && Keyed(eqs)
    requires m in eqs && m != z && z in rows && z !in goal.terms && !Mentions(eqs, z)
    ensures m in rows || exists r <- rows :: r != z && m in rows[r].terms
  {
    hide Eval;
    if m !in rows && forall r <- rows :: r != z ==> m !in rows[r].terms {
      var p := Zero();
      var s := Extend(rows, p);
      var t := Extend(rows, Unit(m));
      ExtendSat(rows, p);
      ExtendSat(rows, Unit(m));
      forall r | r in rows && r != z ensures s(r) == t(r) {
        EvalSame(rows[r], p, Unit(m));
      }
      EvalSame(eqs[m], t, Update(s, m, 1.0)) by {
        forall v <- eqs[m].terms ensures t(v) == Update(s, m, 1.0)(v) {
        }
      }
      EvalUpdate(eqs[m], s, m, 1.0);
    }
  }

  // ---- changing the objective

  /** Adding `k * v` to the objective row shifts the value of `z` and nothing else. */
  lemma ObjectiveMeaning(rows: Rows, z: Variable, row: Expr, v: Variable, k: real, s: Valuation)
    requires Solved(rows) && z in rows && v != z && z !in row.terms
    requires Sat(rows - {z}, s) ==> Eval(row, s) == Eval(rows[z], s) + Mul(k, s(v))
    ensures Sat(rows[z := row], s) <==> Sat(rows, Update(s, z, s(z) - Mul(k, s(v))))
  {
    hide Eval;
    var x := s(z) - Mul(k, s(v));
    var t := Update(s, z, x);
    var after := rows[z := row];
    forall r <- rows ensures Eval(rows[r], t) == Eval(rows[r], s) {
      EvalUpdateAbsent(rows[r], s, z, x);
    }
    assert forall r <- rows :: r != z ==> after[r] == rows[r] && t(r) == s(r);
    if Sat(after, s) {
      forall r | r in rows && r != z ensures s(r) == Eval(rows[r], s) {
        assert s(r) == Eval(after[r], s);
      }
      assert s(z) == Eval(after[z], s);
    }
    if Sat(rows, t) {
      forall r | r in rows && r != z ensures s(r) == Eval(rows[r], s) {
        assert t(r) == Eval(rows[r], t);
      }
      assert t(z) == Eval(rows[z], t);
    }
  }

  lemma ObjectiveRepresents(rows: Rows, z: Variable, row: Expr, v: Variable, k: real,
                            goal: Expr, after: Expr, eqs: Equations)
    requires Solved(rows) && z in rows && v != z && z !in row.terms && Represents(rows, z, goal, eqs)
    requires z !in goal.terms && !Mentions(eqs, z)
    requires forall s: Valuation :: Sat(rows - {z}, s) ==> Eval(row, s) == Eval(rows[z], s) + Mul(k, s(v))
    requires forall s: Valuation :: Eval(after, s) == Eval(goal, s) + Mul(k, s(v))
    ensures Represents(rows[z := row], z, after, eqs)
  {
    hide Eval;
    hide Sat;
    hide Mul;
    forall s: Valuation
      ensures Sat(rows[z := row], s) <==> Holds(eqs, s) && s(z) == Eval(after, s)
    {
      var x := s(z) - Mul(k, s(v));
      ObjectiveMeaning(rows, z, row, v, k, s);
      HoldsUpdate(eqs, s, z, x);
      EvalUpdateAbsent(goal, s, z, x);
    }
  }

  /** Solutions of two tables that differ in the objective row alone differ in `z` alone. */
  lemma ObjectiveTransfer(rows: Rows, after: Rows, z: Variable, s: Valuation)
    requires Solved(rows) && z in rows && after.Keys == rows.Keys
    requires forall r <- rows :: r != z ==> after[r] == rows[r]
    requires Sat(after, s)
    ensures Sat(rows, Update(s, z, Eval(rows[z], s)))
  {
    hide Eval;
    var x := Eval(rows[z], s);
    forall r <- rows ensures Update(s, z, x)(r) == Eval(rows[r], Update(s, z, x)) {
      EvalUpdateAbsent(rows[r], s, z, x);
      assert s(r) == Eval(after[r], s);
    }
  }
}
