/** The row operations of the simplex tableau, as functions on values, and what they mean.
    A table of rows reads as the equations `subject == expression`. */
module RowAlgebra {
  import opened Variables
  import opened LinearAlgebra

  type Rows = map<Variable, Expr>

  function Scale(e: Expr, k: real): Expr {
    Expr(map v | v in e.terms :: e.terms[v] * k, e.constant * k)
  }

  function Without(e: Expr, v: Variable): Expr {
    Expr(e.terms - {v}, e.constant)
  }

  /** Setting a coefficient; a zero coefficient is ignored, whatever the old one was. */
  function With(e: Expr, v: Variable, k: real): Expr {
    if k == 0.0 then e else Expr(e.terms[v := k], e.constant)
  }

  /** `0 == e` solved for `subject`. */
  function NewSubject(e: Expr, subject: Variable): Expr
    requires Coef(e, subject) != 0.0
  {
    Without(Scale(e, -(1.0 / Coef(e, subject))), subject)
  }

  /** `existing == e` solved for `subject`. */
  function ChangeSubject(e: Expr, existing: Variable, subject: Variable): Expr
    requires Coef(e, subject) != 0.0
  {
    With(NewSubject(e, subject), existing, 1.0 / Coef(e, subject))
  }

  function SubstitutedCoef(row: Expr, v: Variable, e: Expr, t: Variable): real {
    (if t == v then 0.0 else Coef(row, t)) + Coef(row, v) * Coef(e, t)
  }

  /** `row` with `v` replaced by `e`; terms that cancel are dropped. */
  function Substitute(row: Expr, v: Variable, e: Expr): Expr {
    if v !in row.terms then row
    else
      Expr(map t | t in (row.terms.Keys - {v}) + e.terms.Keys && SubstitutedCoef(row, v, e, t) != 0.0 ::
             SubstitutedCoef(row, v, e, t),
           row.constant + Coef(row, v) * e.constant)
  }

  function SubstituteAll(rows: Rows, v: Variable, e: Expr): Rows {
    map r | r in rows :: Substitute(rows[r], v, e)
  }

  /** The exchange step: `entry` takes the place of `exit` among the subjects. */
  function Pivot(rows: Rows, entry: Variable, exit: Variable): Rows
    requires exit in rows && Coef(rows[exit], entry) != 0.0
  {
    var e := ChangeSubject(rows[exit], exit, entry);
    SubstituteAll(rows - {exit}, entry, e)[entry := e]
  }

  /** Every subject is absent from every right-hand side, and no zero coefficient is stored. */
  ghost predicate Solved(rows: Rows) {
    && (forall r <- rows :: ZeroFree(rows[r]))
    && (forall r <- rows, v <- rows :: v !in rows[r].terms)
  }

  /** The valuation satisfies every row. */
  ghost predicate Sat(rows: Rows, s: Valuation) {
    forall r <- rows :: s(r) == Eval(rows[r], s)
  }

  // ---- what one operation does to the value of an expression

  lemma EvalWithout(e: Expr, v: Variable, s: Valuation)
    ensures Eval(Without(e, v), s) == Eval(e, s) - Coef(e, v) * s(v)
  {
    hide Dot;
    var S := e.terms.Keys + {v};
    DotWiden(e.terms.Keys, S, e, s);
    DotRemove(S, e, s, v);
    var w := Without(e, v);
    DotWiden(w.terms.Keys, S - {v}, w, s);
    DotAgree(S - {v}, w, e, s);
  }

  lemma {:induction false} DotAgree(S: set<Variable>, d: Expr, e: Expr, s: Valuation)
    requires forall v <- S :: Coef(d, v) == Coef(e, v)
    ensures Dot(S, d, s) == Dot(S, e, s)
    decreases |S|
  {
    hide Mul;
    if S != {} {
      DotAgree(S - {Pick(S)}, d, e, s);
    }
  }

  lemma EvalWith(e: Expr, v: Variable, k: real, s: Valuation)
    requires v !in e.terms
    ensures Eval(With(e, v, k), s) == Eval(e, s) + k * s(v)
  {
    if k != 0.0 {
      var w := With(e, v, k);
      EvalWithout(w, v, s);
      assert Without(w, v).terms == e.terms;
    }
  }

  lemma SubstituteCoefs(row: Expr, v: Variable, e: Expr)
    requires ZeroFree(row) && v in row.terms
    ensures ZeroFree(Substitute(row, v, e))
    ensures forall t :: Coef(Substitute(row, v, e), t) == SubstitutedCoef(row, v, e, t)
  {
    forall t ensures Coef(Substitute(row, v, e), t) == SubstitutedCoef(row, v, e, t) {
      if t !in (row.terms.Keys - {v}) + e.terms.Keys {
        MulZero(Coef(row, v));
      }
    }
  }

  /** Substituting changes the value by the coefficient times how far `v` is from `e`. */
  lemma EvalSubstitute(row: Expr, v: Variable, e: Expr, s: Valuation)
    requires ZeroFree(row)
    ensures Eval(Substitute(row, v, e), s) == Eval(row, s) + Coef(row, v) * (Eval(e, s) - s(v))
  {
    if v in row.terms {
      SubstituteIsSum(row, v, e);
      SubstituteArithmetic(row, v, e, s);
    }
  }

  lemma SubstituteIsSum(row: Expr, v: Variable, e: Expr)
    requires ZeroFree(row) && v in row.terms
    ensures var k := Coef(row, v); var c, d, f := Without(row, v), Scale(e, k), Substitute(row, v, e);
            && (forall t :: Coef(f, t) == Coef(c, t) + Coef(d, t))
            && f.constant == c.constant + d.constant
  {
    SubstituteCoefs(row, v, e);
  }

  lemma SubstituteArithmetic(row: Expr, v: Variable, e: Expr, s: Valuation)
    requires ZeroFree(row) && v in row.terms
    requires var k := Coef(row, v); var c, d, f := Without(row, v), Scale(e, k), Substitute(row, v, e);
             && (forall t :: Coef(f, t) == Coef(c, t) + Coef(d, t))
             && f.constant == c.constant + d.constant
    ensures Eval(Substitute(row, v, e), s) == Eval(row, s) + Coef(row, v) * (Eval(e, s) - s(v))
  {
    hide Eval;
    hide Substitute;
    var k := Coef(row, v);
    var d := Scale(e, k);
    EvalSum(Without(row, v), d, Substitute(row, v, e), s);
    EvalWithout(row, v, s);
    EvalScale(k, e, d, s);
    MulSum(Eval(e, s), -s(v), k);
  }

  /** After a change of subject the new equation is off by a fixed multiple of the old one. */
  lemma EvalChangeSubject(e: Expr, existing: Variable, subject: Variable, s: Valuation)
    requires Coef(e, subject) != 0.0 && existing !in e.terms
    ensures Coef(e, subject) * (Eval(ChangeSubject(e, existing, subject), s) - s(subject))
         == s(existing) - Eval(e, s)
  {
    hide Dot;
    var c := Coef(e, subject);
    var k := 1.0 / c;
    var scaled := Scale(e, -k);
    EvalScale(-k, e, scaled, s);
    EvalWithout(scaled, subject, s);
    EvalWith(NewSubject(e, subject), existing, k, s);
    ChangeSubjectArithmetic(c, k, Eval(e, s), s(subject), s(existing));
  }

  lemma ChangeSubjectArithmetic(c: real, k: real, e: real, x: real, y: real)
    requires c != 0.0 && k == 1.0 / c
    ensures c * (((-k) * e - (c * (-k)) * x + k * y) - x) == y - e
  {
    assert c * k == 1.0;
    calc {
      c * (((-k) * e - (c * (-k)) * x + k * y) - x);
      c * ((-k) * e + x + k * y - x);
      c * (k * y - k * e);
      c * (k * (y - e));
      (c * k) * (y - e);
    }
  }

  // ---- pivoting

  lemma ChangeSubjectSolved(e: Expr, existing: Variable, subject: Variable)
    requires ZeroFree(e) && subject in e.terms && existing !in e.terms
    ensures ZeroFree(ChangeSubject(e, existing, subject))
    ensures ChangeSubject(e, existing, subject).terms.Keys == e.terms.Keys - {subject} + {existing}
    ensures Coef(ChangeSubject(e, existing, subject), existing) == 1.0 / Coef(e, subject)
  {
    var k := 1.0 / Coef(e, subject);
    assert k * Coef(e, subject) == 1.0;
    forall v <- e.terms ensures e.terms[v] * -k != 0.0 {
      NonZeroProduct(e.terms[v], -k);
    }
  }

  lemma NonZeroProduct(a: real, b: real)
    requires a != 0.0 && b != 0.0
    ensures a * b != 0.0
  {}

  /** Pivoting keeps the table solved and swaps the two variables between the sides. */
  lemma PivotSolved(rows: Rows, entry: Variable, exit: Variable)
    requires Solved(rows) && exit in rows && entry in rows[exit].terms
    ensures Solved(Pivot(rows, entry, exit))
    ensures Pivot(rows, entry, exit).Keys == rows.Keys - {exit} + {entry}
    ensures entry in Pivot(rows, entry, exit) && exit in Pivot(rows, entry, exit)[entry].terms
  {
    var e := ChangeSubject(rows[exit], exit, entry);
    ChangeSubjectSolved(rows[exit], exit, entry);
    var after := Pivot(rows, entry, exit);
    forall r <- after ensures ZeroFree(after[r]) && (forall v <- after :: v !in after[r].terms) {
      if r != entry && entry in rows[r].terms {
        SubstituteCoefs(rows[r], entry, e);
      }
    }
  }

  /** The two forms of one equation hold under the same valuations. */
  lemma ChangeSubjectEquation(e: Expr, existing: Variable, subject: Variable, s: Valuation)
    requires Coef(e, subject) != 0.0 && existing !in e.terms
    ensures s(subject) == Eval(ChangeSubject(e, existing, subject), s) <==> s(existing) == Eval(e, s)
  {
    hide Eval;
    EvalChangeSubject(e, existing, subject, s);
    var gap := Eval(ChangeSubject(e, existing, subject), s) - s(subject);
    if gap != 0.0 {
      NonZeroProduct(Coef(e, subject), gap);
    } else {
      MulZero(Coef(e, subject));
    }
  }

  /** Substituting equals for equals keeps the value. */
  lemma SubstituteEqual(row: Expr, v: Variable, e: Expr, s: Valuation)
    requires ZeroFree(row) && s(v) == Eval(e, s)
    ensures Eval(Substitute(row, v, e), s) == Eval(row, s)
  {
    hide Eval;
    hide Substitute;
    EvalSubstitute(row, v, e, s);
    MulZero(Coef(row, v));
    assert Eval(e, s) - s(v) == 0.0;
  }

  /** Pivoting does not change which valuations satisfy the rows. */
  lemma PivotMeaning(rows: Rows, entry: Variable, exit: Variable, s: Valuation)
    requires Solved(rows) && exit in rows && entry in rows[exit].terms
    ensures Sat(Pivot(rows, entry, exit), s) <==> Sat(rows, s)
  {
    hide Eval;
    hide ChangeSubject;
    var e := ChangeSubject(rows[exit], exit, entry);
    var after := Pivot(rows, entry, exit);
    assert after.Keys == rows.Keys - {exit} + {entry};
    ChangeSubjectEquation(rows[exit], exit, entry, s);
    if s(entry) == Eval(e, s) {
      forall r | r in rows && r != exit ensures Eval(after[r], s) == Eval(rows[r], s) {
        assert after[r] == Substitute(rows[r], entry, e);
        SubstituteEqual(rows[r], entry, e, s);
      }
    }
    assert after[entry] == e;
    assert forall r :: r in after && r != entry <==> r in rows && r != exit;
  }

  // ---- a table is determined by its subjects and its meaning

  /** Parameters as in `p`, subjects computed from their rows. */
  ghost function Extend(rows: Rows, p: Valuation): Valuation {
    u => if u in rows then Eval(rows[u], p) else p(u)
  }

  lemma ExtendSat(rows: Rows, p: Valuation)
    requires Solved(rows)
    ensures Sat(rows, Extend(rows, p))
  {
    forall r <- rows ensures Extend(rows, p)(r) == Eval(rows[r], Extend(rows, p)) {
      EvalSame(rows[r], p, Extend(rows, p));
    }
  }

  ghost function Zero(): Valuation { v => 0.0 }

  ghost function Unit(u: Variable): Valuation { v => if v == u then 1.0 else 0.0 }

  lemma EvalAtUnit(e: Expr, u: Variable)
    ensures Eval(e, Unit(u)) == e.constant + Coef(e, u)
  {
    hide Dot;
    EvalAtZero(e, Zero());
    EvalUpdate(e, Zero(), u, 1.0);
    EvalSame(e, Unit(u), Update(Zero(), u, 1.0));
  }

  lemma SameValues(d: Expr, e: Expr)
    requires ZeroFree(d) && ZeroFree(e)
    requires forall p: Valuation :: Eval(d, p) == Eval(e, p)
    ensures d == e
  {
    hide Eval;
    EvalAtZero(d, Zero());
    EvalAtZero(e, Zero());
    assert Eval(d, Zero()) == Eval(e, Zero());
    forall v ensures Coef(d, v) == Coef(e, v) {
      EvalAtUnit(d, v);
      EvalAtUnit(e, v);
      assert Eval(d, Unit(v)) == Eval(e, Unit(v));
    }
    ExprExtensional(d, e);
  }

  /** Two solved tables with the same subjects and the same satisfying valuations are the
      same table, term by term. */
  lemma SameBasisSameRows(a: Rows, b: Rows)
    requires Solved(a) && Solved(b) && a.Keys == b.Keys
    requires forall s: Valuation :: Sat(a, s) <==> Sat(b, s)
    ensures a == b
  {
    hide Eval;
    forall r <- a ensures a[r] == b[r] {
      forall p: Valuation ensures Eval(a[r], p) == Eval(b[r], p) {
        ExtendSat(a, p);
        var s := Extend(a, p);
        assert Sat(b, s);
        EvalSame(b[r], p, s);
      }
      SameValues(a[r], b[r]);
    }
  }

  /** Exchanging back restores every term and every constant. */
  lemma PivotInverse(rows: Rows, entry: Variable, exit: Variable)
    requires Solved(rows) && exit in rows && entry in rows[exit].terms
    ensures var after := Pivot(rows, entry, exit);
            && entry in after && Coef(after[entry], exit) != 0.0
            && Pivot(after, exit, entry) == rows
  {
    var after := Pivot(rows, entry, exit);
    PivotSolved(rows, entry, exit);
    PivotSolved(after, exit, entry);
    var back := Pivot(after, exit, entry);
    assert entry !in rows;
    assert back.Keys == rows.Keys;
    forall s: Valuation ensures Sat(back, s) <==> Sat(rows, s) {
      PivotMeaning(rows, entry, exit, s);
      PivotMeaning(after, exit, entry, s);
    }
    SameBasisSameRows(back, rows);
  }

  /** The single-equation form: changing the subject from `a` to `b` and back. */
  lemma ChangeSubjectInverse(e: Expr, a: Variable, b: Variable)
    requires ZeroFree(e) && a !in e.terms && b in e.terms
    ensures var f := ChangeSubject(e, a, b);
            && Coef(f, a) != 0.0
            && ChangeSubject(f, b, a) == e
  {
    var rows: Rows := map[a := e];
    var after := Pivot(rows, b, a);
    PivotInverse(rows, b, a);
    assert after[b] == ChangeSubject(e, a, b);
    assert Pivot(after, a, b)[a] == ChangeSubject(after[b], b, a);
  }

  // ---- whole runs

  datatype Exchange = Exchange(entry: Variable, exit: Variable)

  ghost predicate CanRun(rows: Rows, run: seq<Exchange>)
    decreases |run|
  {
    run == [] ||
    (&& run[0].exit in rows && run[0].entry in rows[run[0].exit].terms
     && Coef(rows[run[0].exit], run[0].entry) != 0.0
     && CanRun(Pivot(rows, run[0].entry, run[0].exit), run[1..]))
  }

  ghost function Run(rows: Rows, run: seq<Exchange>): Rows
    requires CanRun(rows, run)
    decreases |run|
  {
    if run == [] then rows else Run(Pivot(rows, run[0].entry, run[0].exit), run[1..])
  }

  lemma {:induction false} RunMeaning(rows: Rows, run: seq<Exchange>, s: Valuation)
    requires Solved(rows) && CanRun(rows, run)
    ensures Solved(Run(rows, run))
    ensures Sat(Run(rows, run), s) <==> Sat(rows, s)
    decreases |run|
  {
    hide Sat;
    if run != [] {
      PivotSolved(rows, run[0].entry, run[0].exit);
      PivotMeaning(rows, run[0].entry, run[0].exit, s);
      RunMeaning(Pivot(rows, run[0].entry, run[0].exit), run[1..], s);
    }
  }

  /** The order and choice of pivots does not matter: runs that end with the same subjects
      end with the same table. */
  lemma RunsMeet(rows: Rows, run: seq<Exchange>, other: seq<Exchange>)
    requires Solved(rows) && CanRun(rows, run) && CanRun(rows, other)
    requires Run(rows, run).Keys == Run(rows, other).Keys
    ensures Run(rows, run) == Run(rows, other)
  {
    forall s: Valuation ensures Sat(Run(rows, run), s) <==> Sat(Run(rows, other), s) {
      RunMeaning(rows, run, s);
      RunMeaning(rows, other, s);
    }
    RunMeaning(rows, run, Zero());
    RunMeaning(rows, other, Zero());
    SameBasisSameRows(Run(rows, run), Run(rows, other));
  }
}
