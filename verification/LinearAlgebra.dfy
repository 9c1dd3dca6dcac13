/** Linear expressions as values: a constant plus a finite map of coefficients, and the
    value such an expression takes under a valuation. */
module LinearAlgebra {
  import opened Variables

  datatype Expr = Expr(terms: map<Variable, real>, constant: real)

  function Coef(e: Expr, v: Variable): real {
    if v in e.terms then e.terms[v] else 0.0
  }

  predicate ZeroFree(e: Expr) {
    forall v <- e.terms :: e.terms[v] != 0.0
  }

  /** The product, under a name: sums of coefficient times value are manipulated through
      the laws below, with the multiplication itself hidden from the prover. */
  ghost function Mul(a: real, b: real): real { a * b }

  lemma MulSum(a: real, b: real, x: real)
    ensures Mul(a + b, x) == Mul(a, x) + Mul(b, x)
    ensures Mul(x, a + b) == Mul(x, a) + Mul(x, b)
  {}

  lemma MulAssoc(k: real, a: real, x: real)
    ensures Mul(k * a, x) == Mul(k, Mul(a, x))
  {
    assert (k * a) * x == k * (a * x);
  }

  lemma MulZero(a: real)
    ensures Mul(a, 0.0) == 0.0 && Mul(0.0, a) == 0.0
  {}

  ghost function Pick(S: set<Variable>): Variable
    requires S != {}
  {
    var v :| v in S; v
  }

  /** The sum of coefficient times value over the variables of `S`. */
  ghost function Dot(S: set<Variable>, e: Expr, s: Valuation): real {
    if S == {} then 0.0
    else var v := Pick(S); Mul(Coef(e, v), s(v)) + Dot(S - {v}, e, s)
  }

  ghost function Eval(e: Expr, s: Valuation): real {
    e.constant + Dot(e.terms.Keys, e, s)
  }

  lemma {:induction false} DotRemove(S: set<Variable>, e: Expr, s: Valuation, v: Variable)
    requires v in S
    ensures Dot(S, e, s) == Mul(Coef(e, v), s(v)) + Dot(S - {v}, e, s)
    decreases |S|
  {
    hide Mul;
    var u := Pick(S);
    if u != v {
      DotRemove(S - {u}, e, s, v);
      DotRemove(S - {v}, e, s, u);
      assert S - {u} - {v} == S - {v} - {u};
    }
  }

  lemma {:induction false} DotWiden(S: set<Variable>, T: set<Variable>, e: Expr, s: Valuation)
    requires S <= T
    requires forall v <- T - S :: Coef(e, v) == 0.0
    ensures Dot(S, e, s) == Dot(T, e, s)
    decreases |T - S|
  {
    hide Mul;
    if T - S == {} {
      assert S == T;
    } else {
      var v := Pick(T - S);
      MulZero(s(v));
      DotRemove(T, e, s, v);
      assert (T - {v}) - S == (T - S) - {v};
      DotWiden(S, T - {v}, e, s);
    }
  }

  lemma {:induction false} DotScale(S: set<Variable>, k: real, d: Expr, e: Expr, s: Valuation)
    requires forall v <- S :: Coef(e, v) == k * Coef(d, v)
    ensures Dot(S, e, s) == Mul(k, Dot(S, d, s))
    decreases |S|
  {
    hide Mul;
    if S == {} {
      MulZero(k);
    } else {
      var v := Pick(S);
      DotScale(S - {v}, k, d, e, s);
      var c, x, r := Coef(d, v), s(v), Dot(S - {v}, d, s);
      assert Coef(e, v) == k * c;
      MulAssoc(k, c, x);
      MulSum(Mul(c, x), r, k);
    }
  }

  lemma {:induction false} DotSum(S: set<Variable>, c: Expr, d: Expr, e: Expr, s: Valuation)
    requires forall v <- S :: Coef(e, v) == Coef(c, v) + Coef(d, v)
    ensures Dot(S, e, s) == Dot(S, c, s) + Dot(S, d, s)
    decreases |S|
  {
    hide Mul;
    if S != {} {
      var v := Pick(S);
      DotSum(S - {v}, c, d, e, s);
      MulSum(Coef(c, v), Coef(d, v), s(v));
    }
  }

  lemma {:induction false} DotSame(S: set<Variable>, e: Expr, s: Valuation, t: Valuation)
    requires forall v <- S :: s(v) == t(v)
    ensures Dot(S, e, s) == Dot(S, e, t)
    decreases |S|
  {
    hide Mul;
    if S != {} {
      DotSame(S - {Pick(S)}, e, s, t);
    }
  }

  lemma {:induction false} DotZero(S: set<Variable>, e: Expr, s: Valuation)
    requires forall v <- S :: s(v) == 0.0
    ensures Dot(S, e, s) == 0.0
    decreases |S|
  {
    hide Mul;
    if S != {} {
      MulZero(Coef(e, Pick(S)));
      DotZero(S - {Pick(S)}, e, s);
    }
  }

  /** Scaling every coefficient and the constant scales the value. */
  lemma EvalScale(k: real, d: Expr, e: Expr, s: Valuation)
    requires forall v :: Coef(e, v) == k * Coef(d, v)
    requires e.constant == k * d.constant
    ensures Eval(e, s) == k * Eval(d, s)
  {
    hide Dot;
    var S := d.terms.Keys + e.terms.Keys;
    DotWiden(d.terms.Keys, S, d, s);
    DotWiden(e.terms.Keys, S, e, s);
    DotScale(S, k, d, e, s);
    MulSum(d.constant, Dot(S, d, s), k);
  }

  /** Adding coefficients and constants adds the values. */
  lemma EvalSum(c: Expr, d: Expr, e: Expr, s: Valuation)
    requires forall v :: Coef(e, v) == Coef(c, v) + Coef(d, v)
    requires e.constant == c.constant + d.constant
    ensures Eval(e, s) == Eval(c, s) + Eval(d, s)
  {
    var S := c.terms.Keys + d.terms.Keys + e.terms.Keys;
    DotWiden(c.terms.Keys, S, c, s);
    DotWiden(d.terms.Keys, S, d, s);
    DotWiden(e.terms.Keys, S, e, s);
    DotSum(S, c, d, e, s);
  }

  lemma EvalSame(e: Expr, s: Valuation, t: Valuation)
    requires forall v <- e.terms :: s(v) == t(v)
    ensures Eval(e, s) == Eval(e, t)
  {
    DotSame(e.terms.Keys, e, s, t);
  }

  /** Changing one variable moves the value by the coefficient times the change. */
  lemma EvalUpdate(e: Expr, s: Valuation, v: Variable, x: real)
    ensures Eval(e, Update(s, v, x)) == Eval(e, s) + Coef(e, v) * (x - s(v))
  {
    hide Dot;
    var S := e.terms.Keys + {v};
    var t := Update(s, v, x);
    DotWiden(e.terms.Keys, S, e, s);
    DotWiden(e.terms.Keys, S, e, t);
    DotRemove(S, e, s, v);
    DotRemove(S, e, t, v);
    DotSame(S - {v}, e, s, t);
    MulSum(x - s(v), s(v), Coef(e, v));
  }

  lemma EvalAtZero(e: Expr, s: Valuation)
    requires forall v <- e.terms :: s(v) == 0.0
    ensures Eval(e, s) == e.constant
  {
    DotZero(e.terms.Keys, e, s);
  }

  /** Two zero-free expressions over the same variables with equal coefficients are equal. */
  lemma ExprExtensional(d: Expr, e: Expr)
    requires ZeroFree(d) && ZeroFree(e)
    requires d.constant == e.constant
    requires forall v :: Coef(d, v) == Coef(e, v)
    ensures d == e
  {
    forall v ensures v in d.terms <==> v in e.terms {
      assert Coef(d, v) == Coef(e, v);
    }
    assert d.terms.Keys == e.terms.Keys;
    forall v | v in d.terms ensures d.terms[v] == e.terms[v] {
      assert Coef(d, v) == Coef(e, v);
    }
    assert d.terms == e.terms;
  }
}
