/** When two linear expressions compare with zero alike: exactly when one is a multiple of the
    other. */
module Comparisons {
  import opened Variables
  import opened LinearAlgebra
  import opened RowAlgebra

  ghost predicate Multiple(e: Expr, d: Expr, k: real) {
    e.constant == k * d.constant && forall v :: Coef(e, v) == k * Coef(d, v)
  }

  lemma MultipleAt(e: Expr, d: Expr, k: real, v: Variable)
    requires Multiple(e, d, k)
    ensures Coef(e, v) == k * Coef(d, v) && e.constant == k * d.constant
  {}

  function Added(d: Expr, e: Expr): Expr {
    Expr(map v | v in d.terms.Keys + e.terms.Keys :: Coef(d, v) + Coef(e, v), d.constant + e.constant)
  }

  lemma EvalAdded(d: Expr, e: Expr, s: Valuation)
    ensures Eval(Added(d, e), s) == Eval(d, s) + Eval(e, s)
  {
    EvalSum(d, e, Added(d, e), s);
  }

  lemma AddedCoefs(d: Expr, e: Expr)
    ensures Added(d, e).constant == d.constant + e.constant
    ensures forall v :: Coef(Added(d, e), v) == Coef(d, v) + Coef(e, v)
  {}

  /** Solving for `v` shows the two expressions aligned. */
  lemma Aligned(e: Expr, d: Expr, v: Variable, p: Valuation)
    requires Coef(e, v) != 0.0
    requires forall s: Valuation :: Eval(e, s) == 0.0 ==> Eval(d, s) == 0.0
    ensures Coef(e, v) * Eval(d, p) == Coef(d, v) * Eval(e, p)
  {
    hide Eval;
    var c, x := Coef(e, v), Eval(e, p);
    var t := x / c;
    assert c * t == x;
    EvalUpdate(e, p, v, p(v) - t);
    EvalUpdate(d, p, v, p(v) - t);
    var s := Update(p, v, p(v) - t);
    assert p(v) - t - p(v) == -t;
    assert Eval(e, s) == x + c * -t;
    assert Eval(d, s) == Eval(d, p) + Coef(d, v) * -t;
    Cross(c, Coef(d, v), t, x, Eval(d, p));
  }

  lemma Cross(c: real, b: real, t: real, x: real, y: real)
    requires c * t == x && y + b * -t == 0.0
    ensures c * y == b * x
    ensures x + c * -t == 0.0
  {}

  lemma AlignedMultiple(e: Expr, d: Expr, v: Variable) returns (k: real)
    requires Coef(e, v) != 0.0 && Coef(d, v) != 0.0
    requires forall s: Valuation :: Eval(e, s) == 0.0 ==> Eval(d, s) == 0.0
    ensures k == Coef(e, v) / Coef(d, v) && k != 0.0 && Multiple(e, d, k)
  {
    hide Eval;
    var a, b := Coef(e, v), Coef(d, v);
    k := a / b;
    assert k * b == a;
    forall p: Valuation ensures Eval(e, p) == k * Eval(d, p) {
      Aligned(e, d, v, p);
      Divided(a, b, k, Eval(d, p), Eval(e, p));
    }
    EvalAtZero(e, Zero());
    EvalAtZero(d, Zero());
    forall u ensures Coef(e, u) == k * Coef(d, u) {
      EvalAtUnit(e, u);
      EvalAtUnit(d, u);
      assert Eval(e, Unit(u)) == k * Eval(d, Unit(u));
    }
  }

  lemma Divided(a: real, b: real, k: real, y: real, x: real)
    requires b != 0.0 && k * b == a && a * y == b * x
    ensures x == k * y
  {
    assert b * (k * y) == a * y;
    assert b * (x - k * y) == 0.0;
  }

  /** Equal zeros. */
  lemma ZerosMultiple(e: Expr, d: Expr, v: Variable) returns (k: real)
    requires Coef(e, v) != 0.0
    requires forall s: Valuation :: Eval(e, s) == 0.0 <==> Eval(d, s) == 0.0
    ensures k != 0.0 && Multiple(e, d, k)
  {
    hide Eval;
    assert Coef(d, v) != 0.0 by {
      if Coef(d, v) == 0.0 {
        forall p: Valuation ensures Eval(e, p) == 0.0 {
          Aligned(e, d, v, p);
          NonZeroProductIs(Coef(e, v), Eval(d, p));
        }
        EvalAtZero(e, Zero());
        EvalAtUnit(e, v);
      }
    }
    k := AlignedMultiple(e, d, v);
  }

  /** Equal half-spaces. */
  lemma SignsMultiple(e: Expr, d: Expr, v: Variable) returns (k: real)
    requires Coef(e, v) != 0.0
    requires forall s: Valuation :: Eval(e, s) >= 0.0 <==> Eval(d, s) >= 0.0
    ensures k > 0.0 && Multiple(e, d, k)
  {
    hide Eval;
    var a, b := Coef(e, v), Coef(d, v);
    forall p: Valuation | Eval(e, p) == 0.0 ensures Eval(d, p) == 0.0 && b != 0.0 && a / b > 0.0 {
      Boundary(e, d, v, p);
    }
    EvalAtZero(e, Zero());
    var x := -e.constant / a;
    EvalUpdate(e, Zero(), v, x);
    assert Eval(e, Update(Zero(), v, x)) == 0.0;
    k := AlignedMultiple(e, d, v);
  }

  /** Along `v`, from a point where `e` is zero. */
  lemma Boundary(e: Expr, d: Expr, v: Variable, p: Valuation)
    requires Coef(e, v) != 0.0 && Eval(e, p) == 0.0
    requires forall s: Valuation :: Eval(e, s) >= 0.0 <==> Eval(d, s) >= 0.0
    ensures Eval(d, p) == 0.0 && Coef(d, v) != 0.0 && Coef(e, v) / Coef(d, v) > 0.0
  {
    hide Eval;
    hide Mul;
    var a, b, y := Coef(e, v), Coef(d, v), Eval(d, p);
    forall t: real ensures Mul(a, t) >= 0.0 <==> y + Mul(b, t) >= 0.0 {
      EvalAlong(e, p, v, t);
      EvalAlong(d, p, v, t);
    }
    SameRay(a, b, y);
  }

  lemma EvalAlong(e: Expr, p: Valuation, v: Variable, t: real)
    ensures Eval(e, Update(p, v, p(v) + t)) == Eval(e, p) + Mul(Coef(e, v), t)
  {
    hide Eval;
    EvalUpdate(e, p, v, p(v) + t);
    assert p(v) + t - p(v) == t;
  }

  lemma Product(a: real, b: real)
    ensures Mul(a, b) == a * b
  {}

  lemma NonZeroProductIs(a: real, b: real)
    requires a != 0.0 && a * b == 0.0
    ensures b == 0.0
  {}

  lemma SameRay(a: real, b: real, y: real)
    requires a != 0.0 && forall t: real :: Mul(a, t) >= 0.0 <==> y + Mul(b, t) >= 0.0
    ensures y == 0.0 && b != 0.0 && a / b > 0.0
  {
    var t := -1.0 / a;
    assert a * t == -1.0;
    assert Mul(a, 0.0) == 0.0 && Mul(b, 0.0) == 0.0;
    assert Mul(a, t) == -1.0;
    assert y >= 0.0 && b * t < 0.0;
    var q := a / b;
    assert q * b == a;
    assert q * (b * t) == a * t;
    Signs(q, b * t);
    if y > 0.0 {
      var u := -y / (2.0 * b);
      assert b * u == -y / 2.0;
      assert a * u == q * (b * u);
      assert Mul(b, u) == -y / 2.0;
      Signs(q, b * u);
    }
  }

  lemma Signs(a: real, b: real)
    ensures a > 0.0 && b < 0.0 ==> a * b < 0.0
    ensures a <= 0.0 && b < 0.0 ==> a * b >= 0.0
    ensures a > 0.0 && b > 0.0 ==> a * b > 0.0
    ensures a <= 0.0 && b > 0.0 ==> a * b <= 0.0
  {}
}
