/** Constraints and the factories that bring `lhs op rhs` to one side
    (Source/GSCSConstraint.m, Source/GSCSStrength.m). */
module Constraints {
  import opened Options
  import opened Variables
  import opened LinearAlgebra
  import opened RowAlgebra
  import opened Expressions
  import opened Comparisons

  datatype ConstraintType = Edit | Stay | Linear | LinearInequity

  datatype Operator = Equal | GreaterThanOrEqual | LessThanOrEqual

  const REQUIRED := 1000.0
  const STRONG := 750.0

  /** `id` is the identity of the constraint object. */
  datatype Constraint = Constraint(id: nat, kind: ConstraintType, strength: real, expression: Expr,
                                   variable: Option<Variable>) {
    predicate IsRequired() { strength == REQUIRED }

    predicate IsInequality() { kind.LinearInequity? }

    /** An inequality says the expression is not negative, every other kind that it is zero. */
    ghost predicate SatisfiedBy(s: Valuation) {
      if IsInequality() then Eval(expression, s) >= 0.0 else Eval(expression, s) == 0.0
    }
  }

  function KindOf(op: Operator): ConstraintType {
    if op.Equal? then Linear else LinearInequity
  }

  /** `constraintWithLeftExpression:operator:rightExpression:` */
  function FromExpressions(id: nat, lhs: Expr, op: Operator, rhs: Expr): Constraint {
    var expression :=
      match op
      case Equal => Overwritten(rhs, Scale(lhs, -1.0))
      case GreaterThanOrEqual => Overwritten(Scale(rhs, -1.0), Scale(lhs, 1.0))
      case LessThanOrEqual => Overwritten(rhs, Scale(lhs, -1.0));
    Constraint(id, KindOf(op), REQUIRED, expression, None)
  }

  /** `constraintWithLeftVariable:operator:rightVariable:` */
  function FromVariables(id: nat, lhs: Variable, op: Operator, rhs: Variable): Constraint {
    var expression :=
      match op
      case Equal => With(Term(lhs), rhs, -1.0)
      case GreaterThanOrEqual => With(Scale(Term(rhs), -1.0), lhs, 1.0)
      case LessThanOrEqual => With(Term(rhs), lhs, -1.0);
    Constraint(id, KindOf(op), REQUIRED, expression, None)
  }

  /** `initEditConstraintWithVariable:strength:` for a variable with the given value. */
  function ForEditing(id: nat, v: Variable, value: real, strength: real): Constraint {
    Constraint(id, Edit, strength, Expr(map[v := -1.0], value), Some(v))
  }

  function Term(v: Variable): Expr {
    With(Expr(map[], 0.0), v, 1.0)
  }

  ghost predicate Relates(l: real, op: Operator, r: real) {
    match op
    case Equal => l == r
    case GreaterThanOrEqual => l >= r
    case LessThanOrEqual => l <= r
  }

  /** The expression the factory should build, up to its sign: one side minus the other. */
  ghost predicate IsDifference(e: Expr, lhs: Expr, op: Operator, rhs: Expr) {
    forall s: Valuation {:trigger Eval(e, s)} ::
      Eval(e, s) == if op.GreaterThanOrEqual? then Eval(lhs, s) - Eval(rhs, s) else Eval(rhs, s) - Eval(lhs, s)
  }

  lemma {:induction false} OverwrittenCoefs(d: Expr, e: Expr)
    requires ZeroFree(d) && ZeroFree(e)
    ensures forall v :: Coef(Overwritten(d, e), v) == if v in e.terms then Coef(e, v) else Coef(d, v)
  {
    forall v ensures Coef(Overwritten(d, e), v) == if v in e.terms then Coef(e, v) else Coef(d, v) {
      assert v in e.terms ==> e.terms[v] != 0.0;
    }
  }

  /** Overwriting adds the two values up exactly when no variable is shared. */
  lemma OverwrittenIsSum(d: Expr, e: Expr)
    requires ZeroFree(d) && ZeroFree(e)
    ensures (forall s: Valuation :: Eval(Overwritten(d, e), s) == Eval(d, s) + Eval(e, s)) <==>
            d.terms.Keys !! e.terms.Keys
  {
    hide Eval;
    hide Overwritten;
    OverwrittenCoefs(d, e);
    var sum := Overwritten(d, e);
    assert sum.constant == d.constant + e.constant by { OverwrittenConstant(d, e); }
    if d.terms.Keys !! e.terms.Keys {
      forall s: Valuation ensures Eval(sum, s) == Eval(d, s) + Eval(e, s) {
        EvalSum(d, e, sum, s);
      }
    } else {
      var v :| v in d.terms && v in e.terms;
      var s := Unit(v);
      EvalAtUnit(sum, v);
      EvalAtUnit(d, v);
      EvalAtUnit(e, v);
      assert Eval(sum, s) != Eval(d, s) + Eval(e, s);
    }
  }

  lemma OverwrittenConstant(d: Expr, e: Expr)
    ensures Overwritten(d, e).constant == d.constant + e.constant
  {}

  lemma ScaledValue(e: Expr, k: real)
    requires ZeroFree(e) && k != 0.0
    ensures ZeroFree(Scale(e, k)) && Scale(e, k).terms.Keys == e.terms.Keys
    ensures forall s: Valuation :: Eval(Scale(e, k), s) == k * Eval(e, s)
  {
    forall v <- e.terms ensures e.terms[v] * k != 0.0 {
      NonZeroProduct(e.terms[v], k);
    }
    forall s: Valuation ensures Eval(Scale(e, k), s) == k * Eval(e, s) {
      EvalScale(k, e, Scale(e, k), s);
    }
  }

  /** The two operands as the factory adds them: the second overwrites the first. */
  function First(lhs: Expr, op: Operator, rhs: Expr): Expr {
    if op.GreaterThanOrEqual? then Scale(rhs, -1.0) else rhs
  }

  function Second(lhs: Expr, op: Operator, rhs: Expr): Expr {
    if op.GreaterThanOrEqual? then Scale(lhs, 1.0) else Scale(lhs, -1.0)
  }

  /** One operand negated, the other not. */
  ghost predicate Opposed(op: Operator, lhs: real, rhs: real, first: real, second: real) {
    if op.GreaterThanOrEqual? then first == -rhs && second == lhs else first == rhs && second == -lhs
  }

  lemma Operands(lhs: Expr, op: Operator, rhs: Expr)
    requires ZeroFree(lhs) && ZeroFree(rhs)
    ensures var d, f := First(lhs, op, rhs), Second(lhs, op, rhs);
            && ZeroFree(d) && ZeroFree(f) && d.terms.Keys == rhs.terms.Keys && f.terms.Keys == lhs.terms.Keys
            && Opposed(op, lhs.constant, rhs.constant, d.constant, f.constant)
            && (forall v :: Opposed(op, Coef(lhs, v), Coef(rhs, v), Coef(d, v), Coef(f, v)))
            && (forall s: Valuation {:trigger Eval(Added(d, f), s)} ::
                  Eval(Added(d, f), s) == if op.GreaterThanOrEqual? then Eval(lhs, s) - Eval(rhs, s)
                                          else Eval(rhs, s) - Eval(lhs, s))
  {
    hide Eval;
    ScaledValue(lhs, -1.0);
    ScaledValue(lhs, 1.0);
    ScaledValue(rhs, -1.0);
    var d, f := First(lhs, op, rhs), Second(lhs, op, rhs);
    forall s: Valuation {
      EvalAdded(d, f, s);
    }
  }

  /** The expression of the factory is one side minus the other exactly when the two sides
      share no variable; a shared variable loses one of its two coefficients. */
  lemma FromExpressionsDifference(id: nat, lhs: Expr, op: Operator, rhs: Expr)
    requires ZeroFree(lhs) && ZeroFree(rhs)
    ensures IsDifference(FromExpressions(id, lhs, op, rhs).expression, lhs, op, rhs) <==>
      lhs.terms.Keys !! rhs.terms.Keys
  {
    hide Eval;
    hide Overwritten;
    var e := FromExpressions(id, lhs, op, rhs).expression;
    var d, f := First(lhs, op, rhs), Second(lhs, op, rhs);
    Operands(lhs, op, rhs);
    OverwrittenIsSum(d, f);
    forall s: Valuation
      ensures Eval(d, s) + Eval(f, s) ==
              if op.GreaterThanOrEqual? then Eval(lhs, s) - Eval(rhs, s) else Eval(rhs, s) - Eval(lhs, s)
    {
      EvalAdded(d, f, s);
    }
  }

  /** The constraint holds exactly where the relation does. */
  ghost predicate Faithful(id: nat, lhs: Expr, op: Operator, rhs: Expr) {
    forall s: Valuation :: FromExpressions(id, lhs, op, rhs).SatisfiedBy(s) <==> Relates(Eval(lhs, s), op, Eval(rhs, s))
  }

  /** The left side is `q` times the right side, but for the constant, which is the same. */
  predicate Proportional(lhs: Expr, rhs: Expr, q: real) {
    && lhs.terms.Keys == rhs.terms.Keys && lhs.constant == rhs.constant
    && forall v <- lhs.terms :: lhs.terms[v] == q * rhs.terms[v]
  }

  predicate Harmless(op: Operator, q: real) {
    if op.Equal? then q != 1.0 else q < 0.0 || q > 1.0
  }

  /** The factory states the relation it was asked for exactly when the two sides share no
      variable or are proportional in the right way, as in `2 * x == x`. */
  lemma FromExpressionsMeaning(id: nat, lhs: Expr, op: Operator, rhs: Expr)
    requires ZeroFree(lhs) && ZeroFree(rhs)
    ensures Faithful(id, lhs, op, rhs) <==>
            lhs.terms.Keys !! rhs.terms.Keys || exists q: real :: Proportional(lhs, rhs, q) && Harmless(op, q)
  {
    hide Eval;
    hide Overwritten;
    hide Faithful;
    hide Proportional;
    if lhs.terms.Keys !! rhs.terms.Keys {
      DisjointIsFaithful(id, lhs, op, rhs);
    } else if q :| Proportional(lhs, rhs, q) && Harmless(op, q) {
      ProportionalIsFaithful(id, lhs, op, rhs, q);
    }
    if Faithful(id, lhs, op, rhs) && !(lhs.terms.Keys !! rhs.terms.Keys) {
      var q := FaithfulIsProportional(id, lhs, op, rhs);
    }
  }

  lemma DisjointIsFaithful(id: nat, lhs: Expr, op: Operator, rhs: Expr)
    requires ZeroFree(lhs) && ZeroFree(rhs) && lhs.terms.Keys !! rhs.terms.Keys
    ensures Faithful(id, lhs, op, rhs)
  {
    hide Eval;
    hide Overwritten;
    FromExpressionsDifference(id, lhs, op, rhs);
  }

  /** How the factory's expression and the difference compare with zero. */
  lemma FaithfulCompares(id: nat, lhs: Expr, op: Operator, rhs: Expr)
    requires ZeroFree(lhs) && ZeroFree(rhs)
    ensures var d, f := First(lhs, op, rhs), Second(lhs, op, rhs);
            Faithful(id, lhs, op, rhs) <==>
            forall s: Valuation ::
              if op.Equal? then Eval(Overwritten(d, f), s) == 0.0 <==> Eval(Added(d, f), s) == 0.0
              else Eval(Overwritten(d, f), s) >= 0.0 <==> Eval(Added(d, f), s) >= 0.0
  {
    hide Eval;
    hide Overwritten;
    hide Added;
    Operands(lhs, op, rhs);
    var d, f := First(lhs, op, rhs), Second(lhs, op, rhs);
    forall s: Valuation
      ensures (FromExpressions(id, lhs, op, rhs).SatisfiedBy(s) <==> Relates(Eval(lhs, s), op, Eval(rhs, s))) <==>
              if op.Equal? then Eval(Overwritten(d, f), s) == 0.0 <==> Eval(Added(d, f), s) == 0.0
              else Eval(Overwritten(d, f), s) >= 0.0 <==> Eval(Added(d, f), s) >= 0.0
    {
    }
  }

  lemma ProportionalIsFaithful(id: nat, lhs: Expr, op: Operator, rhs: Expr, q: real)
    requires ZeroFree(lhs) && ZeroFree(rhs) && Proportional(lhs, rhs, q) && Harmless(op, q)
    requires !(lhs.terms.Keys !! rhs.terms.Keys)
    ensures Faithful(id, lhs, op, rhs)
  {
    hide Eval;
    hide Overwritten;
    hide Added;
    hide Faithful;
    var d, f := First(lhs, op, rhs), Second(lhs, op, rhs);
    var e, sum := Overwritten(d, f), Added(d, f);
    var k := ProportionalIsMultiple(lhs, op, rhs, q);
    forall s: Valuation
      ensures Eval(e, s) == 0.0 <==> Eval(sum, s) == 0.0
      ensures !op.Equal? ==> (Eval(e, s) >= 0.0 <==> Eval(sum, s) >= 0.0)
    {
      EvalScale(k, sum, e, s);
      KeepsSign(k, Eval(sum, s));
    }
    FaithfulCompares(id, lhs, op, rhs);
  }

  lemma ProportionalIsMultiple(lhs: Expr, op: Operator, rhs: Expr, q: real) returns (k: real)
    requires ZeroFree(lhs) && ZeroFree(rhs) && Proportional(lhs, rhs, q) && Harmless(op, q)
    requires !(lhs.terms.Keys !! rhs.terms.Keys)
    ensures k != 0.0 && (!op.Equal? ==> k > 0.0)
    ensures var d, f := First(lhs, op, rhs), Second(lhs, op, rhs); Multiple(Overwritten(d, f), Added(d, f), k)
  {
    hide Overwritten;
    hide Added;
    hide First;
    hide Second;
    hide Coef;
    var d, f := First(lhs, op, rhs), Second(lhs, op, rhs);
    var x :| x in lhs.terms && x in rhs.terms;
    NonZeroFactor(q, rhs.terms[x]);
    k := Factor(op, q);
    Sides(lhs, op, rhs, x);
    ZeroTimes(k, Added(d, f).constant);
    forall v ensures Coef(Overwritten(d, f), v) == k * Coef(Added(d, f), v) {
      ProportionalAt(lhs, op, rhs, q, k, v);
    }
  }

  lemma ProportionalAt(lhs: Expr, op: Operator, rhs: Expr, q: real, k: real, v: Variable)
    requires ZeroFree(lhs) && ZeroFree(rhs) && Proportional(lhs, rhs, q) && k * (q - 1.0) == q
    ensures var d, f := First(lhs, op, rhs), Second(lhs, op, rhs);
            Coef(Overwritten(d, f), v) == k * Coef(Added(d, f), v)
  {
    hide Overwritten;
    hide Added;
    hide First;
    hide Second;
    hide Coef;
    var d, f := First(lhs, op, rhs), Second(lhs, op, rhs);
    Sides(lhs, op, rhs, v);
    ProportionalCoefs(lhs, rhs, q, v);
    ProportionalTerm(op, Coef(lhs, v), Coef(rhs, v), Coef(d, v), Coef(f, v), Coef(Added(d, f), v), k, q);
  }

  /** The operands, their sum and what the factory makes of them, at one variable. */
  lemma Sides(lhs: Expr, op: Operator, rhs: Expr, v: Variable)
    requires ZeroFree(lhs) && ZeroFree(rhs)
    ensures var d, f := First(lhs, op, rhs), Second(lhs, op, rhs); var e, sum := Overwritten(d, f), Added(d, f);
            && Opposed(op, lhs.constant, rhs.constant, d.constant, f.constant)
            && e.constant == sum.constant == d.constant + f.constant
            && Opposed(op, Coef(lhs, v), Coef(rhs, v), Coef(d, v), Coef(f, v))
            && Coef(sum, v) == Coef(d, v) + Coef(f, v)
            && Coef(e, v) == (if v in lhs.terms then Coef(f, v) else Coef(d, v))
            && (v in lhs.terms <==> Coef(f, v) != 0.0) && (v in rhs.terms <==> Coef(d, v) != 0.0)
  {
    hide Eval;
    hide Overwritten;
    hide Added;
    hide First;
    hide Second;
    var d, f := First(lhs, op, rhs), Second(lhs, op, rhs);
    Operands(lhs, op, rhs);
    OverwrittenCoefs(d, f);
    OverwrittenConstant(d, f);
    AddedCoefs(d, f);
  }

  lemma ZeroTimes(k: real, x: real)
    ensures x == 0.0 ==> k * x == 0.0
  {}

  lemma NonZeroFactor(q: real, x: real)
    ensures q * x != 0.0 ==> q != 0.0
  {}

  lemma ProportionalTerm(op: Operator, l: real, r: real, d: real, f: real, sum: real, k: real, q: real)
    requires Opposed(op, l, r, d, f) && l == q * r && sum == d + f && k * (q - 1.0) == q
    ensures f == k * sum
  {
    FactorTimes(k, q, r);
    if !op.GreaterThanOrEqual? {
      FactorTimes(k, q, -r);
      assert q * -r == -l;
    }
  }

  lemma ProportionalCoefs(lhs: Expr, rhs: Expr, q: real, v: Variable)
    requires Proportional(lhs, rhs, q)
    ensures Coef(lhs, v) == q * Coef(rhs, v) && (v in lhs.terms <==> v in rhs.terms)
  {}

  lemma Factor(op: Operator, q: real) returns (k: real)
    requires q != 0.0 && Harmless(op, q) && q != 1.0
    ensures k * (q - 1.0) == q && k != 0.0 && (!op.Equal? ==> k > 0.0)
  {
    k := q / (q - 1.0);
    assert k * (q - 1.0) == q;
    Signs(k, q - 1.0);
  }

  lemma FactorTimes(k: real, q: real, x: real)
    requires k * (q - 1.0) == q
    ensures q * x == k * (q * x - x)
  {
    assert k * (q * x - x) == (k * (q - 1.0)) * x;
  }

  lemma KeepsSign(k: real, x: real)
    requires k != 0.0
    ensures k * x == 0.0 <==> x == 0.0
    ensures k > 0.0 ==> (k * x >= 0.0 <==> x >= 0.0)
  {
    Signs(k, x);
    if x != 0.0 {
      NonZeroProduct(k, x);
    }
  }

  lemma FaithfulIsProportional(id: nat, lhs: Expr, op: Operator, rhs: Expr) returns (q: real)
    requires ZeroFree(lhs) && ZeroFree(rhs) && Faithful(id, lhs, op, rhs) && !(lhs.terms.Keys !! rhs.terms.Keys)
    ensures Proportional(lhs, rhs, q) && Harmless(op, q)
  {
    hide Eval;
    hide Overwritten;
    hide Faithful;
    var d, f := First(lhs, op, rhs), Second(lhs, op, rhs);
    var e, sum := Overwritten(d, f), Added(d, f);
    FaithfulCompares(id, lhs, op, rhs);
    Operands(lhs, op, rhs);
    OverwrittenCoefs(d, f);
    OverwrittenConstant(d, f);
    AddedCoefs(d, f);
    var x :| x in lhs.terms && x in rhs.terms;
    var k;
    if op.Equal? {
      k := ZerosMultiple(e, sum, x);
    } else {
      k := SignsMultiple(e, sum, x);
    }
    q := MultipleIsProportional(lhs, op, rhs, k, x);
  }

  lemma MultipleIsProportional(lhs: Expr, op: Operator, rhs: Expr, k: real, x: Variable) returns (q: real)
    requires ZeroFree(lhs) && ZeroFree(rhs) && x in lhs.terms && x in rhs.terms
    requires Multiple(Overwritten(First(lhs, op, rhs), Second(lhs, op, rhs)),
      Added(First(lhs, op, rhs), Second(lhs, op, rhs)), k)
    requires k != 0.0 && (!op.Equal? ==> k > 0.0)
    ensures Proportional(lhs, rhs, q) && Harmless(op, q)
  {
    hide Overwritten;
    hide Added;
    hide First;
    hide Second;
    hide Multiple;
    hide Harmless;
    hide Coef;
    var d, f := First(lhs, op, rhs), Second(lhs, op, rhs);
    var e, sum := Overwritten(d, f), Added(d, f);
    Sides(lhs, op, rhs, x);
    MultipleAt(e, sum, k, x);
    NotOne(Coef(d, x), Coef(f, x), Coef(e, x), Coef(sum, x), k);
    NoConstant(k, e.constant, sum.constant);
    q := Inverse(op, k);
    forall v | v in lhs.terms || v in rhs.terms
      ensures v in lhs.terms && v in rhs.terms && lhs.terms[v] == q * rhs.terms[v]
    {
      TermIsProportional(lhs, op, rhs, k, q, v);
    }
  }

  lemma TermIsProportional(lhs: Expr, op: Operator, rhs: Expr, k: real, q: real, v: Variable)
    requires ZeroFree(lhs) && ZeroFree(rhs) && (v in lhs.terms || v in rhs.terms)
    requires Multiple(Overwritten(First(lhs, op, rhs), Second(lhs, op, rhs)),
      Added(First(lhs, op, rhs), Second(lhs, op, rhs)), k)
    requires k != 1.0 && q * (k - 1.0) == k
    ensures v in lhs.terms && v in rhs.terms && lhs.terms[v] == q * rhs.terms[v]
  {
    hide Overwritten;
    hide Added;
    hide First;
    hide Second;
    hide Multiple;
    var d, f := First(lhs, op, rhs), Second(lhs, op, rhs);
    var e, sum := Overwritten(d, f), Added(d, f);
    Sides(lhs, op, rhs, v);
    MultipleAt(e, sum, k, v);
    SharedBoth(Coef(d, v), Coef(f, v), Coef(e, v), Coef(sum, v), k, v in lhs.terms, v in rhs.terms);
    InverseTimes(op, k, q, Coef(lhs, v), Coef(rhs, v), Coef(d, v), Coef(f, v), Coef(sum, v));
  }

  lemma NotOne(d: real, f: real, e: real, sum: real, k: real)
    requires d != 0.0 && e == f && sum == d + f && e == k * sum
    ensures k != 1.0
  {}

  lemma NoConstant(k: real, x: real, y: real)
    requires k != 1.0 && x == k * y && x == y
    ensures x == 0.0
  {
    assert (k - 1.0) * y == 0.0;
    if y != 0.0 {
      NonZeroProduct(k - 1.0, y);
    }
  }

  lemma Inverse(op: Operator, k: real) returns (q: real)
    requires k != 0.0 && k != 1.0 && (!op.Equal? ==> k > 0.0)
    ensures q * (k - 1.0) == k && Harmless(op, q)
  {
    q := k / (k - 1.0);
    assert q * (k - 1.0) == k;
    assert (q - 1.0) * (k - 1.0) == 1.0;
    Signs(q - 1.0, k - 1.0);
    Signs(q, k - 1.0);
  }

  /** A variable of one side only would make the factor one. */
  lemma SharedBoth(d: real, f: real, e: real, sum: real, k: real, left: bool, right: bool)
    requires left || right
    requires (left <==> f != 0.0) && (right <==> d != 0.0) && e == (if left then f else d)
    requires sum == d + f && e == k * sum && k != 1.0
    ensures left && right && f == k * sum
  {
    if !left {
      NoConstant(k, e, sum);
    } else if !right {
      NoConstant(k, e, sum);
    }
  }

  lemma InverseTimes(op: Operator, k: real, q: real, l: real, r: real, d: real, f: real, sum: real)
    requires Opposed(op, l, r, d, f) && sum == d + f && f == k * sum && k != 1.0 && q * (k - 1.0) == k
    ensures l == q * r
  {
    assert l == k * (l - r) by {
      if !op.GreaterThanOrEqual? {
        assert k * -(l - r) == -(k * (l - r));
      }
    }
    assert (k - 1.0) * l == k * r;
    assert (k - 1.0) * (q * r) == k * r;
    assert (k - 1.0) * (l - q * r) == 0.0;
  }

  /** Where it goes wrong: `x == 0.5 * x + 1` asks for 2 and turns into a constraint for 1. */
  lemma SharedTermMisleads(id: nat, x: Variable, s: Valuation)
    ensures var lhs, rhs := Expr(map[x := 1.0], 0.0), Expr(map[x := 0.5], 1.0);
            && (Relates(Eval(lhs, s), Equal, Eval(rhs, s)) <==> s(x) == 2.0)
            && (FromExpressions(id, lhs, Equal, rhs).SatisfiedBy(s) <==> s(x) == 1.0)
  {
    var lhs, rhs := Expr(map[x := 1.0], 0.0), Expr(map[x := 0.5], 1.0);
    var e := FromExpressions(id, lhs, Equal, rhs).expression;
    assert e.terms == map[x := -1.0] && e.constant == 1.0;
    EvalSingle(x, 1.0, 0.0, s);
    EvalSingle(x, 0.5, 1.0, s);
    EvalSingle(x, -1.0, 1.0, s);
    hide Eval;
  }

  lemma EvalSingle(x: Variable, k: real, c: real, s: Valuation)
    requires k != 0.0
    ensures Eval(Expr(map[x := k], c), s) == c + k * s(x)
  {
    var none := Expr(map[], c);
    EvalWith(none, x, k, s);
    assert With(none, x, k) == Expr(map[x := k], c);
  }

  lemma EvalTerm(v: Variable, s: Valuation)
    ensures Eval(Term(v), s) == s(v)
  {
    EvalWith(Expr(map[], 0.0), v, 1.0, s);
  }

  /** Relating a variable to itself is not a tautology here: it is compared with zero. */
  lemma SelfRelation(id: nat, v: Variable, op: Operator, s: Valuation)
    ensures FromVariables(id, v, op, v).SatisfiedBy(s) <==> Relates(s(v), op, 0.0)
  {
    var e := FromVariables(id, v, op, v).expression;
    assert e.terms == map[v := if op.GreaterThanOrEqual? then 1.0 else -1.0] && e.constant == 0.0;
    EvalSingle(v, -1.0, 0.0, s);
    EvalSingle(v, 1.0, 0.0, s);
    hide Eval;
  }

  /** Two different variables are related as asked. */
  lemma FromVariablesMeaning(id: nat, lhs: Variable, op: Operator, rhs: Variable, s: Valuation)
    requires lhs != rhs
    ensures FromVariables(id, lhs, op, rhs).SatisfiedBy(s) <==> Relates(s(lhs), op, s(rhs))
  {
    hide Eval;
    EvalTerm(lhs, s);
    EvalTerm(rhs, s);
    EvalWith(Term(lhs), rhs, -1.0, s);
    EvalWith(Term(rhs), lhs, -1.0, s);
    var negated := Scale(Term(rhs), -1.0);
    EvalScale(-1.0, Term(rhs), negated, s);
    EvalWith(negated, lhs, 1.0, s);
  }

  /** The factories make required constraints, of strength 1000, that are no edit constraints: an
      equation for the operator of equality, an inequality for the others. */
  lemma FactoriesRequire(id: nat, l: Expr, r: Expr, lhs: Variable, rhs: Variable, op: Operator)
    ensures forall c <- [FromExpressions(id, l, op, r), FromVariables(id, lhs, op, rhs)] ::
              && c.strength == 1000.0 && c.IsRequired() && c.id == id && c.variable == None
              && c.kind == (if op == Equal then Linear else LinearInequity)
  {
    hide Overwritten;
  }

  /** An edit constraint asks the variable to have the value, and is required only with the
      strength of 1000. */
  lemma EditAsks(id: nat, v: Variable, value: real, strength: real, s: Valuation)
    ensures var c := ForEditing(id, v, value, strength);
            && (c.SatisfiedBy(s) <==> s(v) == value) && !c.IsInequality() && (c.IsRequired() <==> strength == 1000.0)
  {
    var none := Expr(map[], value);
    EvalWith(none, v, -1.0, s);
    assert With(none, v, -1.0) == ForEditing(id, v, value, strength).expression;
  }
}
