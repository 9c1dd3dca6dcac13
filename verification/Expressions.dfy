/** The mutable linear expression of Source/GSCSLinearExpression.m.  Every method is tied to
    a function on the value of the expression. */
module Expressions {
  import opened Options
  import opened Sequences
  import opened Variables
  import opened LinearAlgebra
  import opened RowAlgebra

  /** `addExpression:` overwrites the coefficients it touches instead of adding to them. */
  function Overwritten(d: Expr, e: Expr): Expr {
    Expr(map v | v in d.terms.Keys + e.terms.Keys && (v in d.terms || e.terms[v] != 0.0) ::
           if Coef(e, v) != 0.0 then Coef(e, v) else d.terms[v],
         d.constant + e.constant)
  }

  /** The part of `e` over the listed variables. */
  function Part(e: Expr, vars: seq<Variable>): Expr {
    Expr(map v | v in e.terms && v in vars :: e.terms[v], e.constant)
  }

  lemma OverwrittenNone(d: Expr, e: Expr)
    ensures Overwritten(d, Part(e, [])) == Expr(d.terms, d.constant + e.constant)
  {
    assert Overwritten(d, Part(e, [])).terms == d.terms;
  }

  lemma OverwrittenStep(d: Expr, e: Expr, vars: seq<Variable>, v: Variable)
    requires v in e.terms
    ensures With(Overwritten(d, Part(e, vars)), v, e.terms[v]) == Overwritten(d, Part(e, vars + [v]))
  {
    assert With(Overwritten(d, Part(e, vars)), v, e.terms[v]).terms == Overwritten(d, Part(e, vars + [v])).terms;
  }

  lemma PartIsAll(e: Expr, vars: seq<Variable>)
    requires forall v <- e.terms :: v in vars
    ensures Part(e, vars) == e
  {
    assert Part(e, vars).terms == e.terms;
  }

  lemma ScaleIs(e: Expr, k: real)
    ensures Scale(e, k).terms.Keys == e.terms.Keys && Scale(e, k).constant == e.constant * k
  {}

  lemma ScaledAt(e: Expr, k: real, v: Variable)
    requires v in e.terms
    ensures v in Scale(e, k).terms && Scale(e, k).terms[v] == e.terms[v] * k
  {}

  class LinearExpression {
    var terms: map<Variable, real>
    var constant: real
    var termVariables: seq<Variable>

    /** The list of term variables enumerates the keys of the coefficient map. */
    ghost predicate Valid()
      reads this
    {
      Distinct(termVariables) && (forall v :: v in termVariables <==> v in terms)
    }

    ghost function Value(): Expr
      reads this
    {
      Expr(terms, constant)
    }

    constructor (constant: real)
      ensures Valid() && Value() == Expr(map[], constant)
    {
      this.terms, this.constant, this.termVariables := map[], constant, [];
    }

    method RemoveVariable(v: Variable)
      requires Valid()
      modifies this
      ensures Valid() && Value() == Without(old(Value()), v)
    {
      terms := terms - {v};
      RemoveIs(termVariables, v);
      termVariables := Remove(termVariables, v);
    }

    method AddVariable(v: Variable, coefficient: real)
      requires Valid()
      modifies this
      ensures Valid() && Value() == With(old(Value()), v, coefficient)
    {
      if coefficient != 0.0 {
        if v in terms {
          RemoveIs(termVariables, v);
          termVariables := Remove(termVariables, v);
        }
        terms := terms[v := coefficient];
        termVariables := termVariables + [v];
      }
    }

    method MultiplyBy(value: real)
      requires Valid()
      modifies this
      ensures Valid() && Value() == Scale(old(Value()), value)
    {
      hide Scale;
      ghost var before, scaled := Value(), Scale(Value(), value);
      ScaleIs(before, value);
      constant := constant * value;
      var keys := terms.Keys;
      while keys != {}
        invariant keys <= terms.Keys == before.terms.Keys == scaled.terms.Keys
        invariant forall v <- terms :: terms[v] == (if v in keys then before.terms[v] else scaled.terms[v])
        invariant constant == scaled.constant && termVariables == old(termVariables)
        decreases |keys|
      {
        var v :| v in keys;
        var product := terms[v] * value;
        assert product == scaled.terms[v] by { ScaledAt(before, value, v); }
        terms := terms[v := product];
        keys := keys - {v};
      }
      assert terms == scaled.terms;
    }

    method Normalize()
      requires Valid()
      modifies this
      ensures Valid() && Value() == Scale(old(Value()), -1.0)
    {
      MultiplyBy(-1.0);
    }

    method NewSubject(subject: Variable) returns (reciprocal: real)
      requires Valid() && Coef(Value(), subject) != 0.0
      modifies this
      ensures Valid() && Value() == RowAlgebra.NewSubject(old(Value()), subject)
      ensures reciprocal == 1.0 / Coef(old(Value()), subject)
    {
      reciprocal := 1.0 / terms[subject];
      MultiplyBy(-reciprocal);
      RemoveVariable(subject);
    }

    method Copy() returns (copy: LinearExpression)
      requires Valid() && ZeroFree(Value())
      ensures fresh(copy) && copy.Valid() && copy.Value() == Value()
    {
      copy := new LinearExpression(constant);
      for i := 0 to |termVariables|
        invariant copy.Valid() && copy.constant == constant && fresh(copy)
        invariant forall v :: v in copy.terms <==> v in termVariables[..i]
        invariant forall v <- copy.terms :: v in terms && copy.terms[v] == terms[v]
      {
        assert termVariables[..i + 1] == termVariables[..i] + [termVariables[i]];
        assert termVariables[i] in termVariables;
        copy.AddVariable(termVariables[i], terms[termVariables[i]]);
      }
      assert termVariables[..|termVariables|] == termVariables;
      assert copy.terms.Keys == terms.Keys;
    }

    method AddExpression(e: LinearExpression, multiplier: real)
      requires Valid() && e.Valid() && e != this
      modifies this
      ensures Valid() && Value() == Overwritten(old(Value()), Scale(e.Value(), multiplier))
    {
      hide Overwritten;
      hide Part;
      constant := constant + e.constant * multiplier;
      ghost var scaled := Scale(e.Value(), multiplier);
      OverwrittenNone(old(Value()), scaled);
      for i := 0 to |e.termVariables|
        invariant Valid() && Value() == Overwritten(old(Value()), Part(scaled, e.termVariables[..i]))
      {
        assert e.termVariables[..i + 1] == e.termVariables[..i] + [e.termVariables[i]];
        var v := e.termVariables[i];
        assert v in e.termVariables;
        var k := e.terms[v] * multiplier;
        assert k == scaled.terms[v];
        OverwrittenStep(old(Value()), scaled, e.termVariables[..i], v);
        AddVariable(v, k);
      }
      assert e.termVariables[..|e.termVariables|] == e.termVariables;
      PartIsAll(scaled, e.termVariables);
    }

    /** The pivotable terms sharing the smallest coefficient, provided it is negative. */
    method FindPivotableVariablesWithMostNegativeCoefficient() returns (candidates: seq<Variable>)
      requires Valid() && ZeroFree(Value())
      ensures forall v :: v in candidates <==>
        && v in terms && v.IsPivotable() && terms[v] < 0.0
        && (forall u <- terms :: u.IsPivotable() ==> terms[v] <= terms[u])
      ensures candidates == [] <==> (forall u <- terms :: u.IsPivotable() ==> terms[u] >= 0.0)
    {
      var mostNegative := 0.0;
      for i := 0 to |termVariables|
        invariant mostNegative <= 0.0
        invariant mostNegative < 0.0 ==> exists v <- termVariables[..i] :: v.IsPivotable() && terms[v] == mostNegative
        invariant forall v <- termVariables[..i] :: v.IsPivotable() ==> mostNegative <= terms[v]
      {
        var v := termVariables[i];
        assert termVariables[..i + 1] == termVariables[..i] + [v];
        if v.IsPivotable() && terms[v] < mostNegative {
          mostNegative := terms[v];
        }
      }
      assert termVariables[..|termVariables|] == termVariables;
      candidates := [];
      for i := 0 to |termVariables|
        invariant forall v :: v in candidates <==>
          v in termVariables[..i] && v.IsPivotable() && terms[v] == mostNegative
        invariant candidates == [] <==> forall v <- termVariables[..i] :: v.IsPivotable() ==> terms[v] != mostNegative
      {
        var v := termVariables[i];
        assert termVariables[..i + 1] == termVariables[..i] + [v];
        if v.IsPivotable() && terms[v] == mostNegative {
          candidates := candidates + [v];
        }
      }
      if mostNegative < 0.0 {
        var v :| v in termVariables && v.IsPivotable() && terms[v] == mostNegative;
        assert v in candidates && v in terms;
      }
    }

    /** `anyPivotableVariable`; `None` is the source's nil. */
    method AnyPivotableVariable() returns (found: Option<Variable>)
      requires Valid()
      ensures found.Some? ==> found.value in terms && found.value.IsPivotable()
      ensures found.None? ==> forall v <- terms :: !v.IsPivotable()
    {
      for i := 0 to |termVariables|
        invariant forall v <- termVariables[..i] :: !v.IsPivotable()
      {
        var v := termVariables[i];
        assert termVariables[..i + 1] == termVariables[..i] + [v];
        if v.IsPivotable() {
          return Some(v);
        }
      }
      assert termVariables[..|termVariables|] == termVariables;
      return None;
    }
  }
}
