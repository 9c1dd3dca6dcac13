/** The incremental solver of Source/GSCassowarySolver.m. */
module Solvers {
  import opened Options
  import opened Variables
  import opened LinearAlgebra
  import opened RowAlgebra
  import opened Expressions
  import opened Simplex
  import opened Tableaux
  import opened Incremental
  import opened Removal
  import opened Edits
  import opened Artificial
  import opened Constraints
  import opened Bookkeeping
  import opened Registry
  import opened Preferences

  /** How `optimize` ends; `Interrupted` when the allotted number of pivots is used up. */
  datatype Outcome = Optimal | Unbounded(entry: Variable) | Interrupted

  /** How adding a constraint ends: `Unsatisfiable` is the source's exception, `Failed` an
      optimisation that did not reach an optimum or left nothing to pivot on. */
  datatype AddResult = Added | Unsatisfiable | Failed(outcome: Outcome)

  /** How a suggestion ends; `Stuck` is the exception of `dualOptimize`, and `Unresolved` an
      edit constraint whose addition did not end at an optimum. */
  datatype Repair = Repaired | Stuck(exit: Variable) | Unfinished | Unresolved(outcome: Outcome)

  /** A stretch of work of `optimize:`: the table it begins with, the row it looks at, and its
      pivots. */
  datatype Stretch = Stretch(rows: Rows, z: Variable, run: seq<Exchange>)

  /** How a stretch ends that may make `fuel` pivots: where nothing is left to do, where nothing
      bounds the entry variable, or when all of them have been made. */
  ghost predicate Ends(t: Stretch, fuel: nat, outcome: Outcome, rows: Rows) {
    && CanRun(t.rows, t.run) && OptimizerRun(t.rows, t.z, t.run) && rows == Run(t.rows, t.run) && t.z in rows
    && |t.run| <= fuel
    && match outcome
       case Optimal => Stopped(rows[t.z])
       case Unbounded(entry) => EntersNext(rows[t.z], entry) && NothingLeaves(rows, entry)
       case Interrupted => |t.run| == fuel
  }

  /** The pivotable term with the least coefficient, which is below the tolerance. */
  ghost predicate EntersNext(row: Expr, entry: Variable) {
    && entry in row.terms && entry.IsPivotable() && row.terms[entry] < -TOLERANCE
    && forall v <- row.terms :: v.IsPivotable() ==> row.terms[entry] <= row.terms[v]
  }

  ghost predicate NothingLeaves(rows: Rows, entry: Variable) {
    forall r <- rows :: r.IsPivotable() ==> Coef(rows[r], entry) >= 0.0
  }

  /** A table with a coefficient below the tolerance, a row to leave for every variable that may
      enter, and fuel left is not where the loop ends: it pivots, first on a least coefficient
      and a least ratio. */
  lemma MustPivot(t: Stretch, fuel: nat, outcome: Outcome, rows: Rows)
    requires Ends(t, fuel, outcome, rows) && fuel > 0 && t.z in t.rows && !Stopped(t.rows[t.z])
    requires forall entry <- t.rows[t.z].terms :: EntersNext(t.rows[t.z], entry) ==> !NothingLeaves(t.rows, entry)
    ensures t.run != [] && EntersNext(t.rows[t.z], t.run[0].entry)
      && MinRatioExit(t.rows, t.run[0].entry, t.run[0].exit)
  {
    hide Pivot;
    hide MinRatioExit;
  }

  /** Short of its fuel a stretch ends only where nothing is left to do, or nothing bounds the
      entry variable. */
  lemma FuelLeft(t: Stretch, fuel: nat, outcome: Outcome, rows: Rows)
    requires Ends(t, fuel, outcome, rows) && |t.run| < fuel
    ensures !Stopped(rows[t.z]) ==>
      exists entry <- rows[t.z].terms :: EntersNext(rows[t.z], entry) && NothingLeaves(rows, entry)
  {
    hide Stopped;
    hide NothingLeaves;
    hide Run;
    hide CanRun;
    hide OptimizerRun;
  }

  /** The stretch begins with the given table and two equal rows more, one of them the row it
      looks at. */
  ghost predicate ArtificialPhase(rows: Rows, t: Stretch) {
    t.z.kind.Objective? && t.z in t.rows && exists a <- t.rows ::
      a.kind.Slack? && t.rows == rows[t.z := t.rows[a]][a := t.rows[a]]
  }

  /** The artificial variable is basic at zero, and its row has nothing to pivot on. */
  ghost predicate Immovable(rows: Rows, a: Variable) {
    a in rows && rows[a].constant == 0.0 && forall v <- rows[a].terms :: !v.IsPivotable()
  }

  lemma MovesWhenSound(before: Rows, e: Expr, a: Variable, after: Rows)
    requires Solved(before) && Sound(before) && Solved(after) && Sound(after) && a.kind.Slack?
    requires a in before && before[a] == e
    requires (exists v <- e.terms :: v.IsPivotable()) || e.constant != 0.0
    requires forall s: Valuation :: Sat(after, s) <==> Sat(before, s)
    ensures !Immovable(after, a)
  {
    hide Sat;
    hide Solved;
    hide Sound;
    if Immovable(after, a) {
      PivotableFor(before, e, a, after);
    }
  }

  /** What `dualOptimize` works on. */
  datatype Dual = Dual(rows: Rows, listed: seq<Variable>)

  /** One turn of `dualOptimize`: the first row of the list is dropped when it is not infeasible
      any more, and leaves in a pivot otherwise. */
  ghost predicate DualTurn(z: Variable, s: Dual, t: Dual) {
    && s.listed != [] && z in s.rows
    && var exit := s.listed[0];
       if exit !in s.rows || s.rows[exit].constant >= 0.0 then t == Dual(s.rows, s.listed[1..])
       else exists entry <- s.rows[exit].terms :: DualPivot(z, s, t, entry)
  }

  ghost predicate DualPivot(z: Variable, s: Dual, t: Dual, entry: Variable)
    requires s.listed != [] && z in s.rows && s.listed[0] in s.rows
  {
    && DualEntry(s.rows, z, entry, s.listed[0]) && t.rows == Pivot(s.rows, entry, s.listed[0])
    && (forall r <- s.listed[1..] :: r in t.listed)
    && (forall r <- t.rows :: r.IsRestricted() && r != entry && t.rows[r].constant < 0.0 ==>
          r in t.listed || (r in s.rows && t.rows[r] == s.rows[r]))
    && (forall r <- t.listed :: r in s.listed[1..] || r.IsRestricted())
  }

  ghost predicate DualRun(z: Variable, turns: seq<Dual>) {
    turns != [] && forall i | 0 < i < |turns| :: DualTurn(z, turns[i - 1], turns[i])
  }

  /** How the loop ends after these turns, of which `fuel` are allowed: with an empty list, at an
      infeasible row without a term to enter, or when all of them have been made. */
  ghost predicate DualEnds(z: Variable, turns: seq<Dual>, fuel: nat, repair: Repair, now: Dual) {
    && DualRun(z, turns) && |turns| <= fuel + 1
    && var last := turns[|turns| - 1];
       match repair
       case Repaired => now == last && last.listed == []
       case Stuck(exit) =>
         && last.listed != [] && last.listed[0] == exit && now == Dual(last.rows, last.listed[1..])
         && exit in last.rows && last.rows[exit].constant < 0.0
         && forall v <- last.rows[exit].terms :: v.IsPivotable() ==> last.rows[exit].terms[v] <= 0.0
       case Unfinished => now == last && |turns| == fuel + 1
       case Unresolved(_) => false
  }

  class Solver {
    const tableau: Tableau
    var created: nat
    var externalVariables: set<Variable>
    var markerVariables: Markers
    var errorVariables: Errors
    var values: map<Variable, real>  // the `_value` of each variable that has been set
    var editInfos: seq<EditInfo>     // the list of the edit variable manager
    ghost var goal: Expr             // the weighted sum of error variables
    ghost var equations: Equations   // what the rows stand for
    ghost var entries: Entries       // the constraints the equations were made for

    ghost predicate Valid()
      reads this`created, this`goal, this`equations, tableau
    {
      && tableau.Valid()
      && tableau.objective in tableau.rows && tableau.objective.kind.Objective?
      && Represents(tableau.rows, tableau.objective, goal, equations)
      && Keyed(equations)
      && !Mentions(equations, tableau.objective) && tableau.objective !in equations
      && ZeroFree(goal) && (forall v <- goal.terms :: v.kind.Slack?)
      && (forall r <- tableau.rows :: r.kind.Objective? ==> r == tableau.objective)
      && (forall v <- tableau.columns :: !v.kind.Objective?)
      && Numbered(tableau.Known(), goal, equations, created)
    }

    lemma Stated()
      requires Valid()
      ensures Solved(tableau.rows) && tableau.objective in tableau.rows && tableau.objective.kind.Objective?
      ensures Represents(tableau.rows, tableau.objective, goal, equations)
      ensures ZeroFree(goal) && forall v <- goal.terms :: v.kind.Slack?
      ensures forall r <- tableau.rows :: r.kind.Objective? ==> r == tableau.objective
      ensures Numbered(tableau.Known(), goal, equations, created)
      ensures !Mentions(equations, tableau.objective) && tableau.objective !in goal.terms
    {}

    /** The tables of markers, errors and edit infos agree with the entries, and the entries
        with the equations. */
    ghost predicate Booked()
      reads this`markerVariables, this`errorVariables, this`editInfos, this`goal, this`equations, this`entries,
        this`created
    {
      && BooksMatch(markerVariables, errorVariables, entries)
      && Registered(entries, goal, equations, created)
      && InfosFit(entries, created, editInfos)
    }

    /** Every external variable the solver has met is on the list of those it reports. */
    ghost predicate Covered()
      reads this`entries, this`externalVariables, tableau
    {
      CoveredBy(tableau.Known(), entries, externalVariables)
    }

    constructor ()
      ensures Valid() && fresh(tableau) && equations == map[] && entries == map[] && goal == Expr(map[], 0.0)
      ensures Booked() && Covered() && markerVariables == map[] && editInfos == [] && values == map[]
      ensures Sound(tableau.rows)
    {
      var z := Variable(Objective, 0);
      tableau := new Tableau(z);
      created := 1;
      externalVariables, markerVariables, errorVariables, values, editInfos := {}, map[], map[], map[], [];
      goal, equations, entries := Expr(map[], 0.0), map[], map[];
      new;
      forall s: Valuation
        ensures Sat(tableau.rows, s) <==> Holds(equations, s) && s(z) == Eval(goal, s)
      {
        assert tableau.rows[z] == goal;
      }
    }

    /** `value` of a variable; one that was never set has zero. */
    function ValueOf(v: Variable): real
      reads this`values
    {
      ValueIn(values, v)
    }

    /** `setValue:` */
    method SetValue(v: Variable, value: real)
      modifies this`values
      ensures values == old(values)[v := value]
    {
      values := values[v := value];
    }

    method Fresh(kind: VariableType) returns (v: Variable)
      requires Valid()
      modifies this`created
      ensures Valid()
      ensures v == Variable(kind, old(created)) && created == old(created) + 1
    {
      v := Variable(kind, created);
      NumberedMore(tableau.Known(), tableau.Known(), goal, equations, created, created + 1);
      hide Numbered;
      created := created + 1;
    }

    /** The loop of `expressionForNewConstraint:` that replaces basic variables by their rows. */
    method SubstituteBasics(e: Expr) returns (expression: Expr)
      requires tableau.Valid()
      requires forall v <- e.terms :: v.IsClient()
      modifies this`externalVariables
      ensures ZeroFree(expression) && forall v <- expression.terms :: v !in tableau.rows
      ensures forall v <- expression.terms :: v.IsClient() || v in tableau.columns
      ensures forall s: Valuation :: Sat(tableau.rows, s) ==> Eval(expression, s) == Eval(e, s)
      ensures old(externalVariables) <= externalVariables
      ensures forall v <- e.terms :: v.IsExternal() && v !in tableau.rows ==> v in externalVariables
      ensures forall v <- expression.terms :: v.IsExternal() ==> v in externalVariables || v in tableau.columns
    {
      expression := Expr(map[], e.constant);
      var todo := e.terms.Keys;
      forall s: Valuation ensures Eval(expression, s) == e.constant + Dot({}, e, s) {
        assert expression.terms.Keys == {};
      }
      while todo != {}
        invariant todo <= e.terms.Keys
        invariant ZeroFree(expression) && forall v <- expression.terms :: v !in tableau.rows
        invariant forall v <- expression.terms :: v.IsClient() || v in tableau.columns
        invariant forall s: Valuation :: Sat(tableau.rows, s) ==>
          Eval(expression, s) == e.constant + Dot(e.terms.Keys - todo, e, s)
        invariant old(externalVariables) <= externalVariables
        invariant forall v <- e.terms :: v !in todo && v.IsExternal() && v !in tableau.rows ==> v in externalVariables
        invariant forall v <- expression.terms :: v.IsExternal() ==> v in externalVariables || v in tableau.columns
      {
        hide Mul;
        hide Eval;
        hide Sat;
        hide IndexOutside;
        hide ExternalTermsRecorded;
        hide ExternalRowsMatch;
        var v :| v in todo;
        ghost var before, done := expression, e.terms.Keys - todo;
        var k := e.terms[v];
        if v !in tableau.rows {
          expression := AddTerm(expression, v, k);
          if v.IsExternal() {
            externalVariables := externalVariables + {v};
          }
        } else {
          SolvedRow(tableau.rows, v);
          TermsHaveColumns(tableau.rows, tableau.columns, v);
          expression := AddScaled(expression, tableau.rows[v], k);
        }
        todo := todo - {v};
        assert e.terms.Keys - todo == done + {v} && (done + {v}) - {v} == done;
        forall s: Valuation | Sat(tableau.rows, s)
          ensures Eval(expression, s) == e.constant + Dot(e.terms.Keys - todo, e, s)
        {
          DotRemove(done + {v}, e, s, v);
          if v !in tableau.rows {
            EvalAddTerm(before, v, k, s);
          } else {
            SatRow(tableau.rows, v, s);
          }
        }
      }
      assert e.terms.Keys - todo == e.terms.Keys;
    }

    /** `addExpression:multiplier:toExpression:` for an expression not yet in the tableau. */
    method AddScaled(destination: Expr, source: Expr, multiplier: real) returns (r: Expr)
      requires ZeroFree(destination)
      ensures ZeroFree(r) && r.terms.Keys <= destination.terms.Keys + source.terms.Keys
      ensures forall s: Valuation :: Eval(r, s) == Eval(destination, s) + Mul(multiplier, Eval(source, s))
    {
      hide Eval;
      hide Scale;
      hide Mul;
      hide AddTerm;
      ScaledParts(source, multiplier);
      var scaled := Scale(source, multiplier);
      r := Expr(destination.terms, destination.constant + scaled.constant);
      var todo := scaled.terms.Keys;
      while todo != {}
        invariant todo <= scaled.terms.Keys && ZeroFree(r)
        invariant r.terms.Keys <= destination.terms.Keys + source.terms.Keys
        invariant r.constant == destination.constant + scaled.constant
        invariant forall t {:trigger Coef(r, t)} ::
          Coef(r, t) == Coef(destination, t) + if t in todo then 0.0 else Coef(scaled, t)
      {
        var t :| t in todo;
        todo := todo - {t};
        AddTermCoef(r, t, scaled.terms[t]);
        AddTermKeys(r, t, scaled.terms[t]);
        AddTermZeroFree(r, t, scaled.terms[t]);
        r := AddTerm(r, t, scaled.terms[t]);
      }
      forall s: Valuation ensures Eval(r, s) == Eval(destination, s) + Mul(multiplier, Eval(source, s)) {
        EvalMultiple(destination, source, multiplier, r, s);
      }
    }

    /** `addErrorVariable:strength:` */
    method AddErrorVariable(v: Variable, strength: real)
      requires Valid() && v.kind.Slack? && v.serial < created && v !in tableau.rows
      modifies tableau, this`goal
      ensures Valid()
      ensures goal == AddTerm(old(goal), v, strength)
      ensures var z := tableau.objective;
              && z == old(tableau.objective)
              && tableau.rows == old(tableau.rows)[z := AddTerm(old(tableau.rows)[z], v, strength)]
      ensures old(tableau.columns).Keys <= tableau.columns.Keys <= old(tableau.columns).Keys + {v}
    {
      hide Sat;
      hide Eval;
      hide Solved;
      hide IndexOutside;
      hide ExternalTermsRecorded;
      hide ExternalRowsMatch;
      hide Mul;
      hide Represents;
      hide Keyed;
      hide Mentions;
      hide Numbered;
      hide AddTerm;
      ghost var rows, z, known := tableau.rows, tableau.objective, tableau.Known();
      tableau.AddVariable(v, strength, tableau.objective);
      forall s: Valuation
        ensures Eval(tableau.rows[z], s) == Eval(rows[z], s) + Mul(strength, s(v))
      {
        EvalAddTerm(rows[z], v, strength, s);
      }
      TermsHaveColumns(tableau.rows, tableau.columns, z);
      GoalStep(rows, z, tableau.rows[z], v, strength, goal, equations, known, tableau.Known(), created);
      goal := AddTerm(goal, v, strength);
    }

    /** `expressionForNewConstraint:marker:errors:`, with the equation the expression stands
        for as a record. */
    method ExpressionForNewConstraint(c: Constraint)
      returns (expression: Expr, marker: Variable, errors: seq<Variable>, ghost equation: Expr)
      requires Valid()
      requires forall v <- c.expression.terms :: v.IsClient()
      modifies this`externalVariables, this`created, this`goal, tableau
      ensures Valid() && tableau.objective == old(tableau.objective)
      ensures FreshOwn(c, marker, errors, old(created), created)
      ensures IsAugmented(equation, c, marker, errors) && Coef(expression, marker) == Coef(equation, marker)
      ensures ZeroFree(expression) && expression.constant >= 0.0 && marker in expression.terms
      ensures forall v <- expression.terms :: v !in tableau.rows && (v.IsClient() || v.IsRestricted())
      ensures forall v <- expression.terms :: v in old(tableau.columns) || v.IsClient() || v == marker || v in errors
      ensures forall s: Valuation :: Sat(tableau.rows, s) ==> Eval(expression, s) == Eval(equation, s)
      ensures ObjectiveOnly(old(tableau.rows), tableau.rows, tableau.objective, errors)
      ensures tableau.columns.Keys <= old(tableau.columns).Keys + ToSet(errors)
      ensures old(externalVariables) <= externalVariables
      ensures forall v <- c.expression.terms :: v.IsExternal() ==> v in externalVariables || v in old(tableau.rows)
      ensures forall v <- expression.terms :: v.IsExternal() ==> v in externalVariables || v in old(tableau.columns)
      ensures goal == AddErrors(old(goal), errors, c.strength)
      ensures c.IsRequired() ==> tableau.rows == old(tableau.rows) && marker !in tableau.columns
      ensures !c.IsRequired() ==>
        exists v <- expression.terms :: v.IsPivotable() && expression.terms[v] < 0.0 &&
          Column(tableau.columns, v) <= {tableau.objective}
    {
      hide Sat;
      hide Eval;
      hide Solved;
      hide IndexOutside;
      hide ExternalTermsRecorded;
      hide ExternalRowsMatch;
      hide Numbered;
      hide Represents;
      hide Keyed;
      hide Mentions;
      hide Scale;
      hide Augment;
      hide AddErrors;
      ghost var rows, z := tableau.rows, tableau.objective;
      expression, marker, errors, equation := AugmentedExpression(c);
      AddErrorVariables(errors, c.strength);
      OwnColumns(rows, tableau.rows, tableau.columns, z, errors, marker);
      forall s: Valuation | Sat(tableau.rows, s) ensures Eval(expression, s) == Eval(equation, s) {
        BaseTransfer(rows, tableau.rows, z, expression, equation, s);
      }
      expression, equation := Normalized(expression, equation);
      if !c.IsRequired() {
        var v := if Coef(expression, marker) < 0.0 then marker else errors[|errors| - 1];
        assert v in expression.terms && v.IsPivotable() && expression.terms[v] < 0.0;
      }
    }

    /** The constraint's expression over the current parameters, with its own new variables. */
    method AugmentedExpression(c: Constraint)
      returns (expression: Expr, marker: Variable, errors: seq<Variable>, ghost equation: Expr)
      requires Valid()
      requires forall v <- c.expression.terms :: v.IsClient()
      modifies this`externalVariables, this`created
      ensures Valid()
      ensures FreshOwn(c, marker, errors, old(created), created)
      ensures equation == Augment(c.expression, c, marker, ErrorOf(errors)) && Coef(equation, marker) == MarkerSign(c)
      ensures ZeroFree(expression) && Coef(expression, marker) == MarkerSign(c)
      ensures errors != [] ==> Coef(expression, errors[|errors| - 1]) == 1.0
      ensures forall v <- expression.terms :: v !in tableau.rows && (v.IsClient() || v.IsRestricted())
      ensures forall v <- expression.terms :: v in tableau.columns || v.IsClient() || v == marker || v in errors
      ensures old(externalVariables) <= externalVariables
      ensures forall v <- c.expression.terms :: v.IsExternal() ==> v in externalVariables || v in old(tableau.rows)
      ensures forall v <- expression.terms :: v.IsExternal() ==> v in externalVariables || v in old(tableau.columns)
      ensures tableau.objective !in equation.terms
      ensures forall s: Valuation :: Sat(tableau.rows, s) ==> Eval(expression, s) == Eval(equation, s)
      ensures NewTo(tableau.rows, tableau.columns, marker, errors)
    {
      hide Sat;
      hide Eval;
      hide Solved;
      hide IndexOutside;
      hide ExternalTermsRecorded;
      hide ExternalRowsMatch;
      hide Numbered;
      hide Represents;
      hide Keyed;
      hide Mentions;
      hide Augment;
      var base := SubstituteBasics(c.expression);
      var error: Option<Variable>;
      marker, errors, error := MakeOwn(c);
      OwnIsNew(tableau.rows, tableau.columns, goal, equations, old(created), marker, errors);
      NotInBase(base, c.expression, tableau.rows, tableau.columns, marker, errors);
      expression := Augment(base, c, marker, error);
      equation := Augment(c.expression, c, marker, error);
      AugmentFacts(base, c, marker, error);
      AugmentFacts(c.expression, c, marker, error);
    }

    /** Make the constant non-negative. */
    method Normalized(expression: Expr, ghost equation: Expr) returns (e: Expr, ghost q: Expr)
      requires ZeroFree(expression)
      ensures (e == expression && q == equation) || (e == Scale(expression, -1.0) && q == Scale(equation, -1.0))
      ensures ZeroFree(e) && e.constant >= 0.0 && e.terms.Keys == expression.terms.Keys
      ensures forall s: Valuation :: Eval(expression, s) == Eval(equation, s) ==> Eval(e, s) == Eval(q, s)
      ensures
        || (forall v :: Coef(e, v) == Coef(expression, v) && Coef(q, v) == Coef(equation, v))
        || (forall v :: Coef(e, v) == -Coef(expression, v) && Coef(q, v) == -Coef(equation, v))
    {
      e, q := expression, equation;
      if expression.constant < 0.0 {
        ScaleFacts(expression);
        ScaleFacts(equation);
        e, q := Scale(expression, -1.0), Scale(equation, -1.0);
      }
    }

    /** New marker and error variables for a constraint. */
    method MakeOwn(c: Constraint) returns (marker: Variable, errors: seq<Variable>, error: Option<Variable>)
      requires Valid()
      modifies this`created
      ensures Valid()
      ensures FreshOwn(c, marker, errors, old(created), created)
      ensures error == (if c.IsRequired() then None else Some(errors[|errors| - 1]))
    {
      error, errors := None, [];
      if c.IsInequality() {
        marker := Fresh(Slack);
        if !c.IsRequired() {
          var minus := Fresh(Slack);
          error, errors := Some(minus), [minus];
        }
      } else if c.IsRequired() {
        marker := Fresh(Dummy);
      } else {
        marker := Fresh(Slack);
        var minus := Fresh(Slack);
        error, errors := Some(minus), [marker, minus];
      }
    }

    method AddErrorVariables(errors: seq<Variable>, strength: real)
      requires Valid()
      requires |errors| <= 2
      requires forall v <- errors :: v.kind.Slack? && v.serial < created && v !in tableau.rows
      modifies tableau, this`goal
      ensures Valid() && tableau.objective == old(tableau.objective)
      ensures goal == AddErrors(old(goal), errors, strength)
      ensures ObjectiveOnly(old(tableau.rows), tableau.rows, tableau.objective, errors)
      ensures errors == [] ==> tableau.rows == old(tableau.rows)
      ensures tableau.columns.Keys <= old(tableau.columns).Keys + ToSet(errors)
    {
      ObjectiveUnmoved(tableau.rows, tableau.objective, errors);
      AddErrorsUpToTwo(goal, errors, strength);
      hide Valid;
      hide AddTerm;
      hide AddErrors;
      hide ObjectiveOnly;
      if |errors| >= 1 {
        ObjectiveMoves(tableau.rows, tableau.rows, tableau.objective, errors, errors[0], strength);
        AddErrorVariable(errors[0], strength);
      }
      if |errors| == 2 {
        ObjectiveMoves(old(tableau.rows), tableau.rows, tableau.objective, errors, errors[1], strength);
        AddErrorVariable(errors[1], strength);
      }
    }

    /** `chooseSubject:`.  The expression comes back negated in the all-dummy case when the
        source normalises it. */
    method ChooseSubject(expression: Expr) returns (subject: Option<Variable>, e: Expr)
      requires tableau.Valid() && tableau.objective.kind.Objective?
      requires ZeroFree(expression) && expression.constant >= 0.0
      requires forall v <- expression.terms :: v !in tableau.rows && (v.IsClient() || v.IsRestricted())
      ensures e == expression || e == Scale(expression, -1.0)
      ensures subject.Some? ==> ValidSubject(tableau.rows, e, subject.value)
      ensures subject.None? ==>
        && OnlyRestricted(expression)
        && (forall v <- expression.terms :: v.IsPivotable() && expression.terms[v] < 0.0 ==>
              !(Column(tableau.columns, v) <= {tableau.objective}))
        && ((exists v <- expression.terms :: v.IsPivotable()) || expression.constant != 0.0
            || forall v <- expression.terms :: v in tableau.columns)
    {
      e := expression;
      subject := FindSubject(expression);
      if subject.Some? {
        OnlyIn(tableau.rows, tableau.columns, subject.value, tableau.objective);
        return;
      }
      var coefficient := 0.0;
      var todo := expression.terms.Keys;
      while todo != {}
        invariant todo <= expression.terms.Keys
        invariant forall v <- expression.terms.Keys - todo :: v.IsDummy()
        invariant subject.Some? ==>
          && subject.value in expression.terms && subject.value !in tableau.columns
          && coefficient == expression.terms[subject.value]
        invariant subject.None? ==> forall v <- expression.terms.Keys - todo :: v in tableau.columns
      {
        var v :| v in todo;
        todo := todo - {v};
        if !v.IsDummy() {
          assert v.IsPivotable();
          return None, e;
        }
        if v !in tableau.columns {
          subject, coefficient := Some(v), expression.terms[v];
        }
      }
      if expression.constant != 0.0 {
        return None, e;
      }
      if coefficient > 0.0 {
        e := Scale(expression, -1.0);
      }
      if subject.Some? {
        NotMentioned(tableau.rows, tableau.columns, subject.value);
      }
    }

    /** The first loop of `chooseSubject:`. */
    method FindSubject(expression: Expr) returns (subject: Option<Variable>)
      requires forall v <- expression.terms :: v.IsClient() || v.IsRestricted()
      ensures subject.Some? ==>
        && subject.value in expression.terms
        && (subject.value.IsClient()
            || (&& subject.value.IsPivotable() && expression.terms[subject.value] < 0.0
                && Column(tableau.columns, subject.value) <= {tableau.objective}
                && OnlyRestricted(expression)))
      ensures subject.None? ==>
        && OnlyRestricted(expression)
        && (forall v <- expression.terms :: v.IsPivotable() && expression.terms[v] < 0.0 ==>
              !(Column(tableau.columns, v) <= {tableau.objective}))
    {
      subject := None;
      var foundUnrestricted, foundNewRestricted := false, false;
      var todo := expression.terms.Keys;
      while todo != {}
        invariant todo <= expression.terms.Keys
        invariant foundUnrestricted ==>
          subject.Some? && subject.value in expression.terms && subject.value.IsClient()
        invariant !foundUnrestricted ==> forall v <- expression.terms.Keys - todo :: v.IsRestricted()
        invariant !foundUnrestricted && subject.Some? ==>
          && foundNewRestricted && subject.value in expression.terms && subject.value.IsPivotable()
          && expression.terms[subject.value] < 0.0
          && Column(tableau.columns, subject.value) <= {tableau.objective}
        invariant subject.None? ==> !foundNewRestricted
        invariant subject.None? ==> forall v <- expression.terms.Keys - todo ::
          v.IsPivotable() && expression.terms[v] < 0.0 ==> !(Column(tableau.columns, v) <= {tableau.objective})
      {
        var v :| v in todo;
        todo := todo - {v};
        if foundUnrestricted {
          if !v.IsRestricted() && v !in tableau.columns {
            return Some(v);
          }
        } else if v.IsRestricted() {
          if !foundNewRestricted && !v.IsDummy() && expression.terms[v] < 0.0 {
            if Column(tableau.columns, v) <= {tableau.objective} {
              subject, foundNewRestricted := Some(v), true;
            }
          }
        } else {
          subject, foundUnrestricted := Some(v), true;
        }
      }
    }

    /** `tryAddingDirectly:` */
    method TryAddingDirectly(expression: Expr) returns (added: bool, ghost subject: Variable, ghost e: Expr)
      requires tableau.Valid() && tableau.objective.kind.Objective?
      requires ZeroFree(expression) && expression.constant >= 0.0
      requires forall v <- expression.terms :: v !in tableau.rows && (v.IsClient() || v.IsRestricted())
      modifies tableau
      ensures tableau.Valid() && tableau.objective == old(tableau.objective)
      ensures e == expression || e == Scale(expression, -1.0)
      ensures added ==>
        && ValidSubject(old(tableau.rows), e, subject) && subject in e.terms && ZeroFree(e)
        && e.terms.Keys == expression.terms.Keys
        && tableau.rows == Enter(old(tableau.rows), e, subject)
        && tableau.Known() <= old(tableau.Known()) + expression.terms.Keys
        && tableau.columns.Keys <= old(tableau.columns).Keys + expression.terms.Keys
      ensures !added ==>
        && tableau.rows == old(tableau.rows) && tableau.columns == old(tableau.columns)
        && OnlyRestricted(expression)
        && (forall v <- expression.terms :: v.IsPivotable() && expression.terms[v] < 0.0 ==>
              !(Column(tableau.columns, v) <= {tableau.objective}))
        && ((exists v <- expression.terms :: v.IsPivotable()) || expression.constant != 0.0
            || forall v <- expression.terms :: v in tableau.columns)
    {
      hide Solved;
      hide IndexOutside;
      hide ExternalTermsRecorded;
      hide NewSubject;
      hide SubstituteAll;
      hide Scale;
      var choice, chosen := ChooseSubject(expression);
      e := chosen;
      if choice.None? {
        return false, tableau.objective, e;
      }
      subject := choice.value;
      ScaleZeroFree(expression, -1.0);
      NewSubjectSolved(e, subject);
      var row := NewSubject(chosen, choice.value);
      LooseMore(tableau.rows, tableau.externalParametricVariables, tableau.columns.Keys, row.terms.Keys);
      if choice.value in tableau.columns {
        tableau.SubstituteOut(choice.value, row);
      } else {
        SubstituteNowhere(tableau.rows, tableau.columns, choice.value, row);
        NotRecorded(tableau.rows, tableau.externalParametricVariables, tableau.columns.Keys, choice.value);
      }
      tableau.AddRow(choice.value, row);
      added := true;
    }

    /** The state between entering the artificial rows and taking them out again. */
    ghost predicate Phase(w: Variable, a: Variable, equation: Expr)
      reads this`goal, this`equations, tableau
    {
      && tableau.Valid() && tableau.objective.kind.Objective? && w.kind.Objective? && a.kind.Slack?
      && tableau.objective in tableau.rows && w in tableau.rows && w != tableau.objective
      && Twins(tableau.rows, w, a)
      && Represents(tableau.rows, tableau.objective, goal,
                    equations[w := With(equation, w, -1.0)][a := With(equation, a, -1.0)])
      && (forall r <- tableau.rows :: r.kind.Objective? ==> r == tableau.objective || r == w)
      && (forall v <- tableau.columns :: !v.kind.Objective?)
    }

    lemma PhaseIsValid(w: Variable, a: Variable, equation: Expr)
      requires Phase(w, a, equation)
      ensures tableau.Valid() && Solved(tableau.rows)
    {}

    /** The two artificial variables and the equation are apart from everything else. */
    ghost predicate Apart(w: Variable, a: Variable, equation: Expr)
      reads this`goal, this`equations, tableau
    {
      && Keyed(equations) && w != a && tableau.objective != a && w != tableau.objective
      && w !in equations && a !in equations && !Mentions(equations, w) && !Mentions(equations, a)
      && w !in equation.terms && a !in equation.terms && w !in goal.terms && a !in goal.terms
      && tableau.objective !in goal.terms && tableau.objective !in equation.terms
      && !Mentions(equations, tableau.objective) && tableau.objective !in equations
      && forall k <- equations :: k !in equation.terms
    }

    /** Enter the artificial objective and the artificial variable with the same row. */
    method EnterArtificial(expression: Expr, ghost equation: Expr) returns (w: Variable, a: Variable)
      requires Valid() && ZeroFree(expression)
      requires forall v <- expression.terms :: v !in tableau.rows && Before(v, created) && !v.kind.Objective?
      requires forall v <- equation.terms :: Before(v, created) && !v.kind.Objective?
      requires forall k <- equations :: k !in equation.terms
      requires forall s: Valuation :: Sat(tableau.rows, s) ==> Eval(expression, s) == Eval(equation, s)
      modifies this`created, tableau
      ensures created == old(created) + 2 && tableau.objective == old(tableau.objective)
      ensures a == Variable(Slack, old(created)) && w == Variable(Objective, old(created) + 1)
      ensures Phase(w, a, equation) && Apart(w, a, equation)
      ensures tableau.rows == old(tableau.rows)[w := expression][a := expression]
      ensures tableau.Known() <= old(tableau.Known()) + expression.terms.Keys + {w, a}
      ensures tableau.columns.Keys <= old(tableau.columns).Keys + expression.terms.Keys
    {
      hide Sat;
      hide Eval;
      hide Solved;
      hide IndexOutside;
      hide ExternalTermsRecorded;
      hide ExternalRowsMatch;
      hide Represents;
      a := Variable(Slack, created);
      w := Variable(Objective, created + 1);
      ArtificialIsNew(tableau.rows, tableau.columns, goal, equations, created, a, w);
      hide Numbered;
      hide Mentions;
      created := created + 2;
      ghost var rows, z := tableau.rows, tableau.objective;
      tableau.NewAwaits(w, expression.terms.Keys);
      tableau.AddRow(w, expression);
      NewRowRepresents(rows, z, goal, equations, w, expression, equation);
      ghost var more := rows[w := expression];
      tableau.NewAwaits(a, expression.terms.Keys);
      tableau.AddRow(a, expression);
      forall s: Valuation | Sat(more, s) ensures Eval(expression, s) == Eval(equation, s) {
        SatExtended(rows, w, expression, s);
      }
      PhaseApart(equations, w, a, equation);
      NewRowRepresents(more, z, goal, equations[w := With(equation, w, -1.0)], a, expression, equation);
      forall s: Valuation | Sat(tableau.rows, s) ensures s(w) == s(a) {
        SatRow(tableau.rows, w, s);
        SatRow(tableau.rows, a, s);
      }
    }

    /** The artificial objective reached zero: take the artificial variable out again, first
        making it a parameter if need be.  Fails when the source would pivot on nil. */
    method Withdraw(w: Variable, a: Variable, ghost m: Variable, ghost equation: Expr) returns (ok: bool)
      requires Phase(w, a, equation) && Apart(w, a, equation) && m !in equations
      requires tableau.rows[w].constant == 0.0
      modifies tableau
      ensures tableau.Valid() && tableau.objective == old(tableau.objective)
      ensures ok ==>
        && Represents(tableau.rows, tableau.objective, goal, equations[m := equation])
        && tableau.objective in tableau.rows
        && (forall r <- tableau.rows :: r.kind.Objective? ==> r == tableau.objective)
        && (forall v <- tableau.columns :: !v.kind.Objective?)
        && tableau.Known() <= old(tableau.Known())
        && (old(Sound(tableau.rows)) ==> Sound(tableau.rows))
      ensures !ok ==> tableau.rows == old(tableau.rows) && Immovable(tableau.rows, a)
    {
      hide Sat;
      hide Solved;
      hide IndexOutside;
      hide ExternalTermsRecorded;
      hide ExternalRowsMatch;
      hide Represents;
      hide Keyed;
      hide Mentions;
      hide Sound;
      hide RowAlgebra.Pivot;
      ghost var z := tableau.objective;
      NonZeroLeavesArtificial(tableau.rows, w, a);
      if a in tableau.rows {
        var row := tableau.rows[a];
        if row.terms == map[] {
          ghost var rows := tableau.rows;
          var r0 := tableau.RemoveRow(a);
          var r1 := tableau.RemoveRow(w);
          DropObjective(rows, w, a, z, goal, equations, equation);
          assert tableau.rows == rows - {w} - {a};
          DropArtificial(rows - {w}, a, z, goal, equations, m, equation, tableau.rows);
          if Sound(rows) {
            FewerRowsSound(rows, a);
            FewerRowsSound(rows - {a}, w);
          }
          return true;
        }
        var entry := AnyPivotable(row);
        if entry.None? {
          return false;
        }
        SolvedRow(tableau.rows, a);
        PivotKeys(tableau.rows, entry.value, a);
        PivotRepresents(tableau.rows, entry.value, a, z, goal,
                        equations[w := With(equation, w, -1.0)][a := With(equation, a, -1.0)]);
        if Sound(tableau.rows) {
          DegeneratePivotSound(tableau.rows, entry.value, a);
        }
        tableau.Pivot(entry.value, a);
      }
      ghost var rows := tableau.rows;
      DropObjective(rows, w, a, z, goal, equations, equation);
      var r2 := tableau.RemoveRow(w);
      tableau.RemoveColumn(a);
      DropArtificial(rows - {w}, a, z, goal, equations, m, equation, tableau.rows);
      if Sound(rows) {
        FewerRowsSound(rows, w);
        FewerTermsSound(rows - {w}, a, tableau.rows);
      }
      return true;
    }

    method AnyPivotable(row: Expr) returns (found: Option<Variable>)
      ensures found.Some? ==> found.value in row.terms && found.value.IsPivotable()
      ensures found.None? ==> forall v <- row.terms :: !v.IsPivotable()
    {
      var todo := row.terms.Keys;
      while todo != {}
        invariant todo <= row.terms.Keys
        invariant forall v <- row.terms :: v !in todo ==> !v.IsPivotable()
      {
        var v :| v in todo;
        todo := todo - {v};
        if v.IsPivotable() {
          return Some(v);
        }
      }
      return None;
    }

    /** The artificial objective stays positive.  The source removes its row and the column
        of the artificial variable; that variable is basic, so its row stays behind. */
    method Abandon(w: Variable, a: Variable, ghost equation: Expr)
      requires Phase(w, a, equation) && Apart(w, a, equation)
      requires tableau.rows[w].constant != 0.0
      modifies tableau
      ensures tableau.Valid() && tableau.objective == old(tableau.objective)
      ensures Represents(tableau.rows, tableau.objective, goal, equations[a := With(equation, a, -1.0)])
      ensures a in tableau.rows && tableau.rows == old(tableau.rows) - {w}
      ensures tableau.objective in tableau.rows
      ensures forall r <- tableau.rows :: r.kind.Objective? ==> r == tableau.objective
      ensures forall v <- tableau.columns :: !v.kind.Objective?
      ensures tableau.Known() <= old(tableau.Known())
    {
      hide Sat;
      hide IndexOutside;
      hide ExternalTermsRecorded;
      hide ExternalRowsMatch;
      hide Represents;
      hide Keyed;
      hide Mentions;
      NonZeroLeavesArtificial(tableau.rows, w, a);
      DropObjective(tableau.rows, w, a, tableau.objective, goal, equations, equation);
      var raised := tableau.RemoveRow(w);
      ghost var rows := tableau.rows;
      tableau.RemoveColumn(a);
      forall r | r in rows ensures tableau.rows[r] == rows[r] {
        assert rows[r].terms - {a} == rows[r].terms;
      }
      assert tableau.rows == rows;
    }

    /** `addWithArtificialVariable:`.  The row left behind by a refused equation refutes it. */
    method AddWithArtificial(expression: Expr, ghost m: Variable, ghost equation: Expr, fuel: nat)
      returns (result: AddResult, ghost a: Variable, ghost t: Stretch)
      requires Valid() && ZeroFree(expression) && OnlyRestricted(expression) && expression.constant >= 0.0
      requires forall v <- expression.terms :: v !in tableau.rows && Before(v, created)
      requires forall v <- equation.terms :: Before(v, created) && !v.kind.Objective?
      requires forall k <- equations :: k !in equation.terms
      requires m.IsRestricted() && m !in equations && m in equation.terms && !Mentions(equations, m)
      requires Coef(equation, m) != 0.0
      requires forall s: Valuation :: Sat(tableau.rows, s) ==> Eval(expression, s) == Eval(equation, s)
      requires (exists v <- expression.terms :: v.IsPivotable()) || expression.constant != 0.0
      modifies this`created, this`equations, tableau
      ensures created == old(created) + 2 && tableau.objective == old(tableau.objective)
      ensures tableau.Valid()
      ensures result.Added? ==> Valid() && equations == old(equations)[m := equation]
      ensures result.Unsatisfiable? ==>
        && Valid() && a == Variable(Slack, old(created)) && a in tableau.rows && old(created) < created
        && equations == old(equations)[a := With(equation, a, -1.0)]
      ensures result.Unsatisfiable? && old(Sound(tableau.rows)) ==>
        Refutes(tableau.rows[a], old(equations), equation)
      ensures old(Sound(tableau.rows)) ==>
        && (result.Added? || result.Unsatisfiable? ==> Sound(tableau.rows))
        && (result.Failed? ==> result.outcome.Interrupted?)
      ensures result.Failed? ==>
        && a == Variable(Slack, old(created)) && t.z == Variable(Objective, old(created) + 1)
        && t.rows == old(tableau.rows)[t.z := expression][a := expression]
        && Ends(t, fuel, result.outcome, tableau.rows) && (result.outcome.Optimal? ==> Immovable(tableau.rows, a))
      ensures !result.Failed? ==>
        Externals(tableau.Known()) <= Externals(old(tableau.Known()) + expression.terms.Keys)
    {
      hide Ends;
      hide Immovable;
      hide Sat;
      hide Eval;
      hide Solved;
      hide IndexOutside;
      hide ExternalTermsRecorded;
      hide ExternalRowsMatch;
      hide Represents;
      hide Keyed;
      hide Mentions;
      hide Sound;
      hide Numbered;
      hide Stopped;
      hide Valid;
      hide Phase;
      hide Apart;
      Stated();
      ghost var sound := Sound(tableau.rows);
      ghost var first, known := created, tableau.Known();
      var w, art := EnterArtificial(expression, equation);
      a := art;
      ghost var entered := tableau.rows;
      if sound {
        NewRowsSound(old(tableau.rows), w, art, expression);
      }
      var outcome;
      ghost var run;
      PhaseIsValid(w, art, equation);
      outcome, run := OptimizePhase(w, art, equation, fuel);
      PhaseIsValid(w, art, equation);
      t := Stretch(entered, w, run);
      if !outcome.Optimal? {
        return Failed(outcome), a, t;
      }
      ghost var optimised := tableau.rows;
      result := Settle(w, art, m, equation, known, first);
      if sound && result.Failed? {
        MovesWhenSound(entered, expression, art, optimised);
      }
    }

    /** `addConstraintToTableau:`.  When the constraint cannot be met, the row of the artificial
        variable stays in the table and the entry records what it still demands. */
    method AddConstraintToTableau(c: Constraint, fuel: nat)
      returns (result: AddResult, ghost e: Entry, ghost t: Stretch)
      requires Valid() && Booked()
      requires forall v <- c.expression.terms :: v.IsClient()
      modifies this, tableau
      ensures tableau.objective == old(tableau.objective) && created >= old(created) && values == old(values)
      ensures e.c == c && e.offset == 0.0 && e.Key() !in old(entries)
      ensures !result.Failed? ==>
        && Valid() && Booked() && entries == Changed(old(entries), Entered(e))
        && equations == old(equations)[e.Key() := e.Equation()]
      ensures result.Added? ==>
        && e.artificial.None? && markerVariables == old(markerVariables)[c := e.marker]
        && goal == AddErrors(old(goal), e.errors, c.strength)
        && editInfos == old(editInfos) + NewInfo(old(editInfos), c, e.marker, e.errors, old(values))
      ensures result.Unsatisfiable? ==>
        && c.IsRequired() && e.artificial.Some? && (c.IsInequality() ==> e.negated)
        && markerVariables == old(markerVariables) && errorVariables == old(errorVariables) && goal == old(goal)
        && editInfos == old(editInfos) && e.artificial.value in tableau.rows
      ensures result.Unsatisfiable? && old(Sound(tableau.rows)) ==>
        && Refutes(tableau.rows[e.artificial.value], old(equations), e.Signed())
        && (Optimised(tableau.rows[e.artificial.value]) ==>
              forall t: Valuation :: Allowed(old(entries), t) ==> !c.SatisfiedBy(t))
      ensures !c.IsRequired() ==> result.Added?
      ensures old(Covered()) && !result.Failed? ==> Covered()
      ensures old(Sound(tableau.rows)) ==>
        && (result.Failed? ==> result.outcome.Interrupted?)
        && (!result.Failed? ==> Sound(tableau.rows))
      ensures result.Failed? ==> ArtificialPhase(old(tableau.rows), t) && Ends(t, fuel, result.outcome, tableau.rows)
    {
      hide Ends;
      hide Immovable;
      hide Sound;
      hide Represents;
      hide Registered;
      hide Holds;
      hide Numbered;
      hide AddErrors;
      hide BooksMatch;
      hide InfosFit;
      hide OwnFresh;
      hide Externals;
      hide CoveredBy;
      hide Valid;
      hide Allowed;
      hide Refutes;
      hide Optimised;
      hide Entry.Equation;
      hide Entry.Signed;
      hide NewInfo;
      ghost var before, eqs, first, known := goal, equations, created, tableau.Known();
      ghost var was, listed := entries, externalVariables;
      var expression, marker, errors;
      expression, marker, errors, e := Prepare(c);
      ghost var last, mid := created, tableau.Known();
      ghost var leftover;
      result, leftover, t := EnterExpression(expression, marker, e.Equation(), fuel);
      if result.Failed? {
        RegisterKeeps(was, before, eqs, first, last, e);
        return;
      }
      FreshEntryLater(e, first, last, created);
      if result.Unsatisfiable? {
        if Sound(old(tableau.rows)) && Optimised(tableau.rows[leftover]) {
          RefusedForAll(tableau.rows[leftover], was, before, eqs, first, e, last);
        }
        e := Leftover(e, leftover, first, last, created);
      }
      if CoveredBy(known, was, listed) {
        CoverKeeps(known, mid, tableau.Known(), was, e, expression.terms.Keys, listed, externalVariables);
      }
      Record(result.Added?, c, marker, errors, e, before, eqs, first);
    }

    /** Enter the constraint in the tables, if it was added, and its equation in the entries. */
    method Record(added: bool, c: Constraint, marker: Variable, errors: seq<Variable>,
                  ghost e: Entry, ghost before: Expr, ghost eqs: Equations, ghost first: nat)
      requires BooksMatch(markerVariables, errorVariables, entries) && Registered(entries, before, eqs, first)
      requires InfosFit(entries, first, editInfos) && Numbered({}, before, eqs, first) && first <= created
      requires OwnFresh(e, first, created) && e.c == c && e.offset == 0.0
        && forall v <- c.expression.terms :: v.IsClient()
      requires goal == AddErrors(before, e.errors, c.strength) && equations == eqs[e.Key() := e.Equation()]
      requires added ==>
        && e.artificial.None? && e.marker == marker && e.errors == errors
        && (errors == [] <==> c.IsRequired())
      modifies this`entries, this`markerVariables, this`errorVariables, this`editInfos
      ensures Booked() && e.Key() !in old(entries) && entries == Changed(old(entries), Entered(e))
      ensures added ==>
        && markerVariables == old(markerVariables)[c := marker]
        && editInfos == old(editInfos) + NewInfo(old(editInfos), c, marker, errors, values)
      ensures !added ==>
        markerVariables == old(markerVariables) && errorVariables == old(errorVariables) && editInfos == old(editInfos)
    {
      hide Registered;
      hide Numbered;
      hide AddErrors;
      hide BooksMatch;
      hide InfosFit;
      hide OwnFresh;
      hide Entry.Equation;
      hide NewInfo;
      RegisterKeeps(entries, before, eqs, first, created, e);
      InfosEnter(entries, first, created, editInfos, e);
      ghost var was := entries;
      entries := Changed(entries, Entered(e));
      if added {
        BooksUpdate(markerVariables, errorVariables, was, e);
        markerVariables := markerVariables[c := marker];
        if errors != [] {
          errorVariables := errorVariables[c := errors];
        }
        NewInfoFits(entries, first, created, editInfos, e, values);
        editInfos := editInfos + NewInfo(editInfos, c, marker, errors, values);
      } else {
        BooksOrphan(markerVariables, errorVariables, was, e);
      }
    }

    /** `expressionForNewConstraint:` with what the entry of its expression rests on. */
    method Prepare(c: Constraint) returns (expression: Expr, marker: Variable, errors: seq<Variable>, ghost e: Entry)
      requires Valid()
      requires forall v <- c.expression.terms :: v.IsClient()
      modifies this`externalVariables, this`created, this`goal, tableau
      ensures Valid() && tableau.objective == old(tableau.objective)
      ensures e == Entry(c, marker, errors, 0.0, e.negated, None) && (errors == [] <==> c.IsRequired())
      ensures OwnFresh(e, old(created), created) && created >= old(created) && e.Signed() == e.Equation()
      ensures ZeroFree(expression) && expression.constant >= 0.0 && marker in expression.terms
      ensures forall v <- expression.terms ::
        && v !in tableau.rows && (v.IsClient() || v.IsRestricted())
        && Before(v, created)
      ensures forall v <- e.Equation().terms :: Before(v, created) && !v.kind.Objective?
      ensures forall k <- equations :: k !in e.Equation().terms
      ensures marker.IsRestricted() && marker !in equations && !Mentions(equations, marker)
      ensures Coef(e.Equation(), marker) != 0.0 && marker.serial < created
      ensures marker.IsPivotable() || marker !in tableau.columns
      ensures forall s: Valuation :: Sat(tableau.rows, s) ==> Eval(expression, s) == Eval(e.Equation(), s)
      ensures goal == AddErrors(old(goal), errors, c.strength) && (c.IsRequired() ==> goal == old(goal))
      ensures c.IsRequired() ==> tableau.rows == old(tableau.rows)
      ensures !c.IsRequired() || (c.IsInequality() && !e.negated) ==>
        exists v <- expression.terms :: v.IsPivotable() && expression.terms[v] < 0.0 &&
          Column(tableau.columns, v) <= {tableau.objective}
      ensures old(Sound(tableau.rows)) ==> Sound(tableau.rows)
      ensures Numbered({}, old(goal), equations, old(created))
      ensures old(externalVariables) <= externalVariables
      ensures forall v <- c.expression.terms :: v.IsExternal() ==> v in externalVariables || v in old(tableau.rows)
      ensures forall v <- expression.terms :: v.IsExternal() ==> v in externalVariables || v in old(tableau.columns)
      ensures Externals(tableau.Known()) <= Externals(old(tableau.Known()))
    {
      hide Sound;
      hide Represents;
      hide IsAugmented;
      hide Keyed;
      hide Mentions;
      hide Solved;
      hide IndexOutside;
      hide ExternalTermsRecorded;
      hide ExternalRowsMatch;
      hide Sat;
      hide Eval;
      hide Numbered;
      hide Entry.Equation;
      hide Entry.Signed;
      ghost var known, first, before := tableau.Known(), created, goal;
      ghost var equation;
      expression, marker, errors, equation := ExpressionForNewConstraint(c);
      e := EntryOf(c, marker, errors, equation);
      EntryReady(known, before, equations, first, created, e, expression);
      OwnCoefs(e, first, created);
      if old(Sound(tableau.rows)) {
        ObjectiveOnlySound(old(tableau.rows), tableau.rows, tableau.objective, errors);
      }
      if c.IsRequired() && c.IsInequality() && !e.negated {
        assert expression.terms[marker] < 0.0 && Column(tableau.columns, marker) == {};
      }
    }

    /** The two ways `addConstraintToTableau:` has of entering the expression. */
    method EnterExpression(expression: Expr, ghost m: Variable, ghost equation: Expr, fuel: nat)
      returns (result: AddResult, ghost a: Variable, ghost t: Stretch)
      requires Valid() && ZeroFree(expression) && expression.constant >= 0.0
      requires forall v <- expression.terms ::
        && v !in tableau.rows && (v.IsClient() || v.IsRestricted())
        && Before(v, created)
      requires forall v <- equation.terms :: Before(v, created) && !v.kind.Objective?
      requires forall k <- equations :: k !in equation.terms
      requires m !in equations && m in equation.terms && !Mentions(equations, m) && Coef(equation, m) != 0.0
      requires forall s: Valuation :: Sat(tableau.rows, s) ==> Eval(expression, s) == Eval(equation, s)
      requires m in expression.terms && m.IsRestricted() && (m.IsPivotable() || m !in tableau.columns)
      modifies this`created, this`equations, tableau
      ensures created >= old(created) && tableau.objective == old(tableau.objective)
      ensures result.Added? ==> Valid() && equations == old(equations)[m := equation]
      ensures result.Unsatisfiable? ==>
        && Valid() && a == Variable(Slack, old(created)) && a in tableau.rows && old(created) < created
        && equations == old(equations)[a := With(equation, a, -1.0)]
      ensures result.Unsatisfiable? && old(Sound(tableau.rows)) ==>
        Refutes(tableau.rows[a], old(equations), equation)
      ensures (exists v <- expression.terms :: v.IsPivotable() && expression.terms[v] < 0.0 &&
                 Column(old(tableau.columns), v) <= {old(tableau.objective)}) ==> result.Added?
      ensures old(Sound(tableau.rows)) ==>
        && (result.Added? || result.Unsatisfiable? ==> Sound(tableau.rows))
        && (result.Failed? ==> result.outcome.Interrupted?)
      ensures result.Failed? ==>
        && a == Variable(Slack, old(created)) && t.z == Variable(Objective, old(created) + 1)
        && t.rows == old(tableau.rows)[t.z := expression][a := expression]
        && Ends(t, fuel, result.outcome, tableau.rows) && (result.outcome.Optimal? ==> Immovable(tableau.rows, a))
      ensures !result.Failed? ==>
        Externals(tableau.Known()) <= Externals(old(tableau.Known()) + expression.terms.Keys)
    {
      hide Ends;
      hide Immovable;
      hide Sat;
      hide Eval;
      hide Holds;
      hide Solved;
      hide IndexOutside;
      hide ExternalTermsRecorded;
      hide ExternalRowsMatch;
      hide Represents;
      hide Keyed;
      hide Mentions;
      hide Sound;
      hide Numbered;
      hide ValidSubject;
      hide Enter;
      ghost var rows, eqs, known := tableau.rows, equations, tableau.Known();
      var added;
      ghost var subject, e;
      added, subject, e := TryAddingDirectly(expression);
      a, t := m, Stretch(rows, m, []);
      if added {
        DirectRepresents(rows, tableau.objective, goal, eqs, expression, e, subject, m, equation);
        EnterKeys(rows, e, subject);
        MarkerEntry(known, tableau.Known(), goal, eqs, m, tableau.objective, equation, created, created);
        if Sound(rows) {
          EnterSound(rows, e, subject);
        }
        equations := equations[m := equation];
        result := Added;
      } else {
        result, a, t := AddWithArtificial(expression, m, equation, fuel);
      }
    }

    /** What follows the optimisation of the artificial objective. */
    method Settle(w: Variable, a: Variable, ghost m: Variable, ghost equation: Expr, ghost known: set<Variable>,
                  ghost first: nat)
      returns (result: AddResult)
      requires Phase(w, a, equation) && Apart(w, a, equation) && Stopped(tableau.rows[w])
      requires Numbered(known, goal, equations, first) && first <= created && Before(a, created)
      requires forall v <- tableau.Known() :: v in known || Before(v, created)
      requires forall v <- equation.terms :: Before(v, created)
      requires ZeroFree(goal) && forall v <- goal.terms :: v.kind.Slack?
      requires m.IsRestricted() && m !in equations && m in equation.terms && !Mentions(equations, m)
      requires Coef(equation, m) != 0.0
      modifies this`equations, tableau
      ensures tableau.Valid() && tableau.objective == old(tableau.objective)
      ensures result.Added? ==> Valid() && equations == old(equations)[m := equation]
      ensures result.Unsatisfiable? ==>
        Valid() && a in tableau.rows && equations == old(equations)[a := With(equation, a, -1.0)]
      ensures result.Unsatisfiable? && old(Sound(tableau.rows)) ==>
        Refutes(tableau.rows[a], old(equations), equation)
      ensures result.Failed? ==>
        result.outcome.Optimal? && tableau.rows == old(tableau.rows) && Immovable(tableau.rows, a)
      ensures old(Sound(tableau.rows)) && !result.Failed? ==> Sound(tableau.rows)
      ensures !result.Failed? ==> tableau.Known() <= old(tableau.Known())
    {
      hide Sat;
      hide Eval;
      hide Holds;
      hide Solved;
      hide IndexOutside;
      hide ExternalTermsRecorded;
      hide ExternalRowsMatch;
      hide Represents;
      hide Keyed;
      hide Mentions;
      hide Sound;
      hide Numbered;
      hide Stopped;
      ghost var rows, eqs := tableau.rows, equations;
      if tableau.rows[w].constant != 0.0 {
        if Sound(rows) {
          Refuted(rows, w, a, tableau.objective, goal, eqs, equation);
          FewerRowsSound(rows, w);
        }
        Abandon(w, a, equation);
        ArtificialEntry(known, tableau.Known(), goal, eqs, w, a, tableau.objective, equation, first, created);
        equations := equations[a := With(equation, a, -1.0)];
        return Unsatisfiable;
      }
      var ok := Withdraw(w, a, m, equation);
      if !ok {
        return Failed(Optimal);
      }
      MarkerEntry(known, tableau.Known(), goal, eqs, m, tableau.objective, equation, first, created);
      equations := equations[m := equation];
      return Added;
    }

    /** One turn of the loop of `removeConstraintFromTableau:` that takes the error variables
        out of the objective. */
    method RemoveErrorVariable(v: Variable, weight: real)
      requires Valid() && v.kind.Slack? && v.serial < created
      modifies tableau, this`goal
      ensures Valid() && tableau.objective == old(tableau.objective)
      ensures goal == AddTerm(old(goal), v, -weight)
      ensures ObjectiveMoved(old(tableau.rows), tableau.rows, tableau.objective)
      ensures tableau.columns.Keys <= old(tableau.columns).Keys + {v}
    {
      hide Sat;
      hide Eval;
      hide Solved;
      hide IndexOutside;
      hide ExternalTermsRecorded;
      hide ExternalRowsMatch;
      hide Mul;
      hide Represents;
      hide Keyed;
      hide Mentions;
      hide Numbered;
      hide AddTerm;
      ghost var rows, z, known := tableau.rows, tableau.objective, tableau.Known();
      if v !in tableau.rows {
        tableau.AddVariable(v, -weight, tableau.objective);
        forall s: Valuation | Sat(rows - {z}, s)
          ensures Eval(tableau.rows[z], s) == Eval(rows[z], s) + Mul(-weight, s(v))
        {
          EvalAddTerm(rows[z], v, -weight, s);
        }
      } else {
        SolvedRow(rows, v);
        TermsHaveColumns(rows, tableau.columns, v);
        var row := tableau.rows[v];
        tableau.AddExpression(row, -weight, tableau.objective);
        forall s: Valuation | Sat(rows - {z}, s)
          ensures Eval(tableau.rows[z], s) == Eval(rows[z], s) + Mul(-weight, s(v))
        {
          EvalMultiple(rows[z], row, -weight, tableau.rows[z], s);
          SatRow(rows - {z}, v, s);
        }
      }
      TermsHaveColumns(tableau.rows, tableau.columns, z);
      assert tableau.rows == rows[z := tableau.rows[z]];
      GoalStep(rows, z, tableau.rows[z], v, -weight, goal, equations, known, tableau.Known(), created);
      goal := AddTerm(goal, v, -weight);
    }

    /** `removeConstraintFromTableau:`; `raised` stands for the exception on a constraint that
        was never added.  `exit` is the row the marker was pivoted into, if any.  With the
        invariant in place before, the basic solution stays admissible unless the table is
        stranded, and the invariant itself is kept unless a row that is not a dummy leaves
        while a dummy row mentions the marker. */
    method RemoveConstraintFromTableau(c: Constraint) returns (raised: bool, ghost exit: Option<Variable>)
      requires Valid() && Booked()
      modifies this, tableau
      ensures Valid() && Booked() && tableau.objective == old(tableau.objective)
      ensures editInfos == old(editInfos) && values == old(values)
      ensures raised <==> c !in old(markerVariables)
      ensures raised ==> tableau.rows == old(tableau.rows) && equations == old(equations) && goal == old(goal)
      ensures markerVariables == old(markerVariables) - {c} && errorVariables == old(errorVariables) - {c}
      ensures raised ==> entries == old(entries)
      ensures !raised ==>
        var m := old(markerVariables)[c];
        && m in old(entries) && entries == Changed(old(entries), Left(m)) && equations == old(equations) - {m}
        && goal == AddErrors(old(goal), old(entries)[m].errors, -c.strength)
      ensures !raised && old(Sound(tableau.rows)) ==>
        var m, rows := old(markerVariables)[c], old(tableau.rows);
        && (exit.None? <==> m in rows)
        && (exit.Some? ==> MarkerExit(rows, tableau.objective, m, exit.value))
        && (Feasible(tableau.rows) <==> exit.None? || !Stranded(rows, m))
        && (Sound(tableau.rows) <==>
              exit.None? || exit.value.kind.Dummy? || forall d <- rows :: d.kind.Dummy? ==> m !in rows[d].terms)
      ensures old(Covered()) ==> Covered()
    {
      hide Represents;
      hide Mentions;
      hide Registered;
      hide RowAlgebra.Pivot;
      hide AddErrors;
      hide Sound;
      hide Feasible;
      hide Valid;
      hide CoveredBy;
      hide InfosFit;
      hide BooksMatch;
      hide Stranded;
      hide MarkerExit;
      exit := None;
      if c !in markerVariables {
        NotBooked(markerVariables, errorVariables, entries, c);
        return true, exit;
      }
      var marker := markerVariables[c];
      var errors := ErrorsOf(errorVariables, c);
      ghost var known := tableau.Known();
      BookEntry(markerVariables, errorVariables, entries, c);
      Unregister(entries, goal, equations, created, marker);
      ghost var before, eqs := goal, equations;
      exit := TakeOut(marker, errors, c.strength);
      if CoveredBy(known, entries, externalVariables) {
        CoverLess(known, tableau.Known(), errors, entries, marker, externalVariables);
      }
      Forget(c, before, eqs);
      raised := false;
    }

    /** Take a constraint out of the tables, and its equation out of the entries. */
    method Forget(c: Constraint, ghost before: Expr, ghost eqs: Equations)
      requires BooksMatch(markerVariables, errorVariables, entries) && InfosFit(entries, created, editInfos)
      requires Registered(entries, before, eqs, created) && c in markerVariables && markerVariables[c] in entries
      requires equations == eqs - {markerVariables[c]}
      requires goal == AddErrors(before, entries[markerVariables[c]].errors, -c.strength)
      modifies this`entries, this`markerVariables, this`errorVariables
      ensures Booked() && entries == Changed(old(entries), Left(old(markerVariables)[c]))
      ensures markerVariables == old(markerVariables) - {c} && errorVariables == old(errorVariables) - {c}
    {
      hide Registered;
      hide AddErrors;
      hide InfosFit;
      hide BooksMatch;
      ghost var marker := markerVariables[c];
      BookEntry(markerVariables, errorVariables, entries, c);
      Unregister(entries, before, eqs, created, marker);
      InfosLeave(entries, before, eqs, created, editInfos, marker);
      BooksRemove(markerVariables, errorVariables, entries, c);
      markerVariables := markerVariables - {c};
      errorVariables := errorVariables - {c};
      entries := entries - {marker};
    }

    /** What `removeConstraintFromTableau:` does to the tableau. */
    method TakeOut(marker: Variable, errors: seq<Variable>, weight: real) returns (ghost exit: Option<Variable>)
      requires Valid() && marker in equations && marker.IsRestricted()
      requires forall v <- errors :: v.kind.Slack? && v.serial < created
      requires forall v | v == marker || v in errors ::
        v.IsRestricted() && !Mentions(equations - {marker}, v) && Coef(AddErrors(goal, errors, -weight), v) == 0.0
      modifies tableau, this`goal, this`equations
      ensures Valid() && tableau.objective == old(tableau.objective)
      ensures equations == old(equations) - {marker} && goal == AddErrors(old(goal), errors, -weight)
      ensures tableau.Known() <= old(tableau.Known()) + ToSet(errors)
      ensures old(Sound(tableau.rows)) ==>
        var rows := old(tableau.rows);
        && (exit.None? <==> marker in rows)
        && (exit.Some? ==> MarkerExit(rows, tableau.objective, marker, exit.value))
        && (Feasible(tableau.rows) <==> exit.None? || !Stranded(rows, marker))
        && (Sound(tableau.rows) <==>
              exit.None? || exit.value.kind.Dummy? || forall d <- rows :: d.kind.Dummy? ==> marker !in rows[d].terms)
    {
      hide Represents;
      hide Mentions;
      hide Solved;
      hide Numbered;
      hide RowAlgebra.Pivot;
      hide AddErrors;
      hide Sound;
      hide Feasible;
      hide Valid;
      ghost var rows := tableau.rows;
      RemoveErrorVariables(errors, weight);
      ghost var moved := tableau.rows;
      Stated();
      exit := ReleaseMarker(marker);
      RemoveOwnColumns(errors, marker);
      if Sound(rows) {
        Stated();
        Released(rows, moved, tableau.rows, tableau.objective, goal, equations, marker, exit);
      }
    }

    /** `removeColumn:` for the constraint's own variables: by now they occur nowhere. */
    method RemoveOwnColumns(errors: seq<Variable>, marker: Variable)
      requires Valid()
      requires forall v | v == marker || v in errors :: v.IsRestricted() && v !in goal.terms && !Mentions(equations, v)
      modifies tableau
      ensures Valid() && tableau.objective == old(tableau.objective)
      ensures tableau.rows == old(tableau.rows)
      ensures tableau.Known() <= old(tableau.Known())
    {
      hide Mentions;
      if marker in tableau.columns {
        RemoveUnusedColumn(marker);
      }
      for i := 0 to |errors|
        invariant Valid() && tableau.objective == old(tableau.objective)
        invariant tableau.rows == old(tableau.rows) && tableau.Known() <= old(tableau.Known())
      {
        hide Valid;
        if errors[i] != marker {
          RemoveUnusedColumn(errors[i]);
        }
      }
    }

    method RemoveUnusedColumn(v: Variable)
      requires Valid() && v.IsRestricted() && v !in goal.terms && !Mentions(equations, v)
      modifies tableau
      ensures Valid() && tableau.objective == old(tableau.objective)
      ensures tableau.rows == old(tableau.rows)
      ensures tableau.Known() <= old(tableau.Known())
    {
      hide Sat;
      hide Eval;
      hide Solved;
      hide IndexOutside;
      hide ExternalTermsRecorded;
      hide ExternalRowsMatch;
      hide Represents;
      hide Keyed;
      hide Mentions;
      hide Numbered;
      ghost var rows, known := tableau.rows, tableau.Known();
      UnmentionedIsAbsent(rows, tableau.objective, goal, equations, v);
      WithoutAbsent(rows, v);
      tableau.RemoveColumn(v);
      assert tableau.rows == rows;
      NumberedMore(known, tableau.Known(), goal, equations, created, created);
    }

    method RemoveErrorVariables(errors: seq<Variable>, weight: real)
      requires Valid() && forall v <- errors :: v.kind.Slack? && v.serial < created
      modifies tableau, this`goal
      ensures Valid() && tableau.objective == old(tableau.objective)
      ensures goal == AddErrors(old(goal), errors, -weight)
      ensures ObjectiveMoved(old(tableau.rows), tableau.rows, tableau.objective)
      ensures tableau.columns.Keys <= old(tableau.columns).Keys + ToSet(errors)
    {
      hide AddTerm;
      for i := 0 to |errors|
        invariant Valid() && tableau.objective == old(tableau.objective)
        invariant goal == AddErrors(old(goal), errors[..i], -weight)
        invariant ObjectiveMoved(old(tableau.rows), tableau.rows, tableau.objective)
        invariant tableau.columns.Keys <= old(tableau.columns).Keys + ToSet(errors)
      {
        hide Valid;
        assert errors[..i + 1][..i] == errors[..i];
        RemoveErrorVariable(errors[i], weight);
      }
      assert errors[..|errors|] == errors;
    }

    /** Make the marker basic if it is not, and remove its row. */
    method ReleaseMarker(m: Variable) returns (ghost exit: Option<Variable>)
      requires Valid() && m in equations && m !in goal.terms
      modifies tableau, this`equations
      ensures Valid() && tableau.objective == old(tableau.objective)
      ensures equations == old(equations) - {m}
      ensures exit.None? <==> m in old(tableau.rows)
      ensures exit.Some? ==> MarkerExit(old(tableau.rows), tableau.objective, m, exit.value)
      ensures tableau.rows ==
        (if exit.None? then old(tableau.rows) else RowAlgebra.Pivot(old(tableau.rows), m, exit.value)) - {m}
      ensures tableau.Known() <= old(tableau.Known())
    {
      hide Valid;
      hide MarkerExit;
      hide RowAlgebra.Pivot;
      exit := None;
      if m !in tableau.rows {
        exit := MakeBasic(m);
      }
      DropRow(m);
    }

    method MakeBasic(m: Variable) returns (exit: Option<Variable>)
      requires Valid() && m in equations && m !in tableau.rows
      modifies tableau
      ensures Valid() && tableau.objective == old(tableau.objective) && m in tableau.rows
      ensures exit.Some? && MarkerExit(old(tableau.rows), tableau.objective, m, exit.value)
      ensures tableau.rows == RowAlgebra.Pivot(old(tableau.rows), m, exit.value)
      ensures tableau.Known() <= old(tableau.Known())
    {
      hide Sat;
      hide Eval;
      hide Solved;
      hide IndexOutside;
      hide ExternalTermsRecorded;
      hide ExternalRowsMatch;
      hide Represents;
      hide Keyed;
      hide Mentions;
      hide Numbered;
      hide RowAlgebra.Pivot;
      ghost var known, z := tableau.Known(), tableau.objective;
      KeysAreRestricted(known, goal, equations, created);
      exit := ExitVariableForMarker(m);
      KeyHasRow(tableau.rows, z, goal, equations, m);
      PivotKeys(tableau.rows, m, exit.value);
      PivotRepresents(tableau.rows, m, exit.value, z, goal, equations);
      tableau.Pivot(m, exit.value);
      NumberedMore(known, tableau.Known(), goal, equations, created, created);
    }

    method DropRow(m: Variable)
      requires Valid() && m in equations && m !in goal.terms && m in tableau.rows
      modifies tableau, this`equations
      ensures Valid() && tableau.objective == old(tableau.objective)
      ensures equations == old(equations) - {m} && tableau.rows == old(tableau.rows) - {m}
      ensures tableau.Known() <= old(tableau.Known())
    {
      hide Sat;
      hide Eval;
      hide Solved;
      hide IndexOutside;
      hide ExternalTermsRecorded;
      hide ExternalRowsMatch;
      hide Represents;
      hide Keyed;
      hide Mentions;
      hide Numbered;
      ghost var known, eqs, z := tableau.Known(), equations, tableau.objective;
      KeysAreRestricted(known, goal, eqs, created);
      DropRowRepresents(tableau.rows, z, goal, equations, m);
      var raised := tableau.RemoveRow(m);
      FewerEquations(known, tableau.Known(), goal, eqs, m, z, created);
      equations := equations - {m};
    }

    /** `exitVariableForMarker:`; the three loops are the next three methods. */
    method ExitVariableForMarker(m: Variable) returns (exit: Option<Variable>)
      requires tableau.Valid() && tableau.objective.kind.Objective?
      ensures exit.Some? ==> MarkerExit(tableau.rows, tableau.objective, m, exit.value)
      ensures exit.None? ==> forall r <- tableau.rows :: r != tableau.objective ==> m !in tableau.rows[r].terms
    {
      ColumnIs(tableau.rows, tableau.columns, m);
      ColumnNonZero(tableau.rows, tableau.columns, m);
      if m !in tableau.columns {
        return None;
      }
      exit := SmallestDrained(m);
      if exit.None? {
        exit := SmallestRestricted(m);
        if exit.None? {
          exit := AnyOther(m);
        }
      }
    }

    method SmallestDrained(m: Variable) returns (exit: Option<Variable>)
      requires tableau.Valid()
      ensures exit.Some? ==>
        && Drains(tableau.rows, m, exit.value)
        && forall r :: Drains(tableau.rows, m, r) ==> Ratio(tableau.rows, m, exit.value) <= Ratio(tableau.rows, m, r)
      ensures exit.None? ==> forall r :: !Drains(tableau.rows, m, r)
    {
      ColumnIs(tableau.rows, tableau.columns, m);
      hide Solved;
      hide IndexOutside;
      exit := None;
      var minRatio := 0.0;
      var column := Column(tableau.columns, m);
      var todo := column;
      while todo != {}
        invariant todo <= column
        invariant exit.Some? ==> Drains(tableau.rows, m, exit.value) && minRatio == Ratio(tableau.rows, m, exit.value)
        invariant forall r :: Drains(tableau.rows, m, r) && r !in todo ==>
          exit.Some? && minRatio <= Ratio(tableau.rows, m, r)
      {
        var r :| r in todo;
        todo := todo - {r};
        if r.IsRestricted() && Coef(tableau.rows[r], m) < 0.0 {
          var ratio := -tableau.rows[r].constant / Coef(tableau.rows[r], m);
          if exit.None? || ratio < minRatio {
            minRatio, exit := ratio, Some(r);
          }
        }
      }
    }

    method SmallestRestricted(m: Variable) returns (exit: Option<Variable>)
      requires tableau.Valid()
      ensures exit.Some? ==>
        && Restricts(tableau.rows, m, exit.value)
        && forall r :: Restricts(tableau.rows, m, r) ==> Ratio(tableau.rows, m, r) <= Ratio(tableau.rows, m, exit.value)
      ensures exit.None? ==> forall r :: !Restricts(tableau.rows, m, r)
    {
      ColumnIs(tableau.rows, tableau.columns, m);
      ColumnNonZero(tableau.rows, tableau.columns, m);
      hide Solved;
      hide IndexOutside;
      exit := None;
      var minRatio := 0.0;
      var column := Column(tableau.columns, m);
      var todo := column;
      while todo != {}
        invariant todo <= column
        invariant exit.Some? ==>
          && Restricts(tableau.rows, m, exit.value)
          && minRatio == -Ratio(tableau.rows, m, exit.value)
        invariant forall r :: Restricts(tableau.rows, m, r) && r !in todo ==>
          exit.Some? && minRatio <= -Ratio(tableau.rows, m, r)
      {
        var r :| r in todo;
        todo := todo - {r};
        if r.IsRestricted() {
          var ratio := tableau.rows[r].constant / Coef(tableau.rows[r], m);
          QuotientNegated(tableau.rows[r].constant, Coef(tableau.rows[r], m));
          if exit.None? || ratio < minRatio {
            minRatio, exit := ratio, Some(r);
          }
        }
      }
    }

    method AnyOther(m: Variable) returns (exit: Option<Variable>)
      requires tableau.Valid()
      ensures exit.Some? ==> exit.value in Column(tableau.columns, m) && exit.value != tableau.objective
      ensures exit.None? ==> Column(tableau.columns, m) <= {tableau.objective}
    {
      exit := None;
      var todo := Column(tableau.columns, m);
      while todo != {}
        invariant todo <= Column(tableau.columns, m)
        invariant exit.Some? ==> exit.value in Column(tableau.columns, m) && exit.value != tableau.objective
        invariant exit.None? ==> Column(tableau.columns, m) - todo <= {tableau.objective}
      {
        var r :| r in todo;
        todo := todo - {r};
        if r != tableau.objective {
          exit := Some(r);
        }
      }
    }

    /** `addConstraint:`.  Nothing is resolved when the constraint cannot be entered. */
    method AddConstraint(c: Constraint, fuel: nat)
      returns (result: AddResult, outcome: Outcome, ghost e: Entry, ghost t: Stretch)
      requires Valid() && Booked()
      requires forall v <- c.expression.terms :: v.IsClient()
      modifies this, tableau
      ensures tableau.objective == old(tableau.objective) && created >= old(created)
      ensures e.c == c && e.offset == 0.0 && e.Key() !in old(entries)
      ensures !result.Failed? ==> Valid() && Booked() && entries == Changed(old(entries), Entered(e))
      ensures result.Added? ==>
        && e.artificial.None? && markerVariables == old(markerVariables)[c := e.marker]
        && editInfos == old(editInfos) + NewInfo(old(editInfos), c, e.marker, e.errors, old(values))
      ensures result.Unsatisfiable? ==>
        && c.IsRequired() && e.artificial.Some? && (c.IsInequality() ==> e.negated)
        && markerVariables == old(markerVariables) && values == old(values) && e.artificial.value in tableau.rows
      ensures result.Unsatisfiable? && old(Sound(tableau.rows)) ==>
        && Refutes(tableau.rows[e.artificial.value], old(equations), e.Signed())
        && (Optimised(tableau.rows[e.artificial.value]) ==>
              forall t: Valuation :: Allowed(old(entries), t) ==> !c.SatisfiedBy(t))
      ensures !c.IsRequired() ==> result.Added?
      ensures !result.Failed? && old(Covered()) ==> Covered()
      ensures !result.Failed? && old(Sound(tableau.rows)) ==> Sound(tableau.rows)
      ensures result.Failed? ==> ArtificialPhase(old(tableau.rows), t) && Ends(t, fuel, result.outcome, tableau.rows)
      ensures result.Added? ==> t.z == tableau.objective && Ends(t, fuel, outcome, tableau.rows)
      ensures !(result.Added? && outcome.Optimal?) ==> values == old(values)
      ensures result.Added? && outcome.Optimal? ==> Stopped(tableau.rows[tableau.objective]) && Reported()
    {
      hide Ends;
      hide ArtificialPhase;
      hide Sat;
      hide Valid;
      hide Sound;
      hide Stopped;
      hide Reported;
      hide Covered;
      hide Registered;
      hide BooksMatch;
      hide InfosFit;
      hide AddErrors;
      hide Refutes;
      hide Allowed;
      hide Optimised;
      hide Changed;
      hide NewInfo;
      hide Entry.Key;
      hide Entry.Signed;
      result, e, t := AddConstraintToTableau(c, fuel);
      outcome := Interrupted;
      if result.Added? {
        ghost var rows, run := tableau.rows, [];
        outcome, run := Resolve(fuel);
        t := Stretch(rows, tableau.objective, run);
      }
    }

    /** `removeConstraint:` */
    method RemoveConstraint(c: Constraint, fuel: nat) returns (raised: bool, outcome: Outcome, ghost t: Stretch)
      requires Valid() && Booked()
      modifies this, tableau
      ensures Valid() && Booked() && markerVariables == old(markerVariables) - {c} && editInfos == old(editInfos)
      ensures raised <==> c !in old(markerVariables)
      ensures raised ==> entries == old(entries) && forall s: Valuation :: Sat(tableau.rows, s) <==>
        Sat(old(tableau.rows), s)
      ensures !raised ==>
        && old(markerVariables)[c] in old(entries)
        && entries == Changed(old(entries), Left(old(markerVariables)[c]))
      ensures old(Covered()) ==> Covered()
      ensures old(Sound(tableau.rows)) && (c.IsInequality() || !c.IsRequired()) ==> Sound(tableau.rows)
      ensures !raised ==> t.z == tableau.objective && Ends(t, fuel, outcome, tableau.rows)
      ensures raised || !outcome.Optimal? ==> values == old(values)
      ensures !raised && outcome.Optimal? ==> Stopped(tableau.rows[tableau.objective]) && Reported()
    {
      hide Ends;
      hide Sat;
      hide Valid;
      hide Sound;
      hide Feasible;
      hide Stopped;
      hide Reported;
      hide Covered;
      hide Registered;
      hide InfosFit;
      hide AddErrors;
      hide Changed;
      ghost var exit, m;
      if c in markerVariables {
        m := markerVariables[c];
        MarkerKind(entries, goal, equations, created, m);
      }
      raised, exit := RemoveConstraintFromTableau(c);
      outcome, t := Interrupted, Stretch(tableau.rows, tableau.objective, []);
      if raised {
        return;
      }
      if old(Sound(tableau.rows)) && (c.IsInequality() || !c.IsRequired()) {
        PureRows(old(tableau.rows), m);
      }
      ghost var rows, run := tableau.rows, [];
      outcome, run := Resolve(fuel);
      t := Stretch(rows, tableau.objective, run);
    }

    /** The tableau allows the program's variables these values. */
    ghost predicate Admits(t: Valuation)
      reads tableau
    {
      exists s: Valuation :: Admissible(s) && Sat(tableau.rows, s) && AgreeOnClients(s, t)
    }

    lemma AdmitsExactly(t: Valuation)
      requires Valid() && Booked()
      ensures Admits(t) <==> Allowed(entries, t)
    {
      hide Sat;
      hide AgreeOnClients;
      hide Allowed;
      hide Valid;
      hide Registered;
      Stated();
      Projection(tableau.rows, tableau.objective, goal, equations, entries, created, t);
    }

    /** Retraction: a constraint came in, suggestions followed and preferred constraints that came
        and went, and the constraint was taken out.  The tableau allows the program's variables
        what it allowed before. */
    twostate lemma Retracted(e: Entry, history: seq<Change>)
      requires old(Valid() && Booked()) && Valid() && Booked()
      requires e.Key() !in old(entries) && AllPreferential(Changed(old(entries), Entered(e)), history)
      requires entries == Changed(After(Changed(old(entries), Entered(e)), history), Left(e.Key()))
      ensures forall t: Valuation :: Admits(t) <==> old(Admits(t))
    {
      hide Admits;
      hide Allowed;
      hide Valid;
      hide Booked;
      hide After;
      hide Changed;
      hide Demands;
      hide AllPreferential;
      RetractionOverHistory(old(entries), e, history);
      forall t: Valuation ensures Admits(t) <==> old(Admits(t)) {
        AdmitsExactly(t);
        AdmittedExactly(t);
        AllowedByDemands(entries, t);
        AllowedByDemands(old(entries), t);
      }
    }

    twostate lemma AdmittedExactly(t: Valuation)
      requires old(Valid() && Booked())
      ensures old(Admits(t)) <==> Allowed(old(entries), t)
    {
      hide Sat;
      hide AgreeOnClients;
      hide Allowed;
      hide Registered;
      hide Numbered;
      hide Keyed;
      Projection(old(tableau.rows), old(tableau.objective), old(goal), old(equations), old(entries), old(created), t);
    }

    /** `solve` gives values that meet what every constraint on external variables demands; a
        required one holds in full unless it is an edit constraint that was moved. */
    lemma SolutionSatisfies(c: Constraint, solution: map<Variable, real>)
      requires Valid() && Booked() && Covered() && Feasible(tableau.rows)
      requires solution.Keys == externalVariables
      requires forall v <- solution :: solution[v] == BasicSolution(tableau.rows)(v)
      requires c in markerVariables && c.IsRequired() && forall v <- c.expression.terms :: v.IsExternal()
      ensures markerVariables[c] in entries && entries[markerVariables[c]].c == c
      ensures entries[markerVariables[c]].Now().SatisfiedBy(AsValuation(solution))
      ensures !c.kind.Edit? ==> c.SatisfiedBy(AsValuation(solution))
    {
      hide Eval;
      hide Sat;
      hide BasicSolution;
      hide Valid;
      hide Registered;
      hide BooksMatch;
      Stated();
      RequiredHold(tableau.rows, tableau.objective, goal, equations, entries, created);
      BookEntry(markerVariables, errorVariables, entries, c);
      var k := markerVariables[c];
      OnlyEditsMove(entries, goal, equations, created, k);
      forall v | v in c.expression.terms ensures v in solution {
        assert v in Externals(c.expression.terms.Keys);
      }
      EntryOnTerms(entries[k], AsValuation(solution), BasicSolution(tableau.rows));
    }

    /** When no slack has a negative coefficient left, no other values that meet the demands
        violate the preferred constraints less, in the weighted sum. */
    lemma SolutionIsBest(solution: map<Variable, real>, t: Valuation)
      requires Valid() && Booked() && Covered() && Sound(tableau.rows) && Optimised(tableau.rows[tableau.objective])
      requires OnExternals(solution) && Sensible(entries) && Allowed(entries, t)
      ensures Allowed(entries, AsValuation(solution))
      ensures Cost(entries, AsValuation(solution)) <= Cost(entries, t)
    {
      hide Sat;
      hide BasicSolution;
      hide Registered;
      hide Cost;
      hide Allowed;
      hide Valid;
      hide CoveredBy;
      Stated();
      WeightedBest(tableau.rows, tableau.objective, goal, equations, entries, created, t);
      SolutionIsBasic(solution);
    }

    /** Where the optimiser stops, they do so by no more than its tolerance times the slacks. */
    lemma SolutionIsNearlyBest(solution: map<Variable, real>, t: Valuation)
      requires Valid() && Booked() && Covered() && Sound(tableau.rows) && Stopped(tableau.rows[tableau.objective])
      requires OnExternals(solution) && Sensible(entries) && Allowed(entries, t)
      ensures Allowed(entries, AsValuation(solution))
      ensures Cost(entries, AsValuation(solution)) <= Cost(entries, t)
        + TOLERANCE * Eval(Ones(SlackTerms(tableau.rows[tableau.objective])), FitAll(entries, ClientPart(t)))
    {
      hide Sat;
      hide BasicSolution;
      hide Registered;
      hide Cost;
      hide Allowed;
      hide Valid;
      hide CoveredBy;
      hide Eval;
      hide FitAll;
      Stated();
      WeightedNearlyBest(tableau.rows, tableau.objective, goal, equations, entries, created, t);
      SolutionIsBasic(solution);
    }

    /** A solution as `solve` gives it, for constraints over external variables only. */
    ghost predicate OnExternals(solution: map<Variable, real>)
      reads this`externalVariables, this`entries, tableau
    {
      && solution.Keys == externalVariables
      && (forall v <- solution :: solution[v] == BasicSolution(tableau.rows)(v))
      && (forall k <- entries, v <- entries[k].c.expression.terms :: v.IsExternal())
    }

    lemma SolutionIsBasic(solution: map<Variable, real>)
      requires Valid() && Booked() && Covered() && Feasible(tableau.rows) && OnExternals(solution)
      ensures Allowed(entries, AsValuation(solution))
      ensures Cost(entries, AsValuation(solution)) == Cost(entries, BasicSolution(tableau.rows))
    {
      hide Sat;
      hide BasicSolution;
      hide Registered;
      hide Cost;
      hide Allowed;
      hide Valid;
      Stated();
      RequiredHold(tableau.rows, tableau.objective, goal, equations, entries, created);
      forall k, v | k in entries && v in entries[k].c.expression.terms
        ensures AsValuation(solution)(v) == BasicSolution(tableau.rows)(v)
      {
        assert v in Externals(entries[k].c.expression.terms.Keys);
      }
      SameOnTerms(entries, AsValuation(solution), BasicSolution(tableau.rows));
    }

    /** The reported values weigh the distance to where an edit constraint stands, which is the
        value suggested if that was reached, against everything else as well as any values can. */
    lemma SuggestionIsBest(info: EditInfo, x: real, solution: map<Variable, real>, t: Valuation)
      requires Valid() && Booked() && Covered() && Sound(tableau.rows) && Optimised(tableau.rows[tableau.objective])
      requires OnExternals(solution) && Sensible(entries) && Allowed(entries, t)
      requires Stands(entries, info, x) && !entries[info.plus].c.IsInequality()
      ensures var s := AsValuation(solution);
              && Allowed(entries, s) && Cost(entries, s) <= Cost(entries, t)
              && Violation(entries[info.plus].Now(), s) == Distance(s(info.variable), x)
              && Violation(entries[info.plus].Now(), t) == Distance(t(info.variable), x)
    {
      hide Cost;
      hide Allowed;
      SolutionIsBest(solution, t);
      StandingViolation(entries, info, x, AsValuation(solution));
      StandingViolation(entries, info, x, t);
    }

    /** Where a preferred edit constraint is stronger than the other preferred ones on its variable
        together, the reported value cannot be moved towards the value it stands at: the demands
        allow no step of the way.  If they allow that value itself, it is the one reported. */
    lemma StrongestIsMet(info: EditInfo, x: real, solution: map<Variable, real>, y: real)
      requires Valid() && Booked() && Covered() && Sound(tableau.rows) && Optimised(tableau.rows[tableau.objective])
      requires OnExternals(solution) && Sensible(entries) && Stands(entries, info, x)
      requires !entries[info.plus].c.IsInequality() && !entries[info.plus].c.IsRequired()
      requires OthersPull(entries, info.plus, info.variable) < entries[info.plus].c.strength
      ensures var s, v := AsValuation(solution), info.variable;
              && (OnTheWay(s(v), y, x) && Allowed(entries, At(s, v, y)) ==> y == s(v))
              && (Allowed(entries, At(s, v, x)) ==> s(v) == x)
    {
      hide Cost;
      hide Allowed;
      hide Stands;
      hide Valid;
      hide Booked;
      hide Covered;
      hide Sound;
      hide Optimised;
      hide OthersPull;
      hide At;
      hide AsValuation;
      var s, v := AsValuation(solution), info.variable;
      if OnTheWay(s(v), y, x) && y != s(v) && Allowed(entries, At(s, v, y)) {
        SolutionIsBest(solution, At(s, v, y));
        StrongerPrevails(entries, info, x, s, y);
      }
      if s(v) != x && Allowed(entries, At(s, v, x)) {
        SolutionIsBest(solution, At(s, v, x));
        StrongerPrevails(entries, info, x, s, x);
      }
    }

    /** After a first suggestion that reached its value: the edit constraint made for it weighs 750,
        so the value is reported if the demands allow it and the other preferred constraints on
        the variable weigh less together. */
    lemma FirstSuggestionIsMet(i: nat, solution: map<Variable, real>, y: real)
      requires Valid() && Booked() && Covered() && Sound(tableau.rows) && Optimised(tableau.rows[tableau.objective])
      requires OnExternals(solution) && Sensible(entries)
      requires i < |editInfos| && editInfos[i].constraint.strength == 750.0 && Aimed(entries, editInfos[i])
      requires OthersPull(entries, editInfos[i].plus, editInfos[i].variable) < 750.0
      ensures var s, info := AsValuation(solution), editInfos[i]; var v, value := info.variable, info.previousConstant;
              && (OnTheWay(s(v), y, value) && Allowed(entries, At(s, v, y)) ==> y == s(v))
              && (Allowed(entries, At(s, v, value)) ==> s(v) == value)
    {
      hide Allowed;
      hide Stands;
      hide Valid;
      hide Covered;
      hide Sound;
      hide Optimised;
      hide OthersPull;
      hide At;
      hide AsValuation;
      InfoAt(i);
      AimedIsThere(entries, editInfos[i]);
      hide Booked;
      StrongestIsMet(editInfos[i], editInfos[i].previousConstant, solution, y);
    }

    /** `solve`: the reported values, by variable. */
    method Solve() returns (solution: map<Variable, real>)
      requires tableau.Valid()
      modifies this`values
      ensures solution.Keys == externalVariables && Reported()
      ensures forall v <- solution :: solution[v] == BasicSolution(tableau.rows)(v)
    {
      SetExternalVariables();
      solution := map v | v in externalVariables :: values[v];
    }

    /** Neither variable is mentioned anywhere. */
    ghost predicate Idle(plus: Variable, minus: Option<Variable>)
      reads this`equations, this`goal
    {
      && plus !in equations && !Mentions(equations, plus) && plus !in goal.terms
      && (minus.Some? ==> !Mentions(equations, minus.value) && minus.value !in goal.terms)
    }

    /** `deltaEditConstant:plusVariable:minusVariable:` */
    method DeltaEditConstant(delta: real, plus: Variable, minus: Option<Variable>)
      requires Valid() && plus.IsRestricted() && (minus.Some? ==> minus.value.kind.Slack?)
      requires if plus in equations then ErrorPair(equations, plus, minus) else Idle(plus, minus)
      modifies tableau, this`goal, this`equations
      ensures Valid() && tableau.objective == old(tableau.objective) && tableau.Known() == old(tableau.Known())
      ensures tableau.rows == EditRows(old(tableau.rows), delta, plus, minus)
      ensures goal.terms == old(goal).terms
      ensures plus in old(equations) ==>
        var shift := EquationShift(old(tableau.rows), old(equations)[plus], delta, plus, minus);
        equations == old(equations)[plus := ShiftConstant(old(equations)[plus], shift)]
      ensures plus !in old(equations) ==>
        equations == old(equations) && goal == old(goal) && tableau.rows == old(tableau.rows)
      ensures Listed(old(tableau.rows), tableau.rows, old(tableau.infeasibleRows), tableau.infeasibleRows)
    {
      hide Sat;
      hide Eval;
      hide Solved;
      hide IndexOutside;
      hide ExternalTermsRecorded;
      hide ExternalRowsMatch;
      hide Represents;
      hide Keyed;
      hide Mentions;
      hide Numbered;
      hide EquationShift;
      hide EditRows;
      ghost var rows, z, eqs, known := tableau.rows, tableau.objective, equations, tableau.Known();
      ghost var offset, shift := 0.0, 0.0;
      if plus in eqs {
        offset := EditMeaning(rows, z, goal, eqs, delta, plus, minus);
        shift := EquationShift(rows, eqs[plus], delta, plus, minus);
        EditKeeps(known, goal, offset, eqs, plus, shift, z, created);
      } else {
        IdleIsNowhere(plus, minus, delta);
      }
      ShiftRows(delta, plus, minus);
      if plus in eqs {
        goal := ShiftConstant(goal, offset);
        equations := eqs[plus := ShiftConstant(eqs[plus], shift)];
      }
    }

    lemma IdleIsNowhere(plus: Variable, minus: Option<Variable>, delta: real)
      requires Valid() && Idle(plus, minus) && plus.IsRestricted() && (minus.Some? ==> minus.value.kind.Slack?)
      ensures EditRows(tableau.rows, delta, plus, minus) == tableau.rows
    {
      hide Represents;
      hide Mentions;
      hide EditRows;
      UnmentionedIsAbsent(tableau.rows, tableau.objective, goal, equations, plus);
      if minus.Some? {
        UnmentionedIsAbsent(tableau.rows, tableau.objective, goal, equations, minus.value);
      }
      EditNowhere(tableau.rows, delta, plus, minus);
    }

    /** The edit of an info, with what it does to the entries and keeps of the table. */
    method MoveInfo(info: EditInfo, delta: real)
      requires Valid() && Booked() && info in editInfos
      modifies tableau, this`goal, this`equations, this`entries
      ensures Valid() && Booked() && tableau.objective == old(tableau.objective)
        && tableau.Known() == old(tableau.Known())
      ensures entries == Changed(old(entries),
        Edited(info.plus, EditTurn(info.constraint, delta, AnyBasic(old(tableau.rows), info.plus, info.minus))))
      ensures goal.terms == old(goal).terms
      ensures tableau.rows == EditRows(old(tableau.rows), delta, info.plus, info.minus)
      ensures var rows := old(tableau.rows); var z := tableau.objective;
              && z in rows && z in tableau.rows
              && (AllListed(rows, old(tableau.infeasibleRows)) ==> AllListed(tableau.rows, tableau.infeasibleRows))
              && (Layered(rows) ==> Layered(tableau.rows))
              && (Optimised(rows[z]) ==> Optimised(tableau.rows[z]))
              && (Repairable(rows) && info.plus.kind.Slack? ==> Repairable(tableau.rows))
      ensures old(Covered()) ==> Covered()
    {
      hide Valid;
      hide BooksMatch;
      hide Registered;
      hide AllListed;
      hide Listed;
      hide Layered;
      hide Optimised;
      hide Repairable;
      hide EditRows;
      hide EditTurn;
      hide EquationShift;
      hide AnyBasic;
      hide Mentions;
      hide ErrorPair;
      hide CoveredBy;
      hide Entry.Equation;
      hide Entry.All;
      Stated();
      ghost var rows, was, eqs, before := tableau.rows, entries, equations, goal;
      ghost var turn := EditTurn(info.constraint, delta, AnyBasic(rows, info.plus, info.minus));
      assert InfoFits(entries, created, info);
      InfoReady(was, before, eqs, created, info, rows, delta);
      EditRepairable(rows, tableau.objective, delta, info.plus, info.minus);
      DeltaEditConstant(delta, info.plus, info.minus);
      Stated();
      ListedAfterEdit(rows, tableau.rows, old(tableau.infeasibleRows), tableau.infeasibleRows);
      if info.plus in was {
        TurnEntry(info.plus, turn, before, eqs);
      }
    }

    /** The entry of an edited equation moves with it. */
    ghost method TurnEntry(k: Variable, turn: real, before: Expr, eqs: Equations)
      requires BooksMatch(markerVariables, errorVariables, entries) && InfosFit(entries, created, editInfos)
      requires Registered(entries, before, eqs, created) && k in entries && k in equations
      requires entries[k].artificial.None? && entries[k].c.kind.Edit? && goal.terms == before.terms
      requires equations == eqs[k := Turned(entries[k], turn).Equation()]
      modifies this`entries
      ensures Booked() && entries == Changed(old(entries), Edited(k, turn))
      ensures old(Covered()) ==> Covered()
    {
      hide Registered;
      hide BooksMatch;
      hide InfosFit;
      hide CoveredBy;
      hide Entry.Equation;
      TurnKeeps(entries, before, eqs, created, k, turn, goal, equations[k]);
      InfosTurn(entries, created, editInfos, k, turn);
      BooksMove(markerVariables, errorVariables, entries, k, Turned(entries[k], turn));
      if CoveredBy(tableau.Known(), entries, externalVariables) {
        CoverTurn(tableau.Known(), tableau.Known(), entries, k, turn, externalVariables);
      }
      entries := entries[k := Turned(entries[k], turn)];
    }

    method ShiftRows(delta: real, plus: Variable, minus: Option<Variable>)
      requires tableau.Valid() && plus.IsRestricted() && (minus.Some? ==> minus.value.IsRestricted())
      modifies tableau
      ensures tableau.Valid() && tableau.objective == old(tableau.objective) && tableau.columns == old(tableau.columns)
      ensures tableau.rows == EditRows(old(tableau.rows), delta, plus, minus)
      ensures tableau.rows.Keys == old(tableau.rows).Keys
      ensures Listed(old(tableau.rows), tableau.rows, old(tableau.infeasibleRows), tableau.infeasibleRows)
    {
      hide Solved;
      hide IndexOutside;
      hide ExternalTermsRecorded;
      hide ExternalRowsMatch;
      ColumnIs(tableau.rows, tableau.columns, plus);
      if plus in tableau.rows {
        ShiftOne(plus, delta);
      } else if minus.Some? && minus.value in tableau.rows {
        ShiftOne(minus.value, -delta);
      } else {
        ShiftRowsInColumn(delta, plus);
      }
    }

    method ShiftRowsInColumn(delta: real, plus: Variable)
      requires tableau.Valid()
      modifies tableau
      ensures tableau.Valid() && tableau.objective == old(tableau.objective) && tableau.columns == old(tableau.columns)
      ensures tableau.rows == ShiftColumn(old(tableau.rows), plus, delta)
      ensures Listed(old(tableau.rows), tableau.rows, old(tableau.infeasibleRows), tableau.infeasibleRows)
    {
      hide Tableau.Valid;
      hide Listed;
      hide ShiftColumn;
      hide ShiftRow;
      hide ShiftPart;
      tableau.ColumnRows(plus);
      ghost var before, first := tableau.rows, tableau.infeasibleRows;
      var column := Column(tableau.columns, plus);
      var todo := column;
      ListedFirst(before, first);
      ShiftPartEnds(before, plus, delta, column);
      while todo != {}
        invariant todo <= column
        invariant tableau.Valid() && tableau.objective == old(tableau.objective)
          && tableau.columns == old(tableau.columns)
        invariant tableau.rows == ShiftPart(before, plus, delta, column - todo)
        invariant Listed(before, tableau.rows, first, tableau.infeasibleRows)
      {
        var r :| r in todo;
        ghost var mid, listed, done := tableau.rows, tableau.infeasibleRows, column - todo;
        ShiftPartIs(before, plus, delta, done);
        var amount := Coef(tableau.rows[r], plus) * delta;
        ShiftPartNext(before, plus, delta, done, r, amount);
        todo := todo - {r};
        assert column - todo == done + {r};
        ShiftOne(r, amount);
        ShiftRowIs(mid, r, amount);
        ListedNext(before, mid, r, tableau.rows, first, listed, tableau.infeasibleRows);
      }
      assert column - {} == column;
    }

    /** Move one row's constant and list the row when it becomes infeasible. */
    method ShiftOne(r: Variable, d: real)
      requires tableau.Valid() && r in tableau.rows
      modifies tableau
      ensures tableau.Valid() && tableau.objective == old(tableau.objective) && tableau.columns == old(tableau.columns)
      ensures tableau.rows == ShiftRow(old(tableau.rows), r, d)
      ensures tableau.infeasibleRows == old(tableau.infeasibleRows) +
        if r.IsRestricted() && tableau.rows[r].constant < 0.0 then [r] else []
    {
      tableau.SetConstant(r, tableau.rows[r].constant + d);
      if r.IsRestricted() && tableau.rows[r].constant < 0.0 {
        tableau.infeasibleRows := tableau.infeasibleRows + [r];
      }
    }

    /** `suggestEditVariable:equals:`.  The variable gets a strong edit constraint, the object
        `id`, if it has none.  `found` is the table the edit itself finds. */
    method SuggestEdit(v: Variable, value: real, id: nat, fuel: nat)
      returns (repair: Repair, ghost history: seq<Change>, ghost found: Rows, ghost t: Stretch,
        ghost turns: seq<Dual>)
      requires Valid() && Booked() && v.IsClient()
      requires forall info <- editInfos :: info.constraint.id != id
      modifies this, tableau
      ensures Valid() && Booked() && tableau.objective == old(tableau.objective)
      ensures entries == After(old(entries), history)
      ensures (forall info <- old(editInfos) :: !info.constraint.IsRequired()) ==>
        && AllPreferential(old(entries), history)
        && (forall info <- editInfos :: !info.constraint.IsRequired())
      ensures old(Covered()) ==> Covered()
      ensures LastInfo(old(editInfos), v) >= 0 ==> found == old(tableau.rows) && !repair.Unresolved?
      ensures LastInfo(old(editInfos), v) < 0 ==>
        && LastInfo(editInfos, v) >= 0
        && NewlyEdited(history, editInfos[LastInfo(editInfos, v)].constraint, id, v, old(ValueOf(v)))
        && t.z == tableau.objective
        && Ends(t, fuel, if repair.Unresolved? then repair.outcome else Optimal, found)
      ensures repair.Unresolved? ==> tableau.rows == found && !repair.outcome.Optimal?
      ensures !repair.Unresolved? ==>
        var i, j := LastInfo(old(editInfos), v), LastInfo(editInfos, v);
        && j >= 0 && editInfos[j].previousConstant == value
        && (i >= 0 ==> j == i && editInfos[j] == old(editInfos)[i].(previousConstant := value))
        && (i >= 0 ==>
              var info := old(editInfos)[i];
              Aimed(entries, editInfos[j]) <==>
                Stands(old(entries), info, Origin(info, value, AnyBasic(found, info.plus, info.minus))))
        && (i < 0 ==>
              (Aimed(entries, editInfos[j]) <==>
                 value == old(ValueOf(v)) || !AnyBasic(found, editInfos[j].plus, editInfos[j].minus)))
        && (repair.Repaired? && old(Sound(tableau.rows)) && editInfos[j].plus.kind.Slack? ==> Sound(tableau.rows))
      ensures !repair.Unresolved? ==>
        var i, info := LastInfo(old(editInfos), v), editInfos[LastInfo(editInfos, v)];
        var last := if i >= 0 then old(editInfos)[i].previousConstant else old(ValueOf(v));
        && turns != [] && turns[0].rows == EditRows(found, -(value - last), info.plus, info.minus)
        && DualEnds(tableau.objective, turns, fuel, repair, Dual(tableau.rows, tableau.infeasibleRows))
      ensures LastInfo(old(editInfos), v) >= 0 && Optimised(old(tableau.rows)[tableau.objective]) ==>
        Optimised(tableau.rows[tableau.objective])
      ensures repair.Repaired? ==> Reported() && tableau.infeasibleRows == []
    {
      hide Ends;
      hide DualRun;
      hide EditRows;
      hide Valid;
      hide Booked;
      hide Covered;
      hide Sound;
      hide Optimised;
      hide Aimed;
      hide Stands;
      hide Origin;
      hide AnyBasic;
      hide EditTurn;
      hide Reported;
      hide LastInfo;
      hide After;
      hide AllPreferential;
      ghost var first, was := editInfos, entries;
      var i, outcome;
      i, outcome, history, t := EditFor(v, id, fuel);
      found, turns := tableau.rows, [];
      if !outcome.Optimal? {
        return Unresolved(outcome), history, found, t, turns;
      }
      ghost var info, mid := editInfos[i], entries;
      ghost var turn := EditTurn(info.constraint, -(value - info.previousConstant),
        AnyBasic(found, info.plus, info.minus));
      OneMore(was, history, Edited(info.plus, turn));
      if !info.constraint.IsRequired() {
        EditIsPreferential(i, turn);
      }
      if Aimed(mid, info) {
        AimedOrigin(mid, info, value, AnyBasic(found, info.plus, info.minus));
      }
      LastInfoSet(editInfos, v, value);
      repair, turns := Suggest(i, value, fuel);
      history := history + [Edited(info.plus, turn)];
    }

    /** The history begins with a strong edit constraint for the variable, made for `value`. */
    ghost predicate NewlyEdited(history: seq<Change>, c: Constraint, id: nat, v: Variable, value: real) {
      && c.id == id && c.kind.Edit? && c.strength == 750.0 && c.variable == Some(v)
      && c.expression == Expr(map[v := -1.0], value)
      && history != [] && history[0].Entered? && history[0].e.c == c && history[0].e.offset == 0.0
      && history[0].e.artificial.None?
    }

    /** An edit of a preferred constraint is a matter of preference. */
    lemma EditIsPreferential(i: nat, turn: real)
      requires Booked() && i < |editInfos| && !editInfos[i].constraint.IsRequired()
      ensures Preferential(entries, Edited(editInfos[i].plus, turn))
    {
      InfoAt(i);
    }

    /** The info of the variable, made and registered with its edit constraint if need be. */
    method EditFor(v: Variable, id: nat, fuel: nat)
      returns (i: nat, outcome: Outcome, ghost history: seq<Change>, ghost t: Stretch)
      requires Valid() && Booked() && v.IsClient()
      requires forall info <- editInfos :: info.constraint.id != id
      modifies this, tableau
      ensures Valid() && Booked() && tableau.objective == old(tableau.objective)
      ensures entries == After(old(entries), history) && AllPreferential(old(entries), history)
      ensures i < |editInfos| && i == LastInfo(editInfos, v)
      ensures old(Covered()) ==> Covered()
      ensures old(Sound(tableau.rows)) ==> Sound(tableau.rows)
      ensures LastInfo(old(editInfos), v) >= 0 ==>
        && history == [] && entries == old(entries) && tableau.rows == old(tableau.rows)
        && editInfos == old(editInfos) && outcome.Optimal?
      ensures LastInfo(old(editInfos), v) < 0 ==>
        && i == |old(editInfos)| && editInfos[..i] == old(editInfos) && |editInfos| == i + 1
        && !editInfos[i].constraint.IsRequired() && editInfos[i].previousConstant == old(ValueOf(v))
        && Aimed(entries, editInfos[i]) && NewlyEdited(history, editInfos[i].constraint, id, v, old(ValueOf(v)))
        && |history| == 1 && t.z == tableau.objective && Ends(t, fuel, outcome, tableau.rows)
    {
      hide Ends;
      hide ArtificialPhase;
      hide Valid;
      hide BooksMatch;
      hide Registered;
      hide InfosFit;
      hide Covered;
      hide Sound;
      hide Refutes;
      hide Allowed;
      hide Reported;
      hide LastInfo;
      history := [];
      var last := LastInfo(editInfos, v);
      if last >= 0 {
        return last, Optimal, [], Stretch(tableau.rows, tableau.objective, []);
      }
      var edit := ForEditing(id, v, ValueOf(v), STRONG);
      var result;
      ghost var e, was := Entry(edit, v, [], 0.0, false, None), entries;
      result, outcome, e, t := AddConstraint(edit, fuel);
      i := |editInfos| - 1;
      OneMore(was, [], Entered(e));
      history := [Entered(e)];
      assert [] + [Entered(e)] == history;
      LastInfoAppended(editInfos[..i], editInfos[i]);
      assert editInfos == editInfos[..i] + [editInfos[i]];
    }

    /** What `suggestEditVariable:equals:` does with an info.  The edit constraint comes to stand
        at the value exactly when it is in the table and stood where it had to. */
    method Suggest(i: nat, value: real, fuel: nat) returns (repair: Repair, ghost turns: seq<Dual>)
      requires Valid() && Booked() && i < |editInfos|
      modifies tableau, this`goal, this`equations, this`entries, this`editInfos, this`values
      ensures Valid() && Booked()
      ensures editInfos == old(editInfos)[i := old(editInfos)[i].(previousConstant := value)]
      ensures var info := old(editInfos)[i]; var change := value - info.previousConstant;
              && entries == Changed(old(entries), Edited(info.plus,
                   EditTurn(info.constraint, -change, AnyBasic(old(tableau.rows), info.plus, info.minus))))
              && (Aimed(entries, editInfos[i]) <==>
                    Stands(old(entries), info, Origin(info, value, AnyBasic(old(tableau.rows), info.plus, info.minus))))
      ensures var info := old(editInfos)[i]; var change := value - info.previousConstant;
              && turns != [] && turns[0].rows == EditRows(old(tableau.rows), -change, info.plus, info.minus)
              && DualEnds(tableau.objective, turns, fuel, repair, Dual(tableau.rows, tableau.infeasibleRows))
      ensures goal.terms == old(goal).terms && tableau.objective == old(tableau.objective)
      ensures old(Covered()) ==> Covered()
      ensures Optimised(old(tableau.rows)[tableau.objective]) ==> Optimised(tableau.rows[tableau.objective])
      ensures repair.Repaired? ==> Reported() && tableau.infeasibleRows == []
      ensures !repair.Repaired? ==> values == old(values)
      ensures repair.Repaired? && old(Sound(tableau.rows)) && old(editInfos)[i].plus.kind.Slack? ==> Sound(tableau.rows)
      ensures repair.Repaired? && old(AllListed(tableau.rows, tableau.infeasibleRows)) ==> AllListed(tableau.rows, [])
      ensures repair.Stuck? && old(Layered(tableau.rows)) && old(AllListed(tableau.rows, tableau.infeasibleRows)) ==>
        forall s: Valuation :: Sat(tableau.rows, s) ==> !Admissible(s)
    {
      hide Valid;
      hide Booked;
      hide Sat;
      hide Layered;
      hide Sound;
      hide Repairable;
      hide AllListed;
      hide Reported;
      hide CoveredBy;
      hide Optimised;
      hide EditTurn;
      hide AnyBasic;
      hide Aimed;
      hide Stands;
      hide Origin;
      hide Changed;
      hide EditRows;
      hide DualTurn;
      SoundIsRepairable(tableau.rows);
      WellFormed();
      SoundIsListed(tableau.rows, tableau.infeasibleRows);
      Aim(i, value);
      ghost var known := tableau.Known();
      repair, turns := DualOptimize(fuel);
      if CoveredBy(known, entries, externalVariables) {
        CoverFewer(known, tableau.Known(), entries, externalVariables);
      }
      if repair.Repaired? {
        if old(Sound(tableau.rows)) && old(editInfos)[i].plus.kind.Slack? {
          RepairedIsSound(tableau.rows);
        }
        Report();
      }
    }

    /** The end of `suggestEditVariable:equals:`. */
    method Report()
      requires Valid() && Booked()
      modifies this`values, tableau`infeasibleRows
      ensures Valid() && Booked() && Reported() && tableau.infeasibleRows == []
    {
      hide Booked;
      WellFormed();
      SetExternalVariables();
      tableau.infeasibleRows := [];
    }

    /** Move the constraint of an info, and remember the value. */
    method Aim(i: nat, value: real)
      requires Valid() && Booked() && i < |editInfos|
      modifies tableau, this`goal, this`equations, this`entries, this`editInfos
      ensures Valid() && Booked() && tableau.objective == old(tableau.objective)
      ensures editInfos == old(editInfos)[i := old(editInfos)[i].(previousConstant := value)]
      ensures var info := old(editInfos)[i]; var change := value - info.previousConstant;
              && entries == Changed(old(entries), Edited(info.plus,
                   EditTurn(info.constraint, -change, AnyBasic(old(tableau.rows), info.plus, info.minus))))
              && (Aimed(entries, editInfos[i]) <==>
                    Stands(old(entries), info, Origin(info, value, AnyBasic(old(tableau.rows), info.plus, info.minus))))
      ensures goal.terms == old(goal).terms
      ensures var info := old(editInfos)[i];
              tableau.rows == EditRows(old(tableau.rows), -(value - info.previousConstant), info.plus, info.minus)
      ensures var rows := old(tableau.rows); var z := tableau.objective;
              && z in rows && z in tableau.rows
              && (AllListed(rows, old(tableau.infeasibleRows)) ==> AllListed(tableau.rows, tableau.infeasibleRows))
              && (Layered(rows) ==> Layered(tableau.rows))
              && (Optimised(rows[z]) ==> Optimised(tableau.rows[z]))
              && (Repairable(rows) && old(editInfos)[i].plus.kind.Slack? ==> Repairable(tableau.rows))
      ensures old(Covered()) ==> Covered()
    {
      hide EditRows;
      hide Valid;
      hide Layered;
      hide Repairable;
      hide AllListed;
      hide BooksMatch;
      hide Registered;
      hide InfosFit;
      hide CoveredBy;
      hide Optimised;
      hide EditTurn;
      hide AnyBasic;
      hide Aimed;
      hide Stands;
      hide Origin;
      var info := editInfos[i];
      ghost var was, rows := entries, tableau.rows;
      InfoAt(i);
      MoveInfo(info, -(value - info.previousConstant));
      AimExactly(was, info, value, AnyBasic(rows, info.plus, info.minus));
      InfosSet(entries, created, editInfos, i, value);
      editInfos := editInfos[i := info.(previousConstant := value)];
    }

    lemma InfoAt(i: nat)
      requires Booked() && i < |editInfos|
      ensures InfoFits(entries, created, editInfos[i])
    {}

    lemma WellFormed()
      requires Valid()
      ensures tableau.Valid() && forall r <- tableau.infeasibleRows :: r.IsRestricted()
    {}

    /** `dualOptimize` */
    method DualOptimize(fuel: nat) returns (repair: Repair, ghost turns: seq<Dual>)
      requires Valid()
      modifies tableau
      ensures Valid() && tableau.objective == old(tableau.objective) && tableau.Known() <= old(tableau.Known())
      ensures forall s: Valuation :: Sat(tableau.rows, s) <==> Sat(old(tableau.rows), s)
      ensures old(AllListed(tableau.rows, tableau.infeasibleRows)) && !repair.Stuck? ==>
        AllListed(tableau.rows, tableau.infeasibleRows)
      ensures repair.Repaired? ==> tableau.infeasibleRows == []
      ensures repair.Repaired? || repair.Stuck? || repair.Unfinished?
      ensures DualEnds(tableau.objective, turns, fuel, repair, Dual(tableau.rows, tableau.infeasibleRows))
      ensures turns[0] == old(Dual(tableau.rows, tableau.infeasibleRows))
      ensures Optimised(old(tableau.rows)[tableau.objective]) ==> Optimised(tableau.rows[tableau.objective])
      ensures old(Layered(tableau.rows)) ==> Layered(tableau.rows)
      ensures old(Repairable(tableau.rows)) ==> Repairable(tableau.rows)
      ensures old(Layered(tableau.rows)) && repair.Stuck? ==>
        forall s: Valuation :: Sat(tableau.rows, s) ==> !Admissible(s)
    {
      hide Valid;
      hide Sat;
      hide AllListed;
      hide Optimised;
      hide Layered;
      hide Repairable;
      hide DualTurn;
      Stated();
      turns := [Dual(tableau.rows, tableau.infeasibleRows)];
      for i := 0 to fuel
        invariant DualRun(tableau.objective, turns) && |turns| == i + 1
        invariant turns[0] == old(Dual(tableau.rows, tableau.infeasibleRows))
        invariant turns[i] == Dual(tableau.rows, tableau.infeasibleRows)
        invariant Valid() && tableau.objective == old(tableau.objective) && tableau.Known() <= old(tableau.Known())
        invariant tableau.objective in tableau.rows
        invariant old(AllListed(tableau.rows, tableau.infeasibleRows)) ==>
          AllListed(tableau.rows, tableau.infeasibleRows)
        invariant forall s: Valuation :: Sat(tableau.rows, s) <==> Sat(old(tableau.rows), s)
        invariant Optimised(old(tableau.rows)[tableau.objective]) ==> Optimised(tableau.rows[tableau.objective])
        invariant old(Layered(tableau.rows)) ==> Layered(tableau.rows)
        invariant old(Repairable(tableau.rows)) ==> Repairable(tableau.rows)
      {
        if tableau.infeasibleRows == [] {
          return Repaired, turns;
        }
        var stuck := DualStep();
        if stuck.Some? {
          return Stuck(stuck.value), turns;
        }
        turns := turns + [Dual(tableau.rows, tableau.infeasibleRows)];
      }
      return Unfinished, turns;
    }

    /** One turn of the loop of `dualOptimize`. */
    method DualStep() returns (stuck: Option<Variable>)
      requires Valid() && tableau.infeasibleRows != []
      modifies tableau
      ensures Valid() && tableau.objective == old(tableau.objective) && tableau.objective in tableau.rows
      ensures tableau.objective in old(tableau.rows) && tableau.Known() <= old(tableau.Known())
      ensures forall s: Valuation :: Sat(tableau.rows, s) <==> Sat(old(tableau.rows), s)
      ensures old(AllListed(tableau.rows, tableau.infeasibleRows)) && stuck.None? ==>
        AllListed(tableau.rows, tableau.infeasibleRows)
      ensures Optimised(old(tableau.rows)[tableau.objective]) ==> Optimised(tableau.rows[tableau.objective])
      ensures old(Layered(tableau.rows)) ==> Layered(tableau.rows)
      ensures old(Repairable(tableau.rows)) ==> Repairable(tableau.rows)
      ensures old(Layered(tableau.rows)) && stuck.Some? ==>
        forall s: Valuation :: Sat(tableau.rows, s) ==> !Admissible(s)
      ensures stuck.None? ==>
        DualTurn(tableau.objective, old(Dual(tableau.rows, tableau.infeasibleRows)),
                 Dual(tableau.rows, tableau.infeasibleRows))
      ensures stuck.Some? ==>
        && old(tableau.infeasibleRows)[0] == stuck.value && tableau.rows == old(tableau.rows)
        && tableau.infeasibleRows == old(tableau.infeasibleRows)[1..]
        && stuck.value in tableau.rows && tableau.rows[stuck.value].constant < 0.0
        && forall v <- tableau.rows[stuck.value].terms ::
             v.IsPivotable() ==> tableau.rows[stuck.value].terms[v] <= 0.0
    {
      hide Sat;
      hide Eval;
      hide Solved;
      hide IndexOutside;
      hide ExternalTermsRecorded;
      hide ExternalRowsMatch;
      hide Represents;
      hide Keyed;
      hide Mentions;
      hide Numbered;
      hide Layered;
      hide Repairable;
      hide Optimised;
      hide AllListed;
      hide RowAlgebra.Pivot;
      ghost var rows, known, z, listed := tableau.rows, tableau.Known(), tableau.objective, tableau.infeasibleRows;
      stuck := None;
      var exit := tableau.infeasibleRows[0];
      tableau.infeasibleRows := tableau.infeasibleRows[1..];
      if exit !in tableau.rows || tableau.rows[exit].constant >= 0.0 {
        ListedRest(rows, listed);
        return;
      }
      var entry := ChooseDualEntry(tableau.rows[tableau.objective], tableau.rows[exit]);
      if entry.None? {
        if Layered(rows) {
          forall s: Valuation | Sat(rows, s) ensures !Admissible(s) {
            StuckIsInfeasible(rows, exit, s);
          }
        }
        return Some(exit);
      }
      SolvedRow(rows, exit);
      PivotKeys(rows, entry.value, exit);
      PivotRepresents(rows, entry.value, exit, z, goal, equations);
      forall s: Valuation ensures Sat(RowAlgebra.Pivot(rows, entry.value, exit), s) <==> Sat(rows, s) {
        PivotMeaning(rows, entry.value, exit, s);
      }
      DualStepKeeps(rows, z, entry.value, exit);
      assert DualEntry(rows, z, entry.value, exit);
      tableau.Pivot(entry.value, exit);
      assert DualPivot(z, Dual(rows, listed), Dual(tableau.rows, tableau.infeasibleRows), entry.value);
      ListedAfterPivot(rows, tableau.rows, listed, tableau.infeasibleRows, entry.value, exit);
      NumberedMore(known, tableau.Known(), goal, equations, created, created);
    }

    /** The pivotable term of the infeasible row that costs the objective least. */
    method ChooseDualEntry(objectiveRow: Expr, row: Expr) returns (entry: Option<Variable>)
      ensures entry.Some? ==>
        && entry.value in row.terms && entry.value.IsPivotable() && row.terms[entry.value] > 0.0
        && forall v <- row.terms :: v.IsPivotable() && row.terms[v] > 0.0 ==>
             Coef(objectiveRow, entry.value) / row.terms[entry.value] <= Coef(objectiveRow, v) / row.terms[v]
      ensures entry.None? ==> forall v <- row.terms :: v.IsPivotable() ==> row.terms[v] <= 0.0
    {
      entry := None;
      var minRatio := 0.0;
      var todo := row.terms.Keys;
      while todo != {}
        invariant todo <= row.terms.Keys
        invariant entry.Some? ==>
          && entry.value in row.terms && entry.value.IsPivotable() && row.terms[entry.value] > 0.0
          && minRatio == Coef(objectiveRow, entry.value) / row.terms[entry.value]
        invariant forall v <- row.terms.Keys - todo :: v.IsPivotable() && row.terms[v] > 0.0 ==>
          entry.Some? && minRatio <= Coef(objectiveRow, v) / row.terms[v]
      {
        var v :| v in todo;
        todo := todo - {v};
        if v.IsPivotable() && row.terms[v] > 0.0 {
          var ratio := Coef(objectiveRow, v) / row.terms[v];
          if entry.None? || ratio < minRatio {
            minRatio, entry := ratio, Some(v);
          }
        }
      }
    }

    /** `resolve`.  When `optimize` raises, the values stay as they were. */
    method Resolve(fuel: nat) returns (outcome: Outcome, ghost run: seq<Exchange>)
      requires Valid() && Booked()
      modifies tableau, this`values
      ensures Valid() && Booked() && tableau.objective == old(tableau.objective)
      ensures forall s: Valuation :: Sat(tableau.rows, s) <==> Sat(old(tableau.rows), s)
      ensures old(Covered()) ==> Covered()
      ensures old(Sound(tableau.rows)) ==> Sound(tableau.rows) && (Bounded(goal) ==> !outcome.Unbounded?)
      ensures Ends(Stretch(old(tableau.rows), tableau.objective, run), fuel, outcome, tableau.rows)
      ensures !outcome.Optimal? ==> values == old(values)
      ensures outcome.Optimal? ==> Stopped(tableau.rows[tableau.objective]) && Reported()
    {
      hide Sat;
      hide Eval;
      hide Solved;
      hide IndexOutside;
      hide ExternalTermsRecorded;
      hide ExternalRowsMatch;
      hide Represents;
      hide Keyed;
      hide Mentions;
      hide Sound;
      hide Run;
      hide CanRun;
      hide OptimizerRun;
      hide Stopped;
      hide Registered;
      hide Numbered;
      hide BooksMatch;
      hide Externals;
      hide Bounded;
      hide Ends;
      ghost var rows, known := tableau.rows, tableau.Known();
      outcome, run := Optimize(tableau.objective, fuel);
      RunRepresents(rows, run, tableau.objective, goal, equations);
      forall s: Valuation ensures Sat(tableau.rows, s) <==> Sat(rows, s) {
        RunMeaning(rows, run, s);
      }
      NumberedMore(known, tableau.Known(), goal, equations, created, created);
      ExternalsOfFewer(known, tableau.Known());
      if Sound(rows) {
        RunSound(rows, tableau.objective, run);
        if outcome.Unbounded? && Bounded(goal) {
          GoalIsBounded(tableau.rows, tableau.objective, goal, equations, outcome.entry);
        }
      }
      if outcome.Optimal? {
        SetExternalVariables();
      }
    }

    /** The values handed to the program are those of the basic solution. */
    ghost predicate Reported()
      reads this`values, this`externalVariables, tableau
    {
      externalVariables <= values.Keys &&
      forall v <- externalVariables :: values[v] == BasicSolution(tableau.rows)(v)
    }

    /** `setExternalVariables` */
    method SetExternalVariables()
      requires tableau.Valid()
      modifies this`values
      ensures Reported() && values.Keys == old(values).Keys + externalVariables
      ensures forall v <- old(values) :: v !in externalVariables ==> values[v] == old(values)[v]
    {
      hide Solved;
      hide IndexOutside;
      hide ExternalTermsRecorded;
      hide BasicSolution;
      BasicValues(tableau.rows);
      var todo := externalVariables;
      while todo != {}
        invariant todo <= externalVariables
        invariant values.Keys == old(values).Keys + (externalVariables - todo)
        invariant forall v <- externalVariables - todo :: values[v] == BasicSolution(tableau.rows)(v)
        invariant forall v <- old(values) :: v !in externalVariables ==> values[v] == old(values)[v]
      {
        var v :| v in todo;
        todo := todo - {v};
        if v in tableau.rows {
          values := values[v := tableau.rows[v].constant];
        } else {
          values := values[v := 0.0];
        }
      }
    }

    /** Optimise the artificial objective. */
    method OptimizePhase(w: Variable, a: Variable, ghost equation: Expr, fuel: nat)
      returns (outcome: Outcome, ghost run: seq<Exchange>)
      requires Phase(w, a, equation) && Apart(w, a, equation)
      modifies tableau
      ensures Phase(w, a, equation) && Apart(w, a, equation) && tableau.objective == old(tableau.objective)
      ensures tableau.Known() <= old(tableau.Known())
      ensures forall s: Valuation :: Sat(tableau.rows, s) <==> Sat(old(tableau.rows), s)
      ensures Ends(Stretch(old(tableau.rows), w, run), fuel, outcome, tableau.rows)
      ensures outcome.Optimal? ==> Stopped(tableau.rows[w])
      ensures old(Sound(tableau.rows)) ==> Sound(tableau.rows) && !outcome.Unbounded?
    {
      hide Sat;
      hide Eval;
      hide Solved;
      hide IndexOutside;
      hide ExternalTermsRecorded;
      hide ExternalRowsMatch;
      hide Represents;
      hide Keyed;
      hide Mentions;
      hide Sound;
      hide Run;
      hide CanRun;
      hide OptimizerRun;
      hide Stopped;
      hide Ends;
      ghost var rows := tableau.rows;
      outcome, run := Optimize(w, fuel);
      RunRepresents(rows, run, tableau.objective, goal,
                    equations[w := With(equation, w, -1.0)][a := With(equation, a, -1.0)]);
      forall s: Valuation ensures Sat(tableau.rows, s) <==> Sat(rows, s) {
        RunMeaning(rows, run, s);
      }
      if Sound(rows) {
        RunSound(rows, w, run);
        if outcome.Unbounded? {
          BoundedBelow(tableau.rows, w, a, outcome.entry);
        }
      }
    }

    /** `optimize:`.  The run of pivots is returned for the record. */
    method Optimize(z: Variable, fuel: nat) returns (outcome: Outcome, ghost run: seq<Exchange>)
      requires tableau.Valid() && z in tableau.rows && z.kind.Objective?
      modifies tableau
      ensures tableau.Valid() && tableau.objective == old(tableau.objective)
      ensures tableau.Known() <= old(tableau.Known())
      ensures CanRun(old(tableau.rows), run) && OptimizerRun(old(tableau.rows), z, run)
      ensures tableau.rows == Run(old(tableau.rows), run) && z in tableau.rows
      ensures forall r: Variable :: !r.IsPivotable() ==> (r in tableau.rows <==> r in old(tableau.rows))
      ensures forall v <- tableau.columns :: v in old(tableau.columns) || v.IsPivotable()
      ensures Ends(Stretch(old(tableau.rows), z, run), fuel, outcome, tableau.rows)
      ensures outcome.Optimal? ==> Stopped(tableau.rows[z])
      ensures outcome.Unbounded? ==>
        && outcome.entry.IsPivotable() && Coef(tableau.rows[z], outcome.entry) < 0.0
        && forall r <- tableau.rows :: r.IsPivotable() ==> Coef(tableau.rows[r], outcome.entry) >= 0.0
    {
      hide Run;
      hide CanRun;
      hide OptimizerRun;
      hide RowAlgebra.Pivot;
      hide Solved;
      hide IndexOutside;
      hide ExternalTermsRecorded;
      hide ExternalRowsMatch;
      hide MinRatioExit;
      run := [];
      EmptyRun(tableau.rows, z);
      for i := 0 to fuel
        invariant tableau.Valid() && tableau.objective == old(tableau.objective)
        invariant tableau.Known() <= old(tableau.Known())
        invariant CanRun(old(tableau.rows), run) && OptimizerRun(old(tableau.rows), z, run) && |run| == i
        invariant tableau.rows == Run(old(tableau.rows), run) && z in tableau.rows
        invariant forall r: Variable :: !r.IsPivotable() ==> (r in tableau.rows <==> r in old(tableau.rows))
        invariant forall v <- tableau.columns :: v in old(tableau.columns) || v.IsPivotable()
      {
        var candidate := ChooseEntry(tableau.rows[z]);
        if candidate.None? {
          return Optimal, run;
        }
        var entry := candidate.value;
        var exit := tableau.FindPivotableExitVariable(entry);
        if exit.None? {
          return Unbounded(entry), run;
        }
        ghost var x := Exchange(entry, exit.value);
        assert OptimizerStep(tableau.rows, z, x);
        RunSnoc(old(tableau.rows), z, run, x);
        StepCanRun(tableau.rows, z, x);
        PivotKeys(tableau.rows, entry, exit.value);
        tableau.Pivot(entry, exit.value);
        run := run + [x];
      }
      return Interrupted, run;
    }

    /** The pivotable term with the most negative coefficient below the tolerance. */
    method ChooseEntry(row: Expr) returns (entry: Option<Variable>)
      ensures entry.Some? ==>
        && entry.value in row.terms && entry.value.IsPivotable() && row.terms[entry.value] < -TOLERANCE
        && forall v <- row.terms :: v.IsPivotable() ==> row.terms[entry.value] <= row.terms[v]
      ensures entry.None? ==> Stopped(row)
    {
      entry := None;
      var mostNegative := -TOLERANCE;
      var todo := row.terms.Keys;
      while todo != {}
        invariant todo <= row.terms.Keys && mostNegative <= -TOLERANCE
        invariant entry.None? ==> mostNegative == -TOLERANCE
        invariant entry.Some? ==>
          && entry.value in row.terms && entry.value.IsPivotable()
          && row.terms[entry.value] == mostNegative < -TOLERANCE
        invariant forall v <- row.terms :: v !in todo && v.IsPivotable() ==> mostNegative <= row.terms[v]
      {
        var v :| v in todo;
        todo := todo - {v};
        if v.IsPivotable() && row.terms[v] < mostNegative {
          mostNegative, entry := row.terms[v], Some(v);
        }
      }
    }
  }

  /** A constraint that can be met and is taken out again leaves the solver with the entries it
      had, and the program's variables with the values they could take before. */
  method AddAndRemove(solver: Solver, c: Constraint, fuel: nat) returns (result: AddResult)
    requires solver.Valid() && solver.Booked()
    requires forall v <- c.expression.terms :: v.IsClient()
    modifies solver, solver.tableau
    ensures result.Added? ==>
      && solver.Valid() && solver.Booked() && solver.entries == old(solver.entries)
      && solver.markerVariables == old(solver.markerVariables) - {c}
      && forall t: Valuation :: solver.Admits(t) <==> old(solver.Admits(t))
  {
    hide Solver.Valid;
    hide Solver.Booked;
    hide Solver.Covered;
    hide Solver.Admits;
    hide Solver.Reported;
    hide Ends;
    hide ArtificialPhase;
    hide Allowed;
    hide Sat;
    hide Sound;
    hide Feasible;
    hide Stopped;
    hide Refutes;
    hide Optimised;
    hide NewInfo;
    hide Entry.Signed;
    hide Constraint.SatisfiedBy;
    forall t: Valuation ensures solver.Admits(t) <==> Allowed(solver.entries, t) {
      solver.AdmitsExactly(t);
    }
    var added;
    ghost var e, t;
    result, added, e, t := solver.AddConstraint(c, fuel);
    if result.Added? {
      var raised, removed;
      raised, removed, t := solver.RemoveConstraint(c, fuel);
      assert solver.entries == old(solver.entries);
      forall t: Valuation ensures solver.Admits(t) <==> Allowed(solver.entries, t) {
        solver.AdmitsExactly(t);
      }
    }
  }
}
