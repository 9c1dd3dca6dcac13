/** What the solver keeps in order when it adds a constraint: the numbering of the variables
    it makes up, the variables a constraint owns, and the objective they enter. */
module Bookkeeping {
  import opened Options
  import opened Variables
  import opened LinearAlgebra
  import opened RowAlgebra
  import opened Expressions
  import opened Simplex
  import opened Tableaux
  import opened Incremental
  import opened Removal
  import opened Edits
  import opened Artificial
  import opened Constraints

  ghost predicate Before(v: Variable, created: nat) {
    v.IsClient() || v.serial < created
  }

  /** Everything the solver made up is numbered below `created`. */
  ghost predicate Numbered(known: set<Variable>, goal: Expr, eqs: Equations, created: nat) {
    && (forall v <- known :: Before(v, created))
    && (forall v <- goal.terms :: Before(v, created))
    && (forall k <- eqs :: k.IsRestricted() && Before(k, created))
    && (forall k <- eqs, v <- eqs[k].terms :: Before(v, created))
  }

  function MarkerSign(c: Constraint): real {
    if !c.IsInequality() && c.IsRequired() then 1.0 else -1.0
  }

  /** A constraint's expression with its own variables: slack or dummy marker, then error. */
  function Augment(e: Expr, c: Constraint, marker: Variable, error: Option<Variable>): Expr {
    var marked := AddTerm(e, marker, MarkerSign(c));
    if error.None? then marked else AddTerm(marked, error.value, 1.0)
  }

  function ErrorOf(errors: seq<Variable>): Option<Variable> {
    if errors == [] then None else Some(errors[|errors| - 1])
  }

  /** The marker and errors of `c`, numbered from `first` below `last`. */
  ghost predicate FreshOwn(c: Constraint, marker: Variable, errors: seq<Variable>, first: nat, last: nat) {
    && marker.IsRestricted() && first <= marker.serial < last
    && (forall e <- errors :: e.kind.Slack? && first <= e.serial < last)
    && (c.IsRequired() ==> errors == [])
    && (!c.IsRequired() ==> errors != [] && errors[|errors| - 1] != marker && marker.kind.Slack?)
    && (marker.kind.Dummy? <==> !c.IsInequality() && c.IsRequired())
    && |errors| <= 2
    && (!c.IsRequired() && c.IsInequality() ==> errors == [errors[0]])
    && (!c.IsRequired() && !c.IsInequality() ==> errors == [marker, errors[|errors| - 1]])
  }

  ghost predicate IsAugmented(equation: Expr, c: Constraint, marker: Variable, errors: seq<Variable>) {
    var stated := Augment(c.expression, c, marker, ErrorOf(errors));
    equation == stated || equation == Scale(stated, -1.0)
  }

  /** The goal with `strength` added on each error variable. */
  function AddErrors(goal: Expr, errors: seq<Variable>, strength: real): Expr {
    if errors == [] then goal
    else AddTerm(AddErrors(goal, errors[..|errors| - 1], strength), errors[|errors| - 1], strength)
  }

  /** Only the objective row moved, and only by error variables. */
  ghost predicate ObjectiveOnly(before: Rows, after: Rows, z: Variable, errors: seq<Variable>) {
    && z in before && after.Keys == before.Keys
    && (forall r <- before :: r != z ==> after[r] == before[r])
    && after[z].terms.Keys <= before[z].terms.Keys + ToSet(errors)
    && after[z].constant == before[z].constant
  }

  function ToSet(s: seq<Variable>): set<Variable> {
    set v | v in s
  }

  lemma NumberedMore(known: set<Variable>, now: set<Variable>, goal: Expr, eqs: Equations, first: nat, created: nat)
    requires Numbered(known, goal, eqs, first) && first <= created
    requires forall v <- now :: v in known || Before(v, created)
    ensures Numbered(now, goal, eqs, created)
  {
    forall k, v | k in eqs && v in eqs[k].terms ensures Before(v, created) {
      assert Before(v, first);
    }
  }

  /** The variables occur neither in the rows nor in the column index. */
  ghost predicate NewTo(rows: Rows, columns: Columns, marker: Variable, errors: seq<Variable>) {
    && (forall v | v == marker || v in errors :: v !in rows && v !in columns)
    && (forall r <- rows, v <- rows[r].terms :: v != marker && v !in errors)
  }

  lemma PivotKeys(rows: Rows, entry: Variable, exit: Variable)
    requires exit in rows && Coef(rows[exit], entry) != 0.0
    ensures Pivot(rows, entry, exit).Keys == rows.Keys - {exit} + {entry}
  {}

  lemma EvalAddTerm(e: Expr, v: Variable, k: real, s: Valuation)
    ensures Eval(AddTerm(e, v, k), s) == Eval(e, s) + Mul(k, s(v))
  {
    hide Eval;
    var r := AddTerm(e, v, k);
    if v !in e.terms {
      EvalWith(e, v, k, s);
    } else {
      EvalWithout(e, v, s);
      var sum := e.terms[v] + k;
      MulSum(e.terms[v], k, s(v));
      MulZero(s(v));
      if sum != 0.0 {
        EvalWithout(r, v, s);
        assert Without(r, v) == Without(e, v);
      }
    }
  }

  lemma SatRow(rows: Rows, v: Variable, s: Valuation)
    requires Sat(rows, s) && v in rows
    ensures s(v) == Eval(rows[v], s)
  {}

  /** A variable with an empty column, or one listing only `z`, is mentioned nowhere else. */
  lemma OnlyIn(rows: Rows, columns: Columns, v: Variable, z: Variable)
    requires IndexOf(rows, columns)
    ensures Column(columns, v) <= {z} ==> forall r <- rows :: v in rows[r].terms ==> r == z
  {
    forall r | r in rows && v in rows[r].terms ensures r in Column(columns, v) {
    }
  }

  lemma SubstituteNowhere(rows: Rows, columns: Columns, v: Variable, e: Expr)
    requires IndexOf(rows, columns) && v !in columns
    ensures SubstituteAll(rows, v, e) == rows
  {
    NotMentioned(rows, columns, v);
    SubstituteElsewhere(rows, v, e);
  }

  lemma LooseMore(rows: Rows, recorded: set<Variable>, indexed: set<Variable>, loose: set<Variable>)
    requires ExternalTermsRecorded(rows, recorded, indexed, {})
    ensures ExternalTermsRecorded(rows, recorded, indexed, loose)
  {}

  lemma NotRecorded(rows: Rows, recorded: set<Variable>, indexed: set<Variable>, v: Variable)
    requires ExternalTermsRecorded(rows, recorded, indexed, {}) && v !in indexed
    ensures v !in recorded
  {}

  lemma NotMentioned(rows: Rows, columns: Columns, v: Variable)
    requires IndexOf(rows, columns) && v !in columns
    ensures forall r <- rows :: v !in rows[r].terms
  {
    forall r, u | r in rows && u in rows[r].terms ensures u != v {
      assert r in Column(columns, u);
    }
  }

  lemma AddTermKeys(e: Expr, v: Variable, k: real)
    ensures AddTerm(e, v, k).terms.Keys <= e.terms.Keys + {v}
    ensures AddTerm(e, v, k).constant == e.constant
    ensures v !in e.terms && k != 0.0 ==> AddTerm(e, v, k).terms.Keys == e.terms.Keys + {v}
  {}

  lemma AugmentFacts(e: Expr, c: Constraint, marker: Variable, error: Option<Variable>)
    requires marker !in e.terms && (error.Some? ==> error.value !in e.terms && error.value != marker)
    ensures var a := Augment(e, c, marker, error);
            && (ZeroFree(e) ==> ZeroFree(a)) && a.constant == e.constant
            && a.terms.Keys == e.terms.Keys + {marker} + (if error.Some? then {error.value} else {})
            && Coef(a, marker) == MarkerSign(c) && (error.Some? ==> Coef(a, error.value) == 1.0)
            && (forall s: Valuation {:trigger Eval(a, s)} :: Eval(a, s) ==
                  Eval(e, s) + Mul(MarkerSign(c), s(marker)) + if error.Some? then Mul(1.0, s(error.value)) else 0.0)
  {
    hide Eval;
    hide Mul;
    var marked := AddTerm(e, marker, MarkerSign(c));
    var a := Augment(e, c, marker, error);
    forall s: Valuation
      ensures Eval(a, s) ==
        Eval(e, s) + Mul(MarkerSign(c), s(marker)) + if error.Some? then Mul(1.0, s(error.value)) else 0.0
    {
      EvalAddTerm(e, marker, MarkerSign(c), s);
      if error.Some? {
        EvalAddTerm(marked, error.value, 1.0, s);
      }
    }
  }

  lemma ScaleFacts(e: Expr)
    ensures var n := Scale(e, -1.0);
            && (ZeroFree(e) ==> ZeroFree(n)) && n.terms.Keys == e.terms.Keys && n.constant == -e.constant
            && (forall v :: Coef(n, v) == -Coef(e, v))
            && (forall s: Valuation {:trigger Eval(n, s)} :: Eval(n, s) == -Eval(e, s))
  {
    hide Eval;
    forall s: Valuation ensures Eval(Scale(e, -1.0), s) == -Eval(e, s) {
      EvalScale(-1.0, e, Scale(e, -1.0), s);
    }
  }

  /** New variables occur nowhere yet. */
  lemma OwnIsNew(rows: Rows, columns: Columns, goal: Expr, eqs: Equations, created: nat, marker: Variable,
                 errors: seq<Variable>)
    requires Numbered(rows.Keys + columns.Keys, goal, eqs, created) && IndexOf(rows, columns)
    requires forall v | v == marker || v in errors :: !v.IsClient() && v.serial >= created
    ensures forall v | v == marker || v in errors :: v !in goal.terms && v !in eqs && !Mentions(eqs, v)
    ensures NewTo(rows, columns, marker, errors)
  {
    forall v | v == marker || v in errors
      ensures v !in rows && v !in columns && v !in goal.terms && v !in eqs && !Mentions(eqs, v)
    {
      assert !Before(v, created);
    }
    forall r | r in rows ensures forall v <- rows[r].terms :: v in columns {
      TermsHaveColumns(rows, columns, r);
    }
  }

  /** After the errors enter the objective row their columns list that row at most. */
  lemma OwnColumns(before: Rows, after: Rows, columns: Columns, z: Variable, errors: seq<Variable>, marker: Variable)
    requires ObjectiveOnly(before, after, z, errors) && IndexOf(after, columns)
    requires exists columnsBefore :: NewTo(before, columnsBefore, marker, errors)
    ensures forall v | v == marker || v in errors :: Column(columns, v) <= {z}
  {
    forall v, r | (v == marker || v in errors) && r in Column(columns, v) ensures r == z {
    }
  }

  lemma BaseTransfer(before: Rows, after: Rows, z: Variable, base: Expr, e: Expr, s: Valuation)
    requires Solved(before) && z in before && after.Keys == before.Keys && Sat(after, s)
    requires forall r <- before :: r != z ==> after[r] == before[r]
    requires z !in base.terms && z !in e.terms
    requires forall t: Valuation :: Sat(before, t) ==> Eval(base, t) == Eval(e, t)
    ensures Eval(base, s) == Eval(e, s)
  {
    hide Eval;
    var x := Eval(before[z], s);
    ObjectiveTransfer(before, after, z, s);
    EvalUpdateAbsent(base, s, z, x);
    EvalUpdateAbsent(e, s, z, x);
  }

  lemma NotInBase(base: Expr, e: Expr, rows: Rows, columns: Columns, marker: Variable, errors: seq<Variable>)
    requires forall v <- base.terms :: v.IsClient() || v in columns
    requires forall v <- e.terms :: v.IsClient()
    requires forall v | v == marker || v in errors :: !v.IsClient()
    requires NewTo(rows, columns, marker, errors)
    ensures forall v | v == marker || v in errors :: v !in base.terms && v !in e.terms
  {}

  lemma AddErrorsUpToTwo(goal: Expr, errors: seq<Variable>, k: real)
    ensures errors == [] ==> AddErrors(goal, errors, k) == goal
    ensures |errors| == 1 ==> AddErrors(goal, errors, k) == AddTerm(goal, errors[0], k)
    ensures |errors| == 2 ==> AddErrors(goal, errors, k) == AddTerm(AddTerm(goal, errors[0], k), errors[1], k)
  {
    if |errors| == 2 {
      assert errors[..1] == [errors[0]] && [errors[0]][..0] == [];
    }
  }

  lemma ObjectiveUnmoved(rows: Rows, z: Variable, errors: seq<Variable>)
    requires z in rows
    ensures ObjectiveOnly(rows, rows, z, errors)
  {}

  lemma ObjectiveMoves(before: Rows, rows: Rows, z: Variable, errors: seq<Variable>, v: Variable, k: real)
    requires ObjectiveOnly(before, rows, z, errors) && v in errors
    ensures z in rows && ObjectiveOnly(before, rows[z := AddTerm(rows[z], v, k)], z, errors)
  {
    AddTermKeys(rows[z], v, k);
  }

  lemma ArtificialIsNew(rows: Rows, columns: Columns, goal: Expr, eqs: Equations, created: nat, a: Variable,
                        w: Variable)
    requires Numbered(rows.Keys + columns.Keys, goal, eqs, created) && IndexOf(rows, columns)
    requires a == Variable(Slack, created) && w == Variable(Objective, created + 1)
    ensures forall v | v == a || v == w ::
      && !Before(v, created) && v !in goal.terms && v !in eqs && !Mentions(eqs, v) && v !in rows && v !in columns
    ensures forall r <- rows :: a !in rows[r].terms && w !in rows[r].terms
  {
    forall v | v == a || v == w
      ensures !Before(v, created) && v !in goal.terms && v !in eqs && !Mentions(eqs, v) && v !in rows && v !in columns
    {
      assert !Before(v, created);
    }
    NotMentioned(rows, columns, a);
    NotMentioned(rows, columns, w);
  }

  lemma PhaseApart(eqs: Equations, w: Variable, a: Variable, equation: Expr)
    requires a != w && a !in eqs && !Mentions(eqs, a) && a !in equation.terms
    ensures var more := eqs[w := With(equation, w, -1.0)]; a !in more && !Mentions(more, a)
  {}

  lemma NewRowsSound(rows: Rows, w: Variable, a: Variable, e: Expr)
    requires Sound(rows) && OnlyRestricted(e) && e.constant >= 0.0 && w.kind.Objective? && a.kind.Slack?
    ensures Sound(rows[w := e][a := e])
  {
    hide Sound;
    NewRowSound(rows, w, e);
    NewRowSound(rows[w := e], a, e);
  }

  /** The artificial objective has the artificial variable's value, so it is bounded below. */
  lemma BoundedBelow(rows: Rows, w: Variable, a: Variable, entry: Variable)
    requires Solved(rows) && Sound(rows) && Twins(rows, w, a) && w in rows && a.kind.Slack?
    requires entry.IsPivotable() && Coef(rows[w], entry) < 0.0
    ensures exists r <- rows :: r.IsPivotable() && Coef(rows[r], entry) < 0.0
  {
    if forall r <- rows :: r.IsPivotable() ==> Coef(rows[r], entry) >= 0.0 {
      var s := NoExitIsUnbounded(rows, w, entry, 0.0);
    }
  }

  /** The artificial objective stopped above zero: its row refutes the equation. */
  lemma Refuted(rows: Rows, w: Variable, a: Variable, z: Variable, goal: Expr, eqs: Equations, equation: Expr)
    requires Solved(rows) && Sound(rows) && Twins(rows, w, a) && w in rows && w.kind.Objective? && a.kind.Slack?
    requires w != z && a != z && w != a && w !in goal.terms && a !in goal.terms && z !in goal.terms
    requires w !in eqs && a !in eqs && !Mentions(eqs, w) && !Mentions(eqs, a) && !Mentions(eqs, z)
    requires w !in equation.terms && a !in equation.terms && z !in equation.terms && z.kind.Objective?
    requires Represents(rows, z, goal, eqs[w := With(equation, w, -1.0)][a := With(equation, a, -1.0)])
    requires Stopped(rows[w]) && rows[w].constant != 0.0
    ensures a in rows && Refutes(rows[a], eqs, equation)
  {
    hide Represents;
    hide Holds;
    hide Eval;
    hide Mentions;
    NonZeroLeavesArtificial(rows, w, a);
    TwinRows(rows, w, a);
    forall s: Valuation | Admissible(s) && Holds(eqs, s) && Eval(equation, s) == 0.0
      ensures rows[w].constant <= TOLERANCE * Eval(Ones(SlackTerms(rows[w])), s) && !Optimised(rows[w])
    {
      PositiveArtificialIsInfeasible(rows, w, a, z, goal, eqs, equation, s);
    }
  }

  lemma PivotableFor(before: Rows, e: Expr, a: Variable, after: Rows)
    requires Solved(before) && Sound(before) && Solved(after) && Sound(after) && a.kind.Slack?
    requires a in before && before[a] == e
    requires (exists v <- e.terms :: v.IsPivotable()) || e.constant != 0.0
    requires forall s: Valuation :: Sat(after, s) <==> Sat(before, s)
    requires a in after && after[a].constant == 0.0
    ensures exists v <- after[a].terms :: v.IsPivotable()
  {
    PivotableExists(before, e, a, after);
  }

  /** The list with the new equation is numbered, keyed and free of the objective. */
  lemma MarkerEntry(known: set<Variable>, now: set<Variable>, goal: Expr, eqs: Equations, m: Variable, z: Variable,
                    equation: Expr, first: nat, created: nat)
    requires Numbered(known, goal, eqs, first) && first <= created && Keyed(eqs)
    requires forall v <- now :: v in known || Before(v, created)
    requires m.IsRestricted() && m !in eqs && m in equation.terms && !Mentions(eqs, m) && Coef(equation, m) != 0.0
    requires forall k <- eqs :: k !in equation.terms
    requires forall v <- equation.terms :: Before(v, created)
    requires z !in equation.terms && z !in eqs && !Mentions(eqs, z)
    ensures var more := eqs[m := equation];
            Numbered(now, goal, more, created) && Keyed(more) && !Mentions(more, z) && z !in more
  {
    EntryKeyed(eqs, m, equation);
    NumberedMore(known, now, goal, eqs, first, created);
  }

  lemma ArtificialEntry(known: set<Variable>, now: set<Variable>, goal: Expr, eqs: Equations, w: Variable, a: Variable,
                        z: Variable, equation: Expr, first: nat, created: nat)
    requires Numbered(known, goal, eqs, first) && first <= created && Keyed(eqs)
    requires forall v <- now :: v in known || Before(v, created)
    requires w != a && w !in eqs && a !in eqs && !Mentions(eqs, w) && !Mentions(eqs, a)
    requires w !in equation.terms && a !in equation.terms && forall k <- eqs :: k !in equation.terms
    requires a.IsRestricted() && Before(a, created) && forall v <- equation.terms :: Before(v, created)
    requires z != a && z !in equation.terms && z !in eqs && !Mentions(eqs, z)
    ensures var more := eqs[a := With(equation, a, -1.0)];
            Numbered(now, goal, more, created) && Keyed(more) && !Mentions(more, z) && z !in more
  {
    PhaseKeyed(eqs, w, a, equation);
    NumberedMore(known, now, goal, eqs, first, created);
  }

  /** A row entered directly stands for the new equation, negated or not. */
  lemma DirectRepresents(rows: Rows, z: Variable, goal: Expr, eqs: Equations, expression: Expr, e: Expr,
                         subject: Variable, m: Variable, equation: Expr)
    requires Solved(rows) && Represents(rows, z, goal, eqs) && m !in eqs
    requires ZeroFree(e) && subject in e.terms && forall v <- e.terms :: v !in rows
    requires e == expression || e == Scale(expression, -1.0)
    requires forall s: Valuation :: Sat(rows, s) ==> Eval(expression, s) == Eval(equation, s)
    ensures Represents(Enter(rows, e, subject), z, goal, eqs[m := equation])
  {
    hide Eval;
    hide Sat;
    hide Represents;
    hide Enter;
    hide Scale;
    ScaleFacts(expression);
    EnterRepresents(rows, z, goal, eqs, e, subject, m, equation);
  }

  /** New errors in the objective row do not disturb the invariant. */
  lemma ObjectiveOnlySound(before: Rows, after: Rows, z: Variable, errors: seq<Variable>)
    requires Sound(before) && ObjectiveOnly(before, after, z, errors) && z.kind.Objective?
    requires forall v <- errors :: v.kind.Slack?
    ensures Sound(after)
  {
    forall r, v | r in after && v in after[r].terms
      ensures r.kind.Dummy? ==> v.kind.Dummy?
      ensures r.IsRestricted() || r.kind.Objective? ==> v.IsRestricted()
    {
      if r == z {
        assert v in before[z].terms || v in errors;
      } else {
        assert after[r] == before[r];
      }
    }
  }

  /** Every row but the objective's is as it was. */
  ghost predicate ObjectiveMoved(before: Rows, after: Rows, z: Variable) {
    && z in before && after.Keys == before.Keys
    && forall r <- before :: r != z ==> after[r] == before[r]
  }

  lemma AddTermZeroFree(e: Expr, v: Variable, k: real)
    requires ZeroFree(e)
    ensures ZeroFree(AddTerm(e, v, k))
  {}

  lemma ScaledParts(e: Expr, k: real)
    ensures Scale(e, k).terms.Keys == e.terms.Keys && Scale(e, k).constant == k * e.constant
    ensures forall v {:trigger Coef(Scale(e, k), v)} :: Coef(Scale(e, k), v) == k * Coef(e, v)
  {
    MulZero(k);
  }

  lemma EvalMultiple(e: Expr, d: Expr, n: real, sum: Expr, s: Valuation)
    requires sum.constant == e.constant + n * d.constant
    requires forall t {:trigger Coef(sum, t)} :: Coef(sum, t) == Coef(e, t) + Coef(Scale(d, n), t)
    ensures Eval(sum, s) == Eval(e, s) + Mul(n, Eval(d, s))
  {
    EvalSum(e, Scale(d, n), sum, s);
    EvalScale(n, d, Scale(d, n), s);
  }

  /** Moving the objective row and the goal by the same multiple of one error variable. */
  lemma GoalStep(rows: Rows, z: Variable, row: Expr, v: Variable, k: real, goal: Expr, eqs: Equations,
                 known: set<Variable>, now: set<Variable>, created: nat)
    requires Solved(rows) && z in rows && Represents(rows, z, goal, eqs) && !Mentions(eqs, z)
    requires v.kind.Slack? && v.serial < created && z.kind.Objective? && z !in row.terms
    requires ZeroFree(goal) && (forall u <- goal.terms :: u.kind.Slack?)
    requires Numbered(known, goal, eqs, created) && now <= known + {v}
    requires forall s: Valuation :: Sat(rows - {z}, s) ==> Eval(row, s) == Eval(rows[z], s) + Mul(k, s(v))
    ensures var after := AddTerm(goal, v, k);
            && Represents(rows[z := row], z, after, eqs)
            && ZeroFree(after) && (forall u <- after.terms :: u.kind.Slack?)
            && Numbered(now, after, eqs, created)
  {
    hide Eval;
    hide Sat;
    hide Mul;
    var after := AddTerm(goal, v, k);
    forall s: Valuation ensures Eval(after, s) == Eval(goal, s) + Mul(k, s(v)) {
      EvalAddTerm(goal, v, k, s);
    }
    AddTermZeroFree(goal, v, k);
    ObjectiveRepresents(rows, z, row, v, k, goal, after, eqs);
  }

  lemma ColumnNonZero(rows: Rows, columns: Columns, m: Variable)
    requires Solved(rows) && IndexOf(rows, columns)
    ensures forall r :: r in Column(columns, m) <==> r in rows && Coef(rows[r], m) != 0.0
  {
    ColumnIs(rows, columns, m);
  }

  lemma QuotientNegated(b: real, c: real)
    requires c != 0.0
    ensures b / c == -(-b / c)
  {}

  lemma KeysAreRestricted(known: set<Variable>, goal: Expr, eqs: Equations, created: nat)
    requires Numbered(known, goal, eqs, created)
    ensures forall k <- eqs :: k.IsRestricted()
  {}

  lemma FewerEquations(known: set<Variable>, now: set<Variable>, goal: Expr, eqs: Equations, m: Variable, z: Variable,
                       created: nat)
    requires Numbered(known, goal, eqs, created) && now <= known && Keyed(eqs) && !Mentions(eqs, z)
    ensures Numbered(now, goal, eqs - {m}, created) && Keyed(eqs - {m}) && !Mentions(eqs - {m}, z)
  {}

  lemma WithoutAbsent(rows: Rows, v: Variable)
    requires forall r <- rows :: v !in rows[r].terms
    ensures forall r <- rows :: Without(rows[r], v) == rows[r]
  {
    forall r <- rows ensures Without(rows[r], v) == rows[r] {
      assert rows[r].terms - {v} == rows[r].terms;
    }
  }

  /** The objective row plays no part in the choice of the exit variable. */
  lemma ExitIgnoresObjective(before: Rows, after: Rows, z: Variable, m: Variable, exit: Variable)
    requires ObjectiveMoved(before, after, z) && z.kind.Objective?
    ensures MarkerExit(before, z, m, exit) <==> MarkerExit(after, z, m, exit)
    ensures Stranded(before, m) <==> Stranded(after, m)
  {
    assert forall r {:trigger Drains(before, m, r)} {:trigger Drains(after, m, r)} :: Drains(before, m, r) <==>
      Drains(after, m, r);
    assert forall r {:trigger Restricts(before, m, r)} {:trigger Restricts(after, m, r)} :: Restricts(before, m, r) <==>
      Restricts(after, m, r);
  }

  /** What the release of a marker does to the invariant. */
  lemma Released(before: Rows, moved: Rows, after: Rows, z: Variable, goal: Expr, eqs: Equations,
                 m: Variable, exit: Option<Variable>)
    requires Solved(moved) && Sound(before) && ObjectiveMoved(before, moved, z) && z.kind.Objective?
    requires Solved(after) && Represents(after, z, goal, eqs) && z in after
    requires forall v <- goal.terms :: v.kind.Slack?
    requires forall r <- after :: r.kind.Objective? ==> r == z
    requires m.IsRestricted() && (exit.None? <==> m in before)
    requires exit.Some? ==> MarkerExit(moved, z, m, exit.value)
    requires after == (if exit.None? then moved else Pivot(moved, m, exit.value)) - {m}
    ensures exit.Some? ==> MarkerExit(before, z, m, exit.value)
    ensures Feasible(after) <==> exit.None? || !Stranded(before, m)
    ensures Sound(after) <==>
      exit.None? || exit.value.kind.Dummy? || forall d <- before :: d.kind.Dummy? ==> m !in before[d].terms
  {
    hide Pivot;
    hide MarkerExit;
    hide Stranded;
    hide Represents;
    hide Solved;
    assert forall r <- before :: r.IsRestricted() ==> moved[r] == before[r];
    if exit.Some? {
      ExitIgnoresObjective(before, moved, z, m, exit.value);
      RemovalKeepsFeasible(moved, z, m, exit.value);
      RemovalKeepsLayers(moved, z, m, exit.value);
      ObjectiveRestricted(after, z, goal, eqs);
      RemovalKeepsSound(moved, z, m, exit.value);
    } else {
      ObjectiveRestricted(after, z, goal, eqs);
    }
  }

  lemma ExternalsListed(before: set<Variable>, terms: set<Variable>, listed: set<Variable>)
    requires Externals(before) <= listed
    requires forall v <- terms :: v.IsExternal() ==> v in listed || v in before
    ensures Externals(terms) <= listed
  {
    forall v | v in terms && v.IsExternal() ensures v in listed {
      if v in before { assert v in Externals(before); }
    }
  }

  lemma ExternalsOfFewer(before: set<Variable>, now: set<Variable>)
    requires now <= before
    ensures Externals(now) <= Externals(before)
  {}

  /** A goal that is a sum of errors with non-negative weights. */
  ghost predicate Bounded(goal: Expr) {
    forall v <- goal.terms :: v.kind.Slack? && goal.terms[v] >= 0.0
  }

  lemma BoundedGoal(goal: Expr, s: Valuation)
    requires Bounded(goal) && Admissible(s)
    ensures Eval(goal, s) >= goal.constant
  {
    hide Dot;
    hide Mul;
    var none := Expr(map[], 0.0);
    forall v | v in goal.terms ensures Mul(Coef(none, v), s(v)) <= Mul(Coef(goal, v), s(v)) {
      MulZero(s(v));
      MulSign(Coef(goal, v), s(v));
    }
    DotMonotone(goal.terms.Keys, none, goal, s);
    DotWiden({}, goal.terms.Keys, none, s);
    DotZero({}, none, s);
  }

  /** Such an objective is never unbounded: some row stops the entry variable. */
  lemma GoalIsBounded(rows: Rows, z: Variable, goal: Expr, eqs: Equations, entry: Variable)
    requires Solved(rows) && Sound(rows) && Represents(rows, z, goal, eqs) && Bounded(goal) && z in rows
    requires entry.IsPivotable() && Coef(rows[z], entry) < 0.0
    ensures exists r <- rows :: r.IsPivotable() && Coef(rows[r], entry) < 0.0
  {
    if forall r <- rows :: r.IsPivotable() ==> Coef(rows[r], entry) >= 0.0 {
      var s := NoExitIsUnbounded(rows, z, entry, goal.constant);
      BoundedGoal(goal, s);
    }
  }

  lemma BasicValues(rows: Rows)
    requires Solved(rows)
    ensures forall v: Variable :: BasicSolution(rows)(v) == if v in rows then rows[v].constant else 0.0
  {
    FeasibleMeansAdmissible(rows);
  }

  lemma EmptyRun(rows: Rows, z: Variable)
    ensures CanRun(rows, []) && OptimizerRun(rows, z, []) && Run(rows, []) == rows
  {}

  /** Restricted rows that are infeasible now are listed, unless they have not moved; only
      restricted rows are added to the list. */
  ghost predicate Listed(before: Rows, after: Rows, listedBefore: seq<Variable>, listed: seq<Variable>) {
    && (forall r <- listedBefore :: r in listed)
    && (forall r <- after :: r.IsRestricted() && after[r].constant < 0.0 ==>
          r in listed || (r in before && before[r] == after[r]))
    && (forall r <- listed :: r in listedBefore || r.IsRestricted())
  }

  /** Moving constants changes nothing the bookkeeping looks at. */
  lemma EditKeeps(known: set<Variable>, goal: Expr, offset: real, eqs: Equations, k: Variable, shift: real, z: Variable,
                  created: nat)
    requires Numbered(known, goal, eqs, created) && Keyed(eqs) && !Mentions(eqs, z) && k in eqs && z !in eqs
    ensures var moved := eqs[k := ShiftConstant(eqs[k], shift)];
            && Numbered(known, ShiftConstant(goal, offset), moved, created)
            && Keyed(moved) && !Mentions(moved, z) && z !in moved
  {
    var moved := eqs[k := ShiftConstant(eqs[k], shift)];
    assert forall j <- moved :: moved[j].terms == eqs[j].terms;
  }

  ghost function Shifted(e: Expr, v: Variable, d: real): Expr { ShiftConstant(e, Coef(e, v) * d) }

  /** The rows in `done` shifted, the others not yet. */
  ghost function ShiftPart(rows: Rows, v: Variable, d: real, done: set<Variable>): Rows {
    map r | r in rows :: if r in done then Shifted(rows[r], v, d) else rows[r]
  }

  lemma ShiftPartAt(rows: Rows, v: Variable, d: real, done: set<Variable>, r: Variable)
    requires r in rows
    ensures ShiftPart(rows, v, d, done).Keys == rows.Keys
    ensures ShiftPart(rows, v, d, done)[r] == if r in done then Shifted(rows[r], v, d) else rows[r]
  {
    hide Shifted;
  }

  lemma NoShift(e: Expr, v: Variable, d: real)
    requires v !in e.terms
    ensures Shifted(e, v, d) == e
  {
    MulZero(d);
  }

  lemma ShiftPartEnds(rows: Rows, v: Variable, d: real, column: set<Variable>)
    requires forall r :: r in column <==> r in rows && v in rows[r].terms
    ensures ShiftPart(rows, v, d, {}) == rows && column - column == {}
    ensures ShiftPart(rows, v, d, column) == ShiftColumn(rows, v, d)
  {
    var all, target := ShiftPart(rows, v, d, column), ShiftColumn(rows, v, d);
    forall r | r in rows ensures all[r] == target[r] {
      ShiftPartAt(rows, v, d, column, r);
      if r !in column {
        NoShift(rows[r], v, d);
      }
    }
    assert all == target;
    assert ShiftPart(rows, v, d, {}) == rows;
  }

  lemma ShiftPartIs(rows: Rows, v: Variable, d: real, done: set<Variable>)
    ensures var mid := ShiftPart(rows, v, d, done);
            mid.Keys == rows.Keys && forall r <- rows :: r !in done ==> mid[r] == rows[r]
  {}

  lemma ShiftPartNext(rows: Rows, v: Variable, d: real, done: set<Variable>, r: Variable, amount: real)
    requires r in rows && r !in done && amount == Coef(rows[r], v) * d
    ensures r in ShiftPart(rows, v, d, done)
    ensures ShiftPart(rows, v, d, done + {r}) == ShiftRow(ShiftPart(rows, v, d, done), r, amount)
  {
    var next, moved := ShiftPart(rows, v, d, done + {r}), ShiftRow(ShiftPart(rows, v, d, done), r, amount);
    assert next.Keys == moved.Keys;
    forall q | q in rows ensures next[q] == moved[q] {
      ShiftPartAt(rows, v, d, done, q);
      ShiftPartAt(rows, v, d, done + {r}, q);
    }
    assert next == moved;
  }

  lemma ShiftRowIs(rows: Rows, r: Variable, d: real)
    requires r in rows
    ensures ShiftRow(rows, r, d).Keys == rows.Keys && forall q <- rows :: q != r ==> ShiftRow(rows, r, d)[q] == rows[q]
  {}

  lemma ListedFirst(rows: Rows, listed: seq<Variable>)
    ensures Listed(rows, rows, listed, listed)
  {}

  lemma ListedNext(before: Rows, mid: Rows, r: Variable, after: Rows,
                   first: seq<Variable>, listed: seq<Variable>, now: seq<Variable>)
    requires Listed(before, mid, first, listed) && r in mid && after.Keys == mid.Keys
    requires forall q <- mid :: q != r ==> after[q] == mid[q]
    requires now == listed + if r.IsRestricted() && after[r].constant < 0.0 then [r] else []
    ensures Listed(before, after, first, now)
  {}

  /** Every infeasible restricted row is on the list, and nothing unrestricted is. */
  ghost predicate AllListed(rows: Rows, listed: seq<Variable>) {
    && (forall r <- rows :: r.IsRestricted() && rows[r].constant < 0.0 ==> r in listed)
    && (forall r <- listed :: r.IsRestricted())
  }

  lemma ListedRest(rows: Rows, listed: seq<Variable>)
    requires listed != [] && (listed[0] !in rows || rows[listed[0]].constant >= 0.0)
    ensures AllListed(rows, listed) ==> AllListed(rows, listed[1..])
  {
    assert forall r <- listed :: r == listed[0] || r in listed[1..];
  }

  lemma ListedAfterPivot(before: Rows, after: Rows, listed: seq<Variable>, now: seq<Variable>, entry: Variable,
                         exit: Variable)
    requires listed != [] && listed[0] == exit && exit !in after
    requires entry in after && after[entry].constant > 0.0
    requires forall r <- listed[1..] :: r in now
    requires forall r <- after :: r.IsRestricted() && r != entry && after[r].constant < 0.0 ==>
      r in now || (r in before && after[r] == before[r])
    requires forall r <- now :: r in listed[1..] || r.IsRestricted()
    ensures AllListed(before, listed) ==> AllListed(after, now)
  {
    assert forall r <- listed :: r == listed[0] || r in listed[1..];
  }

  lemma StuckIsInfeasible(rows: Rows, exit: Variable, s: Valuation)
    requires exit in rows && exit.IsRestricted() && rows[exit].constant < 0.0 && Layered(rows)
    requires forall v <- rows[exit].terms :: v.IsPivotable() ==> rows[exit].terms[v] <= 0.0
    requires Sat(rows, s)
    ensures !Admissible(s)
  {
    NoDualEntryIsInfeasible(rows, exit, s);
  }

  lemma ListedAfterEdit(before: Rows, after: Rows, listedBefore: seq<Variable>, listed: seq<Variable>)
    requires Listed(before, after, listedBefore, listed)
    ensures AllListed(before, listedBefore) ==> AllListed(after, listed)
  {}

  /** Moving constants along the error variables of a preferred constraint keeps all of the
      invariant but the signs of the slack rows, and the objective row's coefficients. */
  lemma EditRepairable(rows: Rows, z: Variable, delta: real, plus: Variable, minus: Option<Variable>)
    requires z in rows
    ensures Layered(rows) ==> Layered(EditRows(rows, delta, plus, minus))
    ensures Optimised(rows[z]) ==> Optimised(EditRows(rows, delta, plus, minus)[z])
    ensures Repairable(rows) && plus.kind.Slack? && (minus.Some? ==> minus.value.kind.Slack?) ==>
      Repairable(EditRows(rows, delta, plus, minus))
  {
    var after := EditRows(rows, delta, plus, minus);
    forall r <- after ensures after[r].terms == rows[r].terms {
    }
    if DummyFeasible(rows) && DummyRowsPure(rows) && plus.kind.Slack? && (minus.Some? ==> minus.value.kind.Slack?) {
      forall r | r in rows && r.kind.Dummy? ensures after[r].constant == 0.0 {
        MulZero(delta);
      }
    }
  }

  /** A dual step keeps it too: dummy rows are zero, so only a slack row is repaired. */
  lemma DualStepRepairable(rows: Rows, entry: Variable, exit: Variable)
    requires Solved(rows) && Repairable(rows) && exit in rows && entry in rows[exit].terms
    requires entry.IsPivotable() && exit.IsRestricted() && rows[exit].constant < 0.0
    ensures Repairable(Pivot(rows, entry, exit))
  {
    hide Pivot;
    hide Mul;
    assert exit.IsPivotable();
    PivotLayered(rows, entry, exit);
    StepKeepsPurity(rows, entry, exit);
    PivotConstants(rows, entry, exit);
    forall r | r in rows && r.kind.Dummy? ensures Mul(Coef(rows[r], entry), Ratio(rows, entry, exit)) == 0.0 {
      MulZero(Ratio(rows, entry, exit));
    }
  }

  /** What a dual step keeps, and what it repairs. */
  lemma DualStepKeeps(rows: Rows, z: Variable, entry: Variable, exit: Variable)
    requires Solved(rows) && DualEntry(rows, z, entry, exit) && z != exit && exit.IsRestricted()
      && rows[exit].constant < 0.0
    ensures Pivot(rows, entry, exit)[entry].constant > 0.0
    ensures Optimised(rows[z]) ==> Optimised(Pivot(rows, entry, exit)[z])
    ensures Layered(rows) ==> Layered(Pivot(rows, entry, exit))
    ensures Repairable(rows) ==> Repairable(Pivot(rows, entry, exit))
  {
    hide Pivot;
    hide Layered;
    hide Repairable;
    hide Optimised;
    DualStepRepairs(rows, z, entry, exit);
    if Optimised(rows[z]) {
      DualStepKeepsOptimal(rows, z, entry, exit);
    }
    if Layered(rows) {
      PivotLayered(rows, entry, exit);
    }
    if Repairable(rows) {
      DualStepRepairable(rows, entry, exit);
    }
  }

  lemma RepairedIsSound(rows: Rows)
    requires Repairable(rows) && AllListed(rows, [])
    ensures Sound(rows)
  {}

  lemma SoundIsRepairable(rows: Rows)
    ensures Sound(rows) ==> Repairable(rows)
  {}

  lemma SoundIsListed(rows: Rows, listed: seq<Variable>)
    requires forall r <- listed :: r.IsRestricted()
    ensures Sound(rows) ==> AllListed(rows, listed)
  {}

  /** Variables that occur nowhere can be edited without effect. */
  lemma EditNowhere(rows: Rows, delta: real, plus: Variable, minus: Option<Variable>)
    requires !AnyBasic(rows, plus, minus) && forall r <- rows :: plus !in rows[r].terms
    ensures EditRows(rows, delta, plus, minus) == rows
  {
    var after := EditRows(rows, delta, plus, minus);
    forall r | r in rows ensures after[r] == rows[r] {
      MulZero(delta);
      assert Coef(rows[r], plus) == 0.0;
    }
    assert after == rows;
  }
}
