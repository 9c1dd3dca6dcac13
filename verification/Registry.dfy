/** The marker and error variables the solver remembers for each constraint, and what the
    equation of a constraint says about the constraint. */
module Registry {
  import opened Options
  import opened Variables
  import opened LinearAlgebra
  import opened RowAlgebra
  import opened Simplex
  import opened Tableaux
  import opened Incremental
  import opened Edits
  import opened Removal
  import opened Artificial
  import opened Constraints
  import opened Bookkeeping

  type Markers = map<Constraint, Variable>
  type Errors = map<Constraint, seq<Variable>>

  /** What an equation asks of the program's variables: a constraint that was entered must
      hold, and a refused equality keeps one of its sides in force. */
  datatype Demand = Fully(c: Constraint) | OneSide(c: Constraint, negated: bool) {
    ghost predicate MetBy(t: Valuation) {
      match this
      case Fully(c) => c.SatisfiedBy(t)
      case OneSide(c, negated) =>
        if negated then c.IsInequality() || Eval(c.expression, t) <= 0.0 else Eval(c.expression, t) >= 0.0
    }
  }

  /** One equation of the table and the constraint it was made for.  `offset` is how far edits
      have moved the constant of the constraint, `negated` says whether the equation was
      normalised, and `artificial` is the variable left behind by a refused constraint. */
  datatype Entry = Entry(c: Constraint, marker: Variable, errors: seq<Variable>,
                         offset: real, negated: bool, artificial: Option<Variable>) {
    function Key(): Variable { if artificial.Some? then artificial.value else marker }

    function All(): set<Variable> {
      {marker} + ToSet(errors) + if artificial.Some? then {artificial.value} else {}
    }

    /** The constraint as it now stands. */
    function Now(): Constraint { c.(expression := ShiftConstant(c.expression, offset)) }

    function Signed(): Expr {
      var stated := Augment(Now().expression, c, marker, ErrorOf(errors));
      if negated then Scale(stated, -1.0) else stated
    }

    function Equation(): Expr {
      if artificial.None? then Signed() else With(Signed(), artificial.value, -1.0)
    }

    function Asks(): Demand {
      if artificial.None? then Fully(Now()) else OneSide(Now(), negated)
    }

    /** Equations of preferred constraints can always be met. */
    predicate Binds() { artificial.Some? || c.IsRequired() }

    ghost predicate Allows(t: Valuation) { Binds() ==> Asks().MetBy(t) }
  }

  type Entries = map<Variable, Entry>

  function ErrorsOf(errors: Errors, c: Constraint): seq<Variable> {
    if c in errors then errors[c] else []
  }

  /** The two tables point to the entry of each constraint that can be taken out again. */
  ghost predicate BooksMatch(markers: Markers, errors: Errors, entries: Entries) {
    && errors.Keys <= markers.Keys
    && (forall c <- markers :: c in errors <==> !c.IsRequired())
    && (forall c <- markers ::
          && markers[c] in entries && entries[markers[c]].c == c && entries[markers[c]].artificial == None
          && entries[markers[c]].marker == markers[c] && entries[markers[c]].errors == ErrorsOf(errors, c))
  }

  ghost predicate OwnFresh(e: Entry, first: nat, last: nat) {
    && FreshOwn(e.c, e.marker, e.errors, first, last)
    && (e.artificial.Some? ==>
          && e.c.IsRequired() && e.artificial.value.kind.Slack? && e.artificial.value != e.marker
          && first <= e.artificial.value.serial < last)
  }

  /** The list holds the equation of the entry, and only that equation and the goal mention
      the variables made for it. */
  ghost predicate Owns(goal: Expr, eqs: Equations, created: nat, k: Variable, e: Entry) {
    && k == e.Key() && k in eqs && eqs[k] == e.Equation()
    && (forall v <- e.c.expression.terms :: v.IsClient())
    && OwnFresh(e, 0, created) && (e.c.kind.Edit? || e.offset == 0.0)
    && (forall v <- e.All() ::
          && !Mentions(eqs - {k}, v)
          && Coef(goal, v) == if v in e.errors then e.c.strength else 0.0)
  }

  /** Every equation belongs to an entry, and the goal is made of their error variables. */
  ghost predicate Registered(entries: Entries, goal: Expr, eqs: Equations, created: nat) {
    && entries.Keys == eqs.Keys
    && (forall k <- entries :: Owns(goal, eqs, created, k, entries[k]))
    && (forall k <- entries, j <- entries :: k != j ==> entries[k].All() !! entries[j].All())
    && GoalOwned(entries, goal)
  }

  ghost predicate GoalOwned(entries: Entries, goal: Expr) {
    ZeroFree(goal) && forall v <- goal.terms :: exists k <- entries :: v in entries[k].errors
  }

  // ---- bookkeeping

  /** Another equation, and another goal, that leave the variables of an entry alone. */
  lemma OwnsOther(goal: Expr, eqs: Equations, created: nat, k: Variable, e: Entry,
                  after: Expr, key: Variable, equation: Expr, now: nat)
    requires Owns(goal, eqs, created, k, e) && created <= now && key != k
    requires forall v <- e.All() :: v !in equation.terms && Coef(after, v) == Coef(goal, v)
    ensures Owns(after, eqs[key := equation], now, k, e)
  {
    hide Entry.Equation;
    var more := eqs[key := equation];
    forall v | v in e.All() ensures !Mentions(more - {k}, v) {
      assert !Mentions(eqs - {k}, v);
      forall j | j in more - {k} ensures v !in (more - {k})[j].terms {
        if j != key {
          assert (eqs - {k})[j] == eqs[j];
        }
      }
    }
  }

  lemma OwnsLess(goal: Expr, eqs: Equations, created: nat, k: Variable, e: Entry, after: Expr, key: Variable)
    requires Owns(goal, eqs, created, k, e) && key != k
    requires forall v <- e.All() :: Coef(after, v) == Coef(goal, v)
    ensures Owns(after, eqs - {key}, created, k, e)
  {
    hide Entry.Equation;
    forall v | v in e.All() ensures !Mentions(eqs - {key} - {k}, v) {
      assert !Mentions(eqs - {k}, v);
      forall j | j in eqs - {key} - {k} ensures v !in eqs[j].terms {
        assert (eqs - {k})[j] == eqs[j];
      }
    }
  }

  lemma AddErrorsCoef(goal: Expr, errors: seq<Variable>, k: real, v: Variable)
    requires |errors| <= 2 && (|errors| == 2 ==> errors[0] != errors[1])
    ensures Coef(AddErrors(goal, errors, k), v) == Coef(goal, v) + if v in errors then k else 0.0
    ensures AddErrors(goal, errors, k).terms.Keys <= goal.terms.Keys + ToSet(errors)
  {
    AddErrorsUpToTwo(goal, errors, k);
    if |errors| >= 1 {
      AddTermCoef(goal, errors[0], k);
      AddTermKeys(goal, errors[0], k);
      if |errors| == 2 {
        AddTermCoef(AddTerm(goal, errors[0], k), errors[1], k);
        AddTermKeys(AddTerm(goal, errors[0], k), errors[1], k);
      }
    }
  }

  lemma AddErrorsZeroFree(goal: Expr, errors: seq<Variable>, k: real)
    requires ZeroFree(goal) && |errors| <= 2
    ensures ZeroFree(AddErrors(goal, errors, k)) && AddErrors(goal, errors, k).constant == goal.constant
  {
    AddErrorsUpToTwo(goal, errors, k);
    if |errors| >= 1 {
      AddTermZeroFree(goal, errors[0], k);
      AddTermKeys(goal, errors[0], k);
      if |errors| == 2 {
        AddTermZeroFree(AddTerm(goal, errors[0], k), errors[1], k);
        AddTermKeys(AddTerm(goal, errors[0], k), errors[1], k);
      }
    }
  }

  lemma EquationTerms(e: Entry)
    ensures e.Equation().terms.Keys <= e.c.expression.terms.Keys + e.All()
    ensures e.Signed().terms.Keys <= e.c.expression.terms.Keys + {e.marker} + ToSet(e.errors)
  {
    var error, x := ErrorOf(e.errors), e.Now().expression;
    AddTermKeys(x, e.marker, MarkerSign(e.c));
    if error.Some? {
      assert error.value in e.errors;
      AddTermKeys(AddTerm(x, e.marker, MarkerSign(e.c)), error.value, 1.0);
    }
  }

  lemma OwnsNew(goal: Expr, eqs: Equations, first: nat, created: nat, e: Entry)
    requires Numbered({}, goal, eqs, first) && OwnFresh(e, first, created) && e.offset == 0.0
    requires forall v <- e.c.expression.terms :: v.IsClient()
    ensures Owns(AddErrors(goal, e.errors, e.c.strength), eqs[e.Key() := e.Equation()], created, e.Key(), e)
  {
    hide Entry.Equation;
    var k := e.Key();
    var after, more := AddErrors(goal, e.errors, e.c.strength), eqs[k := e.Equation()];
    forall v | v in e.All()
      ensures !Mentions(more - {k}, v) && Coef(after, v) == if v in e.errors then e.c.strength else 0.0
    {
      assert !Before(v, first);
      AddErrorsCoef(goal, e.errors, e.c.strength, v);
      forall j | j in more - {k} ensures v !in more[j].terms {
        assert more[j] == eqs[j];
      }
    }
  }

  lemma OwnApart(goal: Expr, eqs: Equations, first: nat, created: nat, k: Variable, earlier: Entry, e: Entry)
    requires Owns(goal, eqs, first, k, earlier) && OwnFresh(e, first, created)
    requires forall v <- e.c.expression.terms :: v.IsClient()
    ensures earlier.All() !! e.All() && k in earlier.All() && e.Key() in e.All()
    ensures forall v <- earlier.All() :: v !in e.Equation().terms && v !in e.errors
  {
    hide Entry.Equation;
    EquationTerms(e);
    FreshErrors(earlier, 0, first);
    FreshErrors(e, first, created);
    forall v | v in earlier.All() ensures v !in e.All() && v !in e.Equation().terms {
      assert v.serial < first;
    }
  }

  /** An entry made earlier keeps its equation to itself. */
  lemma EarlierOwns(goal: Expr, eqs: Equations, first: nat, created: nat, k: Variable, earlier: Entry, e: Entry)
    requires Owns(goal, eqs, first, k, earlier) && first <= created
    requires OwnFresh(e, first, created) && forall v <- e.c.expression.terms :: v.IsClient()
    ensures Owns(AddErrors(goal, e.errors, e.c.strength), eqs[e.Key() := e.Equation()], created, k, earlier)
    ensures earlier.All() !! e.All()
  {
    hide Entry.Equation;
    hide AddErrors;
    hide OwnFresh;
    hide Owns;
    hide Entry.All;
    FreshErrors(e, first, created);
    OwnApart(goal, eqs, first, created, k, earlier, e);
    var after := AddErrors(goal, e.errors, e.c.strength);
    forall v | v in earlier.All() ensures Coef(after, v) == Coef(goal, v) {
      AddErrorsCoef(goal, e.errors, e.c.strength, v);
    }
    OwnsOther(goal, eqs, first, k, earlier, after, e.Key(), e.Equation(), created);
  }

  /** Entering a constraint, or the equation a refused one leaves behind, keeps the books. */
  lemma RegisterKeeps(entries: Entries, goal: Expr, eqs: Equations, first: nat, created: nat, e: Entry)
    requires Registered(entries, goal, eqs, first) && Numbered({}, goal, eqs, first) && first <= created
    requires OwnFresh(e, first, created) && e.offset == 0.0 && forall v <- e.c.expression.terms :: v.IsClient()
    ensures e.Key() !in entries
    ensures Registered(entries[e.Key() := e], AddErrors(goal, e.errors, e.c.strength), eqs[e.Key() := e.Equation()],
      created)
  {
    hide OwnFresh;
    hide AddErrors;
    hide Numbered;
    hide Owns;
    hide GoalOwned;
    hide Entry.All;
    hide Entry.Key;
    hide Entry.Equation;
    KeyIsNew(goal, eqs, first, created, e);
    GoalOwnedAdd(entries, goal, e);
    OwnsNew(goal, eqs, first, created, e);
    var after := AddErrors(goal, e.errors, e.c.strength);
    forall k | k in entries
      ensures Owns(after, eqs[e.Key() := e.Equation()], created, k, entries[k])
      ensures entries[k].All() !! e.All()
    {
      EarlierOwns(goal, eqs, first, created, k, entries[k], e);
    }
  }

  lemma KeyIsNew(goal: Expr, eqs: Equations, first: nat, created: nat, e: Entry)
    requires Numbered({}, goal, eqs, first) && OwnFresh(e, first, created)
    ensures e.Key() !in eqs && |e.errors| <= 2 && (|e.errors| == 2 ==> e.errors[0] != e.errors[1])
  {
    assert !Before(e.Key(), first);
  }

  lemma GoalOwnedAdd(entries: Entries, goal: Expr, e: Entry)
    requires GoalOwned(entries, goal) && e.Key() !in entries
    requires |e.errors| <= 2 && (|e.errors| == 2 ==> e.errors[0] != e.errors[1])
    ensures GoalOwned(entries[e.Key() := e], AddErrors(goal, e.errors, e.c.strength))
  {
    hide AddErrors;
    var after, more := AddErrors(goal, e.errors, e.c.strength), entries[e.Key() := e];
    AddErrorsZeroFree(goal, e.errors, e.c.strength);
    forall v | v in after.terms ensures exists k <- more :: v in more[k].errors {
      AddErrorsCoef(goal, e.errors, e.c.strength, v);
      if v in e.errors {
        assert v in more[e.Key()].errors;
      } else {
        var k :| k in entries && v in entries[k].errors;
        assert v in more[k].errors;
      }
    }
  }

  lemma FreshLater(c: Constraint, marker: Variable, errors: seq<Variable>, first: nat, last: nat, created: nat)
    requires FreshOwn(c, marker, errors, first, last) && last <= created
    ensures FreshOwn(c, marker, errors, first, created)
  {}

  lemma FreshEntryLater(e: Entry, first: nat, last: nat, created: nat)
    requires OwnFresh(e, first, last) && last <= created
    ensures OwnFresh(e, first, created)
  {}

  /** The entry of a constraint that was refused. */
  lemma Leftover(e: Entry, a: Variable, first: nat, last: nat, created: nat) returns (after: Entry)
    requires OwnFresh(e, first, last) && e.c.IsRequired() && e.artificial.None?
    requires a.kind.Slack? && a.serial == last < created
    ensures after == e.(artificial := Some(a)) && OwnFresh(after, first, created) && after.Key() == a
    ensures after.Equation() == With(e.Equation(), a, -1.0) && after.Signed() == e.Equation()
    ensures after.errors == [] && e.errors == []
  {
    after := e.(artificial := Some(a));
  }

  lemma RefutedMeans(row: Expr, eqs: Equations, e: Entry)
    requires Refutes(row, eqs, e.Equation()) && Optimised(row)
    ensures forall s: Valuation :: Admissible(s) && Holds(eqs, s) ==> Eval(e.Equation(), s) != 0.0
  {}

  lemma FreshErrors(e: Entry, first: nat, last: nat)
    requires OwnFresh(e, first, last)
    ensures |e.errors| <= 2 && (|e.errors| == 2 ==> e.errors[0] != e.errors[1])
    ensures forall v <- e.errors :: v in e.All() && v.kind.Slack? && v.serial < last
    ensures e.marker in e.All() && e.marker.IsRestricted() && e.marker.serial < last
    ensures e.Key() in e.All() && e.Key().IsRestricted()
    ensures forall v <- e.All() :: v.IsRestricted() && !v.IsClient()
  {}

  /** Taking an entry out takes its errors out of the goal and keeps the rest in order. */
  lemma UnregisterKeeps(entries: Entries, goal: Expr, eqs: Equations, created: nat, k: Variable)
    requires Registered(entries, goal, eqs, created) && k in entries
    ensures var e := entries[k]; var after := AddErrors(goal, e.errors, -e.c.strength);
            && Registered(entries - {k}, after, eqs - {k}, created)
            && (forall v <- e.All() :: Coef(after, v) == 0.0)
  {
    hide OwnFresh;
    hide AddErrors;
    hide Owns;
    hide GoalOwned;
    hide Entry.All;
    hide Entry.Equation;
    var e := entries[k];
    var after := AddErrors(goal, e.errors, -e.c.strength);
    GoalWithout(entries, goal, eqs, created, k);
    GoalOwnedLess(entries, goal, after, k);
    forall j | j in entries && j != k ensures Owns(after, eqs - {k}, created, j, entries[j]) {
      ErrorsAreOwn(e);
      OwnsLess(goal, eqs, created, j, entries[j], after, k);
    }
  }

  lemma ErrorsAreOwn(e: Entry)
    ensures forall v <- e.errors :: v in e.All()
  {}

  /** The goal once the errors of an entry are taken out. */
  lemma GoalWithout(entries: Entries, goal: Expr, eqs: Equations, created: nat, k: Variable)
    requires k in entries && Owns(goal, eqs, created, k, entries[k]) && GoalOwned(entries, goal)
    ensures var e := entries[k]; var after := AddErrors(goal, e.errors, -e.c.strength);
            && ZeroFree(after) && (forall v <- e.All() :: Coef(after, v) == 0.0)
            && (forall v :: v !in e.errors ==> Coef(after, v) == Coef(goal, v))
            && (forall v :: Coef(after, v) != 0.0 ==> v in goal.terms && v !in e.errors)
  {
    hide AddErrors;
    hide Entry.Equation;
    var e := entries[k];
    var after := AddErrors(goal, e.errors, -e.c.strength);
    FreshErrors(e, 0, created);
    AddErrorsZeroFree(goal, e.errors, -e.c.strength);
    forall v ensures Coef(after, v) == Coef(goal, v) + if v in e.errors then -e.c.strength else 0.0 {
      AddErrorsCoef(goal, e.errors, -e.c.strength, v);
    }
  }

  lemma GoalOwnedLess(entries: Entries, goal: Expr, after: Expr, k: Variable)
    requires GoalOwned(entries, goal) && ZeroFree(after) && k in entries
    requires forall v {:trigger Coef(after, v)} :: Coef(after, v) != 0.0 ==> v in goal.terms && v !in entries[k].errors
    ensures GoalOwned(entries - {k}, after)
  {
    var rest := entries - {k};
    forall v | v in after.terms ensures exists j <- rest :: v in rest[j].errors {
      assert Coef(after, v) != 0.0;
      var j :| j in entries && v in entries[j].errors;
      assert j in rest && v in rest[j].errors;
    }
  }

  lemma Unregister(entries: Entries, goal: Expr, eqs: Equations, created: nat, k: Variable)
    requires Registered(entries, goal, eqs, created) && k in entries && entries[k].artificial.None?
    ensures var e := entries[k]; var after := AddErrors(goal, e.errors, -e.c.strength);
            && k == e.marker && k in eqs && k.IsRestricted()
            && (forall v <- e.errors :: v.kind.Slack? && v.serial < created)
            && |e.errors| <= 2 && (|e.errors| == 2 ==> e.errors[0] != e.errors[1])
            && Registered(entries - {k}, after, eqs - {k}, created)
            && (forall v | v == k || v in e.errors ::
                  v.IsRestricted() && !Mentions(eqs - {k}, v) && Coef(after, v) == 0.0)
  {
    var e := entries[k];
    assert Owns(goal, eqs, created, k, e);
    FreshErrors(e, 0, created);
    hide Registered;
    hide Entry.Equation;
    hide AddErrors;
    UnregisterKeeps(entries, goal, eqs, created, k);
  }

  lemma BookEntry(markers: Markers, errors: Errors, entries: Entries, c: Constraint)
    requires BooksMatch(markers, errors, entries) && c in markers
    ensures var k := markers[c];
            && k in entries && entries[k].c == c && entries[k].artificial.None? && entries[k].marker == k
            && entries[k].errors == ErrorsOf(errors, c)
  {}

  lemma NotBooked(markers: Markers, errors: Errors, entries: Entries, c: Constraint)
    requires BooksMatch(markers, errors, entries) && c !in markers
    ensures markers - {c} == markers && errors - {c} == errors
  {}

  lemma OnlyEditsMove(entries: Entries, goal: Expr, eqs: Equations, created: nat, k: Variable)
    requires Registered(entries, goal, eqs, created) && k in entries
    ensures !entries[k].c.kind.Edit? ==> entries[k].offset == 0.0
  {
    assert Owns(goal, eqs, created, k, entries[k]);
  }

  lemma BooksUpdate(markers: Markers, errors: Errors, entries: Entries, e: Entry)
    requires BooksMatch(markers, errors, entries) && (e.errors == [] <==> e.c.IsRequired())
    requires e.artificial.None? && e.Key() !in entries
    ensures BooksMatch(markers[e.c := e.marker], if e.errors == [] then errors else errors[e.c := e.errors],
                       entries[e.Key() := e])
  {}

  lemma BooksOrphan(markers: Markers, errors: Errors, entries: Entries, e: Entry)
    requires BooksMatch(markers, errors, entries) && e.Key() !in entries
    ensures BooksMatch(markers, errors, entries[e.Key() := e])
  {}

  lemma BooksRemove(markers: Markers, errors: Errors, entries: Entries, c: Constraint)
    requires BooksMatch(markers, errors, entries) && c in markers
    ensures BooksMatch(markers - {c}, errors - {c}, entries - {markers[c]})
  {
    forall d | d in markers && d != c ensures markers[d] != markers[c] {
      assert entries[markers[d]].c == d;
    }
  }

  lemma BooksMove(markers: Markers, errors: Errors, entries: Entries, k: Variable, e: Entry)
    requires BooksMatch(markers, errors, entries) && k in entries
    requires e.c == entries[k].c && e.marker == entries[k].marker && e.errors == entries[k].errors
    requires e.artificial == entries[k].artificial
    ensures BooksMatch(markers, errors, entries[k := e])
  {}

  /** The new expression and equation mention old parameters, program variables and the
      constraint's own variables, so the equation has a key of its own. */
  lemma EntryReady(known: set<Variable>, goal: Expr, eqs: Equations, first: nat, created: nat, e: Entry,
                   expression: Expr)
    requires Numbered(known, goal, eqs, first) && first <= created && OwnFresh(e, first, created) && e.artificial.None?
    requires forall v <- e.c.expression.terms :: v.IsClient()
    requires forall v <- expression.terms :: v in known || v.IsClient() || v in e.All()
    ensures forall v <- expression.terms :: Before(v, created)
    ensures forall v <- e.Equation().terms :: (v.IsClient() || first <= v.serial < created) && !v.kind.Objective?
    ensures Numbered({}, goal, eqs, first)
    ensures forall k <- eqs :: k !in e.Equation().terms
    ensures e.marker.IsRestricted() && e.marker !in eqs && !Mentions(eqs, e.marker)
  {
    hide Entry.Equation;
    EquationTerms(e);
    assert !Before(e.marker, first);
    forall v | v in e.Equation().terms ensures v.IsClient() || (v.IsRestricted() && first <= v.serial < created) {
      assert v in e.c.expression.terms || v in e.All();
    }
  }

  /** The coefficients an entry's equation has on the entry's own variables. */
  lemma OwnCoefs(e: Entry, first: nat, last: nat)
    requires OwnFresh(e, first, last) && e.artificial.None? && forall v <- e.c.expression.terms :: v.IsClient()
    ensures Coef(e.Equation(), e.marker) == if e.negated then -MarkerSign(e.c) else MarkerSign(e.c)
    ensures e.errors != [] ==> Coef(e.Equation(), e.errors[|e.errors| - 1]) == if e.negated then -1.0 else 1.0
  {
    if e.errors != [] {
      assert e.errors[|e.errors| - 1] in e.errors;
    }
    AugmentFacts(e.Now().expression, e.c, e.marker, ErrorOf(e.errors));
    ScaleFacts(Augment(e.Now().expression, e.c, e.marker, ErrorOf(e.errors)));
    if e.errors != [] {
      LastCoef(e.Now().expression, e.c, e.marker, e.errors[|e.errors| - 1]);
    }
  }

  lemma LastCoef(x: Expr, c: Constraint, marker: Variable, error: Variable)
    requires error !in x.terms && error != marker
    ensures Coef(Augment(x, c, marker, Some(error)), error) == 1.0
  {
    AddTermCoef(x, marker, MarkerSign(c));
    AddTermCoef(AddTerm(x, marker, MarkerSign(c)), error, 1.0);
  }

  /** The entry of an equation just made. */
  lemma EntryOf(c: Constraint, marker: Variable, errors: seq<Variable>, equation: Expr) returns (e: Entry)
    requires IsAugmented(equation, c, marker, errors)
    ensures e == Entry(c, marker, errors, 0.0, e.negated, None)
    ensures e.Equation() == e.Signed() == equation
  {
    var stated := Augment(c.expression, c, marker, ErrorOf(errors));
    e := Entry(c, marker, errors, 0.0, equation != stated, None);
    assert e.Now().expression == c.expression;
  }

  // ---- editing

  /** An entry whose constant has moved. */
  function Turned(e: Entry, turn: real): Entry {
    e.(offset := e.offset + turn)
  }

  /** How far an edit that passes `delta` down moves the constant of the constraint. */
  function EditTurn(c: Constraint, delta: real, basic: bool): real {
    if basic then -(MarkerSign(c) * delta) else MarkerSign(c) * delta
  }

  lemma TurnedEquation(e: Entry, turn: real)
    requires e.artificial.None?
    ensures Turned(e, turn).Equation() == ShiftConstant(e.Equation(), if e.negated then -turn else turn)
    ensures Turned(e, turn).Key() == e.Key() && Turned(e, turn).All() == e.All()
  {
    var x, m, r := e.Now().expression, e.marker, ErrorOf(e.errors);
    assert Turned(e, turn).Now().expression == ShiftConstant(x, turn);
    AugmentShift(x, turn, e.c, m, r);
    var stated := Augment(x, e.c, m, r);
    assert Scale(ShiftConstant(stated, turn), -1.0) == ShiftConstant(Scale(stated, -1.0), -turn);
  }

  lemma AugmentShift(x: Expr, d: real, c: Constraint, marker: Variable, error: Option<Variable>)
    ensures Augment(ShiftConstant(x, d), c, marker, error) == ShiftConstant(Augment(x, c, marker, error), d)
  {
    AddTermShift(x, d, marker, MarkerSign(c));
    if error.Some? {
      AddTermShift(AddTerm(x, marker, MarkerSign(c)), d, error.value, 1.0);
    }
  }

  lemma AddTermShift(x: Expr, d: real, v: Variable, k: real)
    ensures AddTerm(ShiftConstant(x, d), v, k) == ShiftConstant(AddTerm(x, v, k), d)
  {}

  /** Moving the constant of one entry keeps the books. */
  lemma TurnKeeps(entries: Entries, goal: Expr, eqs: Equations, created: nat, k: Variable, turn: real, moved: Expr,
                  equation: Expr)
    requires Registered(entries, goal, eqs, created) && k in entries && entries[k].artificial.None?
    requires moved.terms == goal.terms && entries[k].c.kind.Edit?
    requires equation == Turned(entries[k], turn).Equation()
    ensures Registered(entries[k := Turned(entries[k], turn)], moved, eqs[k := equation], created)
  {
    hide OwnFresh;
    hide Owns;
    hide GoalOwned;
    hide Entry.All;
    hide Entry.Equation;
    hide Turned;
    var e := Turned(entries[k], turn);
    TurnedEquation(entries[k], turn);
    GoalOwnedTurned(entries, goal, k, turn, moved);
    TurnedOwns(goal, eqs, created, k, entries[k], turn, moved);
    forall j | j in entries && j != k ensures Owns(moved, eqs[k := equation], created, j, entries[j]) {
      TurnedElsewhere(goal, eqs, created, k, equation, j, entries[j], moved);
    }
  }

  lemma GoalOwnedTurned(entries: Entries, goal: Expr, k: Variable, turn: real, moved: Expr)
    requires GoalOwned(entries, goal) && moved.terms == goal.terms && k in entries
    ensures GoalOwned(entries[k := Turned(entries[k], turn)], moved)
  {
    var more := entries[k := Turned(entries[k], turn)];
    forall v | v in moved.terms ensures exists j <- more :: v in more[j].errors {
      var j :| j in entries && v in entries[j].errors;
      assert v in more[j].errors;
    }
  }

  lemma TurnedOwns(goal: Expr, eqs: Equations, created: nat, k: Variable, e: Entry, turn: real, moved: Expr)
    requires Owns(goal, eqs, created, k, e) && e.artificial.None? && moved.terms == goal.terms && e.c.kind.Edit?
    ensures Turned(e, turn).Equation().terms == eqs[k].terms
    ensures Owns(moved, eqs[k := Turned(e, turn).Equation()], created, k, Turned(e, turn))
  {
    hide Entry.Equation;
    TurnedEquation(e, turn);
    assert eqs[k := Turned(e, turn).Equation()] - {k} == eqs - {k};
    assert forall v :: Coef(moved, v) == Coef(goal, v);
  }

  lemma TurnedElsewhere(goal: Expr, eqs: Equations, created: nat, k: Variable, equation: Expr, j: Variable, e: Entry,
                        moved: Expr)
    requires Owns(goal, eqs, created, j, e) && moved.terms == goal.terms
    requires k in eqs && equation.terms == eqs[k].terms && j != k
    ensures Owns(moved, eqs[k := equation], created, j, e)
  {
    hide Entry.Equation;
    hide Entry.All;
    var more := eqs[k := equation];
    assert forall v :: Coef(moved, v) == Coef(goal, v);
    forall v | v in e.All() ensures !Mentions(more - {j}, v) {
      assert !Mentions(eqs - {j}, v);
      forall i | i in more - {j} ensures v !in more[i].terms {
        assert v !in (eqs - {j})[i].terms;
      }
    }
  }

  // ---- what an equation says about its constraint

  /** How far `s` is from satisfying a preferred constraint. */
  ghost function Violation(c: Constraint, s: Valuation): real {
    var x := Eval(c.expression, s);
    if x < 0.0 then -x else if c.IsInequality() then 0.0 else x
  }

  ghost function Total(errors: seq<Variable>, s: Valuation): real {
    if errors == [] then 0.0 else Total(errors[..|errors| - 1], s) + s(errors[|errors| - 1])
  }

  /** `s` with the entry's own variables set to fit. */
  ghost function Fitted(e: Entry, s: Valuation): Valuation {
    var x := Eval(e.Now().expression, s);
    var up, down := if x > 0.0 then x else 0.0, if x < 0.0 then -x else 0.0;
    var t := Update(s, e.marker, if e.marker.IsDummy() then 0.0 else up);
    if e.artificial.Some? then Update(t, e.artificial.value, if e.c.IsInequality() then down else up + down)
    else if e.errors == [] then t
    else Update(t, e.errors[|e.errors| - 1], down)
  }

  /** The value of an entry's equation, but for its sign and the artificial variable. */
  ghost function Residue(e: Entry, s: Valuation): real {
    Eval(e.Now().expression, s)
    + (if !e.c.IsInequality() && e.c.IsRequired() then s(e.marker) else -s(e.marker))
    + (if e.errors == [] then 0.0 else s(e.errors[|e.errors| - 1]))
  }

  lemma EvalEquation(e: Entry, first: nat, last: nat, s: Valuation)
    requires OwnFresh(e, first, last) && forall v <- e.c.expression.terms :: v.IsClient()
    ensures Eval(e.Equation(), s) ==
      (if e.negated then -Residue(e, s) else Residue(e, s)) - if e.artificial.Some? then s(e.artificial.value) else 0.0
  {
    hide Eval;
    var stated := Augment(e.Now().expression, e.c, e.marker, ErrorOf(e.errors));
    if e.errors != [] {
      assert e.errors[|e.errors| - 1] in e.errors;
    }
    AugmentFacts(e.Now().expression, e.c, e.marker, ErrorOf(e.errors));
    ScaleFacts(stated);
    assert Eval(stated, s) == Residue(e, s);
    if e.artificial.Some? {
      EquationTerms(e);
      EvalWith(e.Signed(), e.artificial.value, -1.0, s);
    }
  }

  lemma TotalUpToTwo(errors: seq<Variable>, s: Valuation)
    ensures |errors| == 0 ==> Total(errors, s) == 0.0
    ensures |errors| == 1 ==> Total(errors, s) == s(errors[0])
    ensures |errors| == 2 ==> Total(errors, s) == s(errors[0]) + s(errors[1])
  {
    if |errors| == 2 {
      assert errors[..1] == [errors[0]] && [errors[0]][..0] == [];
    }
  }

  /** Where the equation of an entry holds, its demand is met, and the errors of a preferred
      constraint add up to at least its violation. */
  lemma EquationMeaning(e: Entry, created: nat, s: Valuation)
    requires OwnFresh(e, 0, created) && (forall v <- e.c.expression.terms :: v.IsClient()) && Admissible(s)
    requires Eval(e.Equation(), s) == 0.0
    ensures e.Allows(s)
    ensures !e.c.IsRequired() ==> Total(e.errors, s) >= Violation(e.Now(), s)
  {
    hide Eval;
    hide Entry.Equation;
    EvalEquation(e, 0, created, s);
    TotalUpToTwo(e.errors, s);
    assert s(e.marker) >= 0.0;
    if e.errors != [] {
      assert e.errors[|e.errors| - 1] in e.errors;
    }
  }

  /** Conversely, where the demand is met the equation can be met too, with errors adding up
      to exactly the violation of a preferred constraint. */
  lemma FittedMeets(e: Entry, created: nat, s: Valuation)
    requires OwnFresh(e, 0, created) && (forall v <- e.c.expression.terms :: v.IsClient()) && Admissible(s)
    requires e.Allows(s)
    ensures var t := Fitted(e, s);
            && Admissible(t) && Eval(e.Equation(), t) == 0.0
            && (!e.c.IsRequired() ==> Total(e.errors, t) == Violation(e.Now(), s))
            && forall v {:trigger t(v)} :: v !in e.All() ==> t(v) == s(v)
  {
    hide Eval;
    hide Entry.Equation;
    var t := Fitted(e, s);
    if e.errors != [] {
      assert e.errors[|e.errors| - 1] in e.errors;
    }
    EvalSame(e.Now().expression, s, t);
    EvalEquation(e, 0, created, t);
    TotalUpToTwo(e.errors, t);
  }

  lemma MarkerKind(entries: Entries, goal: Expr, eqs: Equations, created: nat, k: Variable)
    requires Registered(entries, goal, eqs, created) && k in entries && entries[k].artificial.None?
    ensures k.kind.Slack? <==> entries[k].c.IsInequality() || !entries[k].c.IsRequired()
  {
    assert Owns(goal, eqs, created, k, entries[k]);
  }

  /** No dummy row mentions a slack, so taking out anything but a required equation is safe. */
  lemma PureRows(rows: Rows, m: Variable)
    requires Sound(rows) && m.kind.Slack?
    ensures forall d <- rows :: d.kind.Dummy? ==> m !in rows[d].terms
  {}

  /** The other error variable of an equation, if it has one. */
  function MinusOf(e: Entry): Option<Variable> {
    ErrorOf(e.errors)
  }

  lemma PairOf(entries: Entries, goal: Expr, eqs: Equations, created: nat, k: Variable)
    requires Registered(entries, goal, eqs, created) && k in entries && entries[k].artificial.None?
    requires !entries[k].c.IsInequality()
    ensures var e := entries[k]; var minus := MinusOf(e);
            && ErrorPair(eqs, k, minus) && (minus.Some? ==> minus.value in e.All() && minus.value.kind.Slack?)
            && k in e.All() && k.IsRestricted() && eqs[k] == e.Equation()
            && Coef(eqs[k], k) == if e.negated then -MarkerSign(e.c) else MarkerSign(e.c)
  {
    hide Entry.Equation;
    var e := entries[k];
    assert Owns(goal, eqs, created, k, e);
    FreshErrors(e, 0, created);
    OwnCoefs(e, 0, created);
    if MinusOf(e).Some? {
      assert MinusOf(e).value in e.errors;
    }
  }

  /** The variables of an equation's entry can be edited through, and editing through them
      moves the constant of the constraint. */
  lemma EditPair(entries: Entries, goal: Expr, eqs: Equations, created: nat, k: Variable, rows: Rows, delta: real)
    requires Registered(entries, goal, eqs, created) && k in entries && entries[k].artificial.None?
    requires !entries[k].c.IsInequality()
    ensures var e := entries[k]; var minus := MinusOf(e);
            && ErrorPair(eqs, k, minus) && (minus.Some? ==> minus.value in e.All() && minus.value.kind.Slack?)
            && k in e.All() && k.IsRestricted()
            && ShiftConstant(eqs[k], EquationShift(rows, eqs[k], delta, k, minus))
               == Turned(e, EditTurn(e.c, delta, AnyBasic(rows, k, minus))).Equation()
  {
    hide Entry.Equation;
    hide Owns;
    hide OwnFresh;
    var e := entries[k];
    var minus := MinusOf(e);
    PairOf(entries, goal, eqs, created, k);
    var turn := EditTurn(e.c, delta, AnyBasic(rows, k, minus));
    TurnedEquation(e, turn);
    if minus.Some? {
      assert minus.value in e.errors;
    }
    hide Entry.All;
    assert EquationShift(rows, eqs[k], delta, k, minus) == if e.negated then -turn else turn;
  }

  // ---- edit infos

  /** What the solver remembers of an edit constraint, with the value last suggested. */
  datatype EditInfo = EditInfo(variable: Variable, constraint: Constraint, plus: Variable, minus: Option<Variable>,
                               previousConstant: real) {
    predicate Uses(v: Variable) { v == plus || minus == Some(v) }
  }

  /** The info is about an edit constraint in the table, or about variables found nowhere. */
  ghost predicate InfoFits(entries: Entries, created: nat, info: EditInfo) {
    && info.plus.IsRestricted() && info.plus.serial < created
    && (info.minus.Some? ==> info.minus.value.kind.Slack? && info.minus.value.serial < created)
    && (if info.plus in entries then
          && entries[info.plus].artificial.None? && entries[info.plus].c == info.constraint
          && info.constraint.kind.Edit? && info.minus == MinusOf(entries[info.plus])
        else forall k <- entries, v <- entries[k].All() :: !info.Uses(v))
  }

  function ValueIn(values: map<Variable, real>, v: Variable): real {
    if v in values then values[v] else 0.0
  }

  /** `registerEditInfoForConstraint:marker:errors:`, for an entry just made. */
  function NewInfo(infos: seq<EditInfo>, c: Constraint, marker: Variable, errors: seq<Variable>,
                   values: map<Variable, real>): seq<EditInfo> {
    if c.kind.Edit? && c.variable.Some? && (forall info <- infos :: info.constraint != c) then
      [EditInfo(c.variable.value, c, marker, ErrorOf(errors), ValueIn(values, c.variable.value))]
    else []
  }

  lemma NewInfoFits(entries: Entries, first: nat, created: nat, infos: seq<EditInfo>, e: Entry,
                    values: map<Variable, real>)
    requires InfosFit(entries, created, infos) && OwnFresh(e, first, created) && e.artificial.None?
    requires e.Key() in entries && entries[e.Key()] == e
    ensures InfosFit(entries, created, infos + NewInfo(infos, e.c, e.marker, e.errors, values))
  {
    var more := NewInfo(infos, e.c, e.marker, e.errors, values);
    forall info | info in more ensures InfoFits(entries, created, info) {
      if e.errors != [] {
        assert e.errors[|e.errors| - 1] in e.errors;
      }
    }
  }

  ghost predicate InfosFit(entries: Entries, created: nat, infos: seq<EditInfo>) {
    forall info <- infos :: InfoFits(entries, created, info)
  }

  lemma InfosLater(entries: Entries, first: nat, created: nat, infos: seq<EditInfo>)
    requires InfosFit(entries, first, infos) && first <= created
    ensures InfosFit(entries, created, infos)
  {}

  lemma InfosSet(entries: Entries, created: nat, infos: seq<EditInfo>, i: nat, value: real)
    requires InfosFit(entries, created, infos) && i < |infos|
    ensures InfosFit(entries, created, infos[i := infos[i].(previousConstant := value)])
  {
    var after := infos[i := infos[i].(previousConstant := value)];
    forall j | 0 <= j < |infos| ensures InfoFits(entries, created, after[j]) {
      assert infos[j] in infos;
      assert InfoFits(entries, created, infos[j]);
      assert forall v :: after[j].Uses(v) == infos[j].Uses(v);
    }
  }

  lemma InfosEnter(entries: Entries, first: nat, created: nat, infos: seq<EditInfo>, e: Entry)
    requires InfosFit(entries, first, infos) && OwnFresh(e, first, created) && first <= created
    ensures InfosFit(entries[e.Key() := e], created, infos)
  {
    forall info | info in infos ensures InfoFits(entries[e.Key() := e], created, info) {
      assert InfoFits(entries, first, info);
      forall v | v in e.All() ensures !info.Uses(v) && v.serial >= first {
      }
      assert e.Key() in e.All();
    }
  }

  lemma InfosLeave(entries: Entries, goal: Expr, eqs: Equations, created: nat, infos: seq<EditInfo>, k: Variable)
    requires InfosFit(entries, created, infos) && Registered(entries, goal, eqs, created) && k in entries
    ensures InfosFit(entries - {k}, created, infos)
  {
    hide Entry.Equation;
    hide OwnFresh;
    hide Entry.All;
    forall info | info in infos ensures InfoFits(entries - {k}, created, info) {
      assert InfoFits(entries, created, info);
      if info.plus == k {
        assert Owns(goal, eqs, created, k, entries[k]);
        InfoIsOwn(entries[k], info);
        forall j, v | j in entries - {k} && v in entries[j].All() ensures !info.Uses(v) {
          assert v !in entries[k].All();
        }
      }
    }
  }

  lemma InfoIsOwn(e: Entry, info: EditInfo)
    requires info.plus == e.Key() && info.minus == MinusOf(e)
    ensures forall v :: info.Uses(v) ==> v in e.All()
  {}

  lemma InfosTurn(entries: Entries, created: nat, infos: seq<EditInfo>, k: Variable, turn: real)
    requires InfosFit(entries, created, infos) && k in entries
    ensures InfosFit(entries[k := Turned(entries[k], turn)], created, infos)
  {
    forall info | info in infos ensures InfoFits(entries[k := Turned(entries[k], turn)], created, info) {
      assert InfoFits(entries, created, info);
      assert Turned(entries[k], turn).All() == entries[k].All();
    }
  }

  /** A variable no entry owns is mentioned nowhere. */
  lemma UnownedIsUnmentioned(entries: Entries, goal: Expr, eqs: Equations, created: nat, v: Variable)
    requires Registered(entries, goal, eqs, created) && !v.IsClient()
    requires forall k <- entries :: v !in entries[k].All()
    ensures !Mentions(eqs, v) && v !in goal.terms && v !in eqs
  {
    hide Entry.Equation;
    hide OwnFresh;
    forall k | k in eqs ensures v !in eqs[k].terms && v != k {
      assert Owns(goal, eqs, created, k, entries[k]);
      EquationTerms(entries[k]);
      assert k in entries[k].All();
    }
  }

  /** The index of the last info about the variable, or -1. */
  function LastInfo(infos: seq<EditInfo>, v: Variable): (i: int)
    ensures -1 <= i < |infos|
    ensures i >= 0 ==> infos[i].variable == v
    ensures forall j :: i < j < |infos| ==> infos[j].variable != v
  {
    if infos == [] then -1
    else if infos[|infos| - 1].variable == v then |infos| - 1
    else LastInfo(infos[..|infos| - 1], v)
  }

  lemma LastInfoIs(infos: seq<EditInfo>, v: Variable, i: nat)
    requires i < |infos| && infos[i].variable == v && forall j :: i < j < |infos| ==> infos[j].variable != v
    ensures LastInfo(infos, v) == i
  {
    var k := LastInfo(infos, v);
  }

  lemma LastInfoAppended(infos: seq<EditInfo>, info: EditInfo)
    ensures LastInfo(infos + [info], info.variable) == |infos|
  {
    LastInfoIs(infos + [info], info.variable, |infos|);
  }

  /** Remembering a value does not change which info is the last. */
  lemma LastInfoSet(infos: seq<EditInfo>, v: Variable, value: real)
    requires LastInfo(infos, v) >= 0
    ensures var i := LastInfo(infos, v); LastInfo(infos[i := infos[i].(previousConstant := value)], v) == i
  {
    var i := LastInfo(infos, v);
    LastInfoIs(infos[i := infos[i].(previousConstant := value)], v, i);
  }

  /** What an edit through an info rests on. */
  lemma InfoReady(entries: Entries, goal: Expr, eqs: Equations, created: nat, info: EditInfo, rows: Rows, delta: real)
    requires Registered(entries, goal, eqs, created) && InfoFits(entries, created, info)
    ensures info.plus in entries <==> info.plus in eqs
    ensures info.plus in eqs ==>
      && ErrorPair(eqs, info.plus, info.minus)
      && var e := entries[info.plus];
      && e.artificial.None? && e.c.kind.Edit?
      && ShiftConstant(eqs[info.plus], EquationShift(rows, eqs[info.plus], delta, info.plus, info.minus))
         == Turned(e, EditTurn(info.constraint, delta, AnyBasic(rows, info.plus, info.minus))).Equation()
    ensures info.plus !in eqs ==>
      && !Mentions(eqs, info.plus) && info.plus !in goal.terms
      && (info.minus.Some? ==> !Mentions(eqs, info.minus.value) && info.minus.value !in goal.terms)
  {
    hide Entry.Equation;
    hide Entry.All;
    hide Owns;
    if info.plus in entries {
      EditPair(entries, goal, eqs, created, info.plus, rows, delta);
    } else {
      assert info.Uses(info.plus) && (info.minus.Some? ==> info.Uses(info.minus.value));
      UnownedIsUnmentioned(entries, goal, eqs, created, info.plus);
      if info.minus.Some? {
        UnownedIsUnmentioned(entries, goal, eqs, created, info.minus.value);
      }
    }
  }

  /** The constraint of the info is in the table and stands at `x`. */
  ghost predicate Stands(entries: Entries, info: EditInfo, x: real) {
    && info.plus in entries
    && entries[info.plus].Now().expression == Expr(map[info.variable := -1.0], x)
  }

  /** The constraint stands at the value its info remembers. */
  ghost predicate Aimed(entries: Entries, info: EditInfo) {
    Stands(entries, info, info.previousConstant)
  }

  lemma AimedIsThere(entries: Entries, info: EditInfo)
    requires Aimed(entries, info)
    ensures info.plus in entries && Stands(entries, info, info.previousConstant)
  {}

  /** What a suggestion does to the entries; `basic` says whether a variable of the pair is. */
  function Suggested(entries: Entries, info: EditInfo, value: real, basic: bool): Entries {
    var turn := EditTurn(info.constraint, -(value - info.previousConstant), basic);
    if info.plus in entries then entries[info.plus := Turned(entries[info.plus], turn)] else entries
  }

  /** Where the constraint has to stand for a suggestion to reach its value: at the value
      remembered when the constant moves the right way, and else as far beyond it again as the
      suggestion is from it.  A preferred constraint moves the right way when neither variable
      of the pair is basic, a required one when its marker is. */
  function Origin(info: EditInfo, value: real, basic: bool): real {
    if basic == info.constraint.IsRequired() then info.previousConstant
    else info.previousConstant + 2.0 * (value - info.previousConstant)
  }

  lemma AimedOrigin(entries: Entries, info: EditInfo, value: real, basic: bool)
    requires Aimed(entries, info)
    ensures Stands(entries, info, Origin(info, value, basic)) <==>
            value == info.previousConstant || basic == info.constraint.IsRequired()
  {}

  /** Whether a suggestion reaches its value, for any info: live or stale, of a preferred or a
      required constraint, wherever the constraint stands. */
  lemma AimExactly(entries: Entries, info: EditInfo, value: real, basic: bool)
    requires info.plus in entries ==> entries[info.plus].c == info.constraint && info.constraint.kind.Edit?
    ensures Aimed(Suggested(entries, info, value, basic), info.(previousConstant := value)) <==>
            Stands(entries, info, Origin(info, value, basic))
    ensures Aimed(entries, info) ==>
      (Aimed(Suggested(entries, info, value, basic), info.(previousConstant := value)) <==>
         value == info.previousConstant || basic == info.constraint.IsRequired())
    ensures info.plus !in entries ==> Suggested(entries, info, value, basic) == entries
  {
    if info.plus in entries {
      var change := value - info.previousConstant;
      var turn := EditTurn(info.constraint, -change, basic);
      var e := entries[info.plus];
      assert turn == if basic == info.constraint.IsRequired() then change else -change;
      assert Turned(e, turn).Now().expression ==
        Expr(e.c.expression.terms, e.c.expression.constant + (e.offset + turn));
    }
  }

  /** The same for the table: after the edit it forces the equation of the constraint standing
      at `value` exactly when the constraint stood where it had to. */
  lemma TableReaches(entries: Entries, goal: Expr, eqs: Equations, created: nat, rows: Rows, z: Variable,
                     info: EditInfo, stand: real, value: real)
    requires Solved(rows) && Represents(rows, z, goal, eqs) && Keyed(eqs)
    requires Registered(entries, goal, eqs, created) && InfoFits(entries, created, info) && z.kind.Objective?
    requires Stands(entries, info, stand) && info.constraint.kind.Edit?
    ensures var change := value - info.previousConstant;
            var basic := AnyBasic(rows, info.plus, info.minus);
            var wanted := Turned(entries[info.plus], value - stand).Equation();
            (forall s: Valuation :: Sat(EditRows(rows, -change, info.plus, info.minus), s) ==>
              Eval(wanted, s) == 0.0) <==>
            stand == Origin(info, value, basic)
  {
    hide Eval;
    hide Sat;
    hide EditRows;
    hide Entry.Equation;
    hide EquationShift;
    hide ErrorPair;
    hide Owns;
    var e, change := entries[info.plus], value - info.previousConstant;
    var basic := AnyBasic(rows, info.plus, info.minus);
    var turn := EditTurn(info.constraint, -change, basic);
    var shift := EquationShift(rows, eqs[info.plus], -change, info.plus, info.minus);
    InfoReady(entries, goal, eqs, created, info, rows, -change);
    EntryAt(entries, goal, eqs, created, info.plus);
    TurnedEquation(e, turn);
    TurnedEquation(e, value - stand);
    assert shift == if e.negated then -turn else turn;
    var wish := if e.negated then -(value - stand) else value - stand;
    EditReachesTarget(rows, z, goal, eqs, -change, wish, info.plus, info.minus);
    assert turn == if basic == info.constraint.IsRequired() then change else -change;
  }

  lemma EntryAt(entries: Entries, goal: Expr, eqs: Equations, created: nat, k: Variable)
    requires Registered(entries, goal, eqs, created) && k in entries
    ensures k in eqs && eqs[k] == entries[k].Equation()
  {
    assert Owns(goal, eqs, created, k, entries[k]);
  }

  /** A new info is aimed exactly when the constraint was made for the value its variable has
      when the constraint is entered. */
  lemma RegisteredAimed(entries: Entries, infos: seq<EditInfo>, e: Entry, values: map<Variable, real>)
    requires e.c.kind.Edit? && e.c.variable.Some? && (forall info <- infos :: info.constraint != e.c)
    requires e.Key() == e.marker && e.marker in entries && entries[e.marker] == e && e.offset == 0.0
    ensures |NewInfo(infos, e.c, e.marker, e.errors, values)| == 1
    ensures Aimed(entries, NewInfo(infos, e.c, e.marker, e.errors, values)[0]) <==>
            e.c.expression == Expr(map[e.c.variable.value := -1.0], ValueIn(values, e.c.variable.value))
  {
    assert e.Now().expression == e.c.expression;
  }

  // ---- external variables

  /** Every external variable met by the tableau, or used in a constraint, is listed. */
  ghost predicate CoveredBy(known: set<Variable>, entries: Entries, listed: set<Variable>) {
    && Externals(known) <= listed
    && forall k <- entries :: Externals(entries[k].c.expression.terms.Keys) <= listed
  }

  lemma CoverKeeps(before: set<Variable>, mid: set<Variable>, now: set<Variable>, entries: Entries,
                   e: Entry, terms: set<Variable>, listed: set<Variable>, after: set<Variable>)
    requires CoveredBy(before, entries, listed) && listed <= after
    requires Externals(mid) <= Externals(before) && Externals(now) <= Externals(mid + terms)
    requires forall v <- terms :: v.IsExternal() ==> v in after || v in before
    requires forall v <- e.c.expression.terms :: v.IsExternal() ==> v in after || v in before
    ensures CoveredBy(now, entries[e.Key() := e], after)
  {
    ExternalsListed(before, terms, after);
    ExternalsListed(before, e.c.expression.terms.Keys, after);
    forall v | v in Externals(now) ensures v in after {
      assert v in Externals(mid + terms);
      assert v in Externals(mid) || v in Externals(terms);
    }
  }

  lemma CoverLess(before: set<Variable>, now: set<Variable>, errors: seq<Variable>, entries: Entries,
                  k: Variable, listed: set<Variable>)
    requires CoveredBy(before, entries, listed) && now <= before + ToSet(errors)
    requires forall v <- errors :: v.kind.Slack?
    ensures CoveredBy(now, entries, listed) && CoveredBy(now, entries - {k}, listed)
  {
    forall v | v in Externals(now) ensures v in listed {
      assert v in before ==> v in Externals(before);
    }
  }

  lemma CoverFewer(before: set<Variable>, now: set<Variable>, entries: Entries, listed: set<Variable>)
    requires CoveredBy(before, entries, listed) && now <= before
    ensures CoveredBy(now, entries, listed)
  {
    ExternalsOfFewer(before, now);
  }

  lemma CoverTurn(before: set<Variable>, now: set<Variable>, entries: Entries, k: Variable, turn: real,
                  listed: set<Variable>)
    requires CoveredBy(before, entries, listed) && now <= before && k in entries
    ensures CoveredBy(now, entries[k := Turned(entries[k], turn)], listed)
  {
    ExternalsOfFewer(before, now);
  }
}
