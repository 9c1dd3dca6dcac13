/** What the table's optimum means for the constraints: required ones hold, and the weighted
    violations of the others add up to as little as possible. */
module Preferences {
  import opened Variables
  import opened LinearAlgebra
  import opened RowAlgebra
  import opened Simplex
  import opened Tableaux
  import opened Incremental
  import opened Edits
  import opened Removal
  import opened Constraints
  import opened Artificial
  import opened Bookkeeping
  import opened Registry

  ghost function Sum(S: set<Variable>, f: Variable -> real): real {
    if S == {} then 0.0
    else var k :| k in S; f(k) + Sum(S - {k}, f)
  }

  lemma {:induction false} SumRemove(S: set<Variable>, f: Variable -> real, k: Variable)
    requires k in S
    ensures Sum(S, f) == f(k) + Sum(S - {k}, f)
    decreases |S|
  {
    var j :| j in S && Sum(S, f) == f(j) + Sum(S - {j}, f);
    if j != k {
      SumRemove(S - {j}, f, k);
      SumRemove(S - {k}, f, j);
      assert S - {j} - {k} == S - {k} - {j};
    }
  }

  lemma {:induction false} SumMonotone(S: set<Variable>, f: Variable -> real, g: Variable -> real)
    requires forall k <- S :: f(k) <= g(k)
    ensures Sum(S, f) <= Sum(S, g)
    decreases |S|
  {
    if S != {} {
      var k :| k in S;
      SumRemove(S, f, k);
      SumRemove(S, g, k);
      SumMonotone(S - {k}, f, g);
    }
  }

  ghost function Missed(entries: Entries, s: Valuation): Variable -> real {
    (k: Variable) =>
      if k in entries && !entries[k].c.IsRequired() then
        Mul(entries[k].c.strength, Violation(entries[k].Now(), s)) else 0.0
  }

  /** The weighted violation of all preferred constraints as they now stand. */
  ghost function Cost(entries: Entries, s: Valuation): real {
    Sum(entries.Keys, Missed(entries, s))
  }

  ghost function Errant(entries: Entries, s: Valuation): Variable -> real {
    (k: Variable) => if k in entries then Mul(entries[k].c.strength, Total(entries[k].errors, s)) else 0.0
  }

  /** The values of the program's variables that every equation allows. */
  ghost predicate Allowed(entries: Entries, t: Valuation) {
    forall k <- entries :: entries[k].Allows(t)
  }

  /** No strength is negative. */
  ghost predicate Sensible(entries: Entries) {
    forall k <- entries :: entries[k].c.strength >= 0.0
  }

  lemma EvalAddErrors(goal: Expr, errors: seq<Variable>, k: real, s: Valuation)
    requires |errors| <= 2
    ensures Eval(AddErrors(goal, errors, k), s) == Eval(goal, s) + Mul(k, Total(errors, s))
  {
    hide Eval;
    hide AddTerm;
    AddErrorsUpToTwo(goal, errors, k);
    TotalUpToTwo(errors, s);
    MulZero(k);
    if |errors| >= 1 {
      EvalAddTerm(goal, errors[0], k, s);
      if |errors| == 2 {
        EvalAddTerm(AddTerm(goal, errors[0], k), errors[1], k, s);
        MulSum(s(errors[0]), s(errors[1]), k);
      }
    }
  }

  /** The goal carries the weight of each entry of `S` on its errors and nothing else. */
  ghost predicate Weighted(entries: Entries, S: set<Variable>, goal: Expr) {
    && S <= entries.Keys && ZeroFree(goal)
    && (forall k <- S :: |entries[k].errors| <= 2)
    && (forall k <- S :: |entries[k].errors| == 2 ==> entries[k].errors[0] != entries[k].errors[1])
    && (forall k <- S, v <- entries[k].errors :: Coef(goal, v) == entries[k].c.strength)
    && (forall v <- goal.terms :: exists k <- S :: v in entries[k].errors)
    && (forall k <- S, j <- S :: k != j ==> entries[k].All() !! entries[j].All())
  }

  lemma WeightedLess(entries: Entries, S: set<Variable>, goal: Expr, k: Variable)
    requires Weighted(entries, S, goal) && k in S
    ensures k in entries && |entries[k].errors| <= 2
    ensures var rest := AddErrors(goal, entries[k].errors, -entries[k].c.strength);
            Weighted(entries, S - {k}, rest) && rest.constant == goal.constant
  {
    hide AddErrors;
    var errors, strength := entries[k].errors, entries[k].c.strength;
    var rest := AddErrors(goal, errors, -strength);
    forall v ensures Coef(rest, v) == Coef(goal, v) + if v in errors then -strength else 0.0 {
      AddErrorsCoef(goal, errors, -strength, v);
    }
    AddErrorsZeroFree(goal, errors, -strength);
    forall v | v in rest.terms ensures exists j <- S - {k} :: v in entries[j].errors {
      assert Coef(rest, v) != 0.0;
      assert v in goal.terms && v !in errors;
    }
    forall j, v | j in S - {k} && v in entries[j].errors ensures Coef(rest, v) == entries[j].c.strength {
      assert v in entries[j].All() && entries[j].All() !! entries[k].All();
      assert v !in errors;
    }
  }

  /** The goal is the weighted sum of the errors. */
  lemma {:induction false} GoalIsSum(entries: Entries, S: set<Variable>, goal: Expr, s: Valuation)
    requires Weighted(entries, S, goal)
    ensures Eval(goal, s) == goal.constant + Sum(S, Errant(entries, s))
    decreases |S|
  {
    hide Eval;
    hide Weighted;
    hide AddErrors;
    hide Mul;
    hide Total;
    if S == {} {
      WeightedNone(entries, goal, s);
    } else {
      var k :| k in S;
      WeightedLess(entries, S, goal, k);
      TakeErrors(goal, entries[k].errors, entries[k].c.strength, s);
      GoalIsSum(entries, S - {k}, AddErrors(goal, entries[k].errors, -entries[k].c.strength), s);
      SumRemove(S, Errant(entries, s), k);
    }
  }

  lemma WeightedNone(entries: Entries, goal: Expr, s: Valuation)
    requires Weighted(entries, {}, goal)
    ensures Eval(goal, s) == goal.constant
  {
    assert goal.terms == map[] by { assert forall v :: v !in goal.terms; }
    EvalConstant(goal, s);
  }

  lemma TakeErrors(goal: Expr, errors: seq<Variable>, k: real, s: Valuation)
    requires |errors| <= 2
    ensures Eval(goal, s) == Mul(k, Total(errors, s)) + Eval(AddErrors(goal, errors, -k), s)
  {
    hide Eval;
    EvalAddErrors(goal, errors, -k, s);
    MulSum(k, -k, Total(errors, s));
    MulZero(Total(errors, s));
  }

  lemma EvalConstant(e: Expr, s: Valuation)
    requires e.terms == map[]
    ensures Eval(e, s) == e.constant
  {}

  // ---- what the reported solution achieves

  /** The values of the program's variables, with everything the solver made up at zero. */
  ghost function ClientPart(t: Valuation): Valuation {
    (v: Variable) => if v.IsClient() then t(v) else 0.0
  }

  /** `t` with the own variables of every entry set to fit. */
  ghost function FitAll(entries: Entries, t: Valuation): Valuation {
    (v: Variable) => if exists k <- entries :: v in entries[k].All() then
           var k :| k in entries && v in entries[k].All(); Fitted(entries[k], t)(v)
         else t(v)
  }

  lemma FitAllFits(entries: Entries, goal: Expr, eqs: Equations, created: nat, t: Valuation, k: Variable)
    requires Registered(entries, goal, eqs, created) && k in entries && Admissible(t)
    requires entries[k].Allows(t)
    ensures k in eqs && Eval(eqs[k], FitAll(entries, t)) == 0.0
    ensures !entries[k].c.IsRequired() ==>
      Total(entries[k].errors, FitAll(entries, t)) == Violation(entries[k].Now(), t)
    ensures Admissible(Fitted(entries[k], t))
    ensures forall v <- entries[k].All() :: FitAll(entries, t)(v) == Fitted(entries[k], t)(v)
  {
    hide Entry.Equation;
    hide Fitted;
    hide Entry.Allows;
    hide Violation;
    var e, s := entries[k], Fitted(entries[k], t);
    assert Owns(goal, eqs, created, k, e);
    FittedMeets(e, created, t);
    EquationTerms(e);
    ErrorsAreOwn(e);
    forall v | v in eqs[k].terms || v in e.All() ensures FitAll(entries, t)(v) == s(v) {
      if v in e.All() {
        OwnersMeet(entries, v, k);
      } else {
        NoOwner(entries, goal, eqs, created, v);
      }
    }
    hide FitAll;
    EvalSame(eqs[k], FitAll(entries, t), s);
    TotalSame(e.errors, FitAll(entries, t), s);
  }

  lemma OwnersMeet(entries: Entries, v: Variable, k: Variable)
    requires k in entries && v in entries[k].All()
    requires forall k <- entries, j <- entries :: k != j ==> entries[k].All() !! entries[j].All()
    ensures forall j <- entries :: v in entries[j].All() ==> j == k
  {}

  lemma NoOwner(entries: Entries, goal: Expr, eqs: Equations, created: nat, v: Variable)
    requires Registered(entries, goal, eqs, created) && v.IsClient()
    ensures forall k <- entries :: v !in entries[k].All()
  {
    forall k | k in entries ensures v !in entries[k].All() {
      assert Owns(goal, eqs, created, k, entries[k]);
      FreshErrors(entries[k], 0, created);
    }
  }

  lemma {:induction false} TotalSame(errors: seq<Variable>, s: Valuation, t: Valuation)
    requires forall v <- errors :: s(v) == t(v)
    ensures Total(errors, s) == Total(errors, t)
    decreases |errors|
  {
    if errors != [] {
      TotalSame(errors[..|errors| - 1], s, t);
    }
  }

  lemma FitAllAdmissible(entries: Entries, goal: Expr, eqs: Equations, created: nat, t: Valuation)
    requires Registered(entries, goal, eqs, created) && Admissible(t) && Allowed(entries, t)
    ensures Admissible(FitAll(entries, t))
  {
    hide Registered;
    hide Fitted;
    hide Entry.Allows;
    forall v | exists k <- entries :: v in entries[k].All()
      ensures exists s: Valuation :: Admissible(s) && FitAll(entries, t)(v) == s(v)
    {
      var k :| k in entries && v in entries[k].All();
      FitAllFits(entries, goal, eqs, created, t, k);
    }
  }

  /** Everything the equations ask for is met by the solution a feasible table reports. */
  lemma RequiredHold(rows: Rows, z: Variable, goal: Expr, eqs: Equations, entries: Entries, created: nat)
    requires Solved(rows) && Feasible(rows) && Represents(rows, z, goal, eqs) && Registered(entries, goal, eqs, created)
    ensures Allowed(entries, BasicSolution(rows))
  {
    hide Eval;
    hide Entry.Allows;
    FeasibleMeansAdmissible(rows);
    forall k | k in entries ensures entries[k].Allows(BasicSolution(rows)) {
      assert Owns(goal, eqs, created, k, entries[k]);
      EquationMeaning(entries[k], created, BasicSolution(rows));
    }
  }

  /** Values that meet the demands extend to a solution whose objective is their cost. */
  lemma CostAgainstGoal(rows: Rows, z: Variable, goal: Expr, eqs: Equations, entries: Entries, created: nat,
                        t: Valuation)
    returns (s: Valuation)
    requires Represents(rows, z, goal, eqs) && z.kind.Objective? && !Mentions(eqs, z) && z !in goal.terms
    requires Registered(entries, goal, eqs, created) && Allowed(entries, t)
    ensures Sat(rows, s) && Admissible(s) && AgreeOnClients(s, t)
    ensures s(z) == goal.constant + Cost(entries, t)
    ensures forall v: Variable :: v.kind.Slack? ==> s(v) == FitAll(entries, ClientPart(t))(v)
  {
    hide Eval;
    hide Registered;
    hide Sat;
    hide Holds;
    hide Violation;
    hide Total;
    hide Mul;
    hide FitAll;
    hide Errant;
    hide Missed;
    hide Entry.Allows;
    var client := ClientPart(t);
    ClientAllowed(entries, goal, eqs, created, t);
    ClientPartAdmissible(t);
    var fit := FitAll(entries, client);
    FitAllAdmissible(entries, goal, eqs, created, client);
    FitAllHolds(entries, goal, eqs, created, client);
    FitAllClients(entries, goal, eqs, created, client);
    GoalCosts(entries, goal, eqs, created, fit, client);
    var x := Eval(goal, fit);
    HoldsUpdate(eqs, fit, z, x);
    EvalUpdateAbsent(goal, fit, z, x);
    s := Update(fit, z, x);
    forall v: Variable | v.IsClient() ensures s(v) == t(v) {
      assert v != z && client(v) == t(v);
    }
  }

  /** A table at its optimum reports a solution whose weighted violations add up to no more
      than those of any other values for the program's variables that meet the demands. */
  lemma WeightedBest(rows: Rows, z: Variable, goal: Expr, eqs: Equations, entries: Entries, created: nat, t: Valuation)
    requires Solved(rows) && Sound(rows) && Represents(rows, z, goal, eqs) && z in rows && z.kind.Objective?
    requires !Mentions(eqs, z) && z !in goal.terms
    requires Registered(entries, goal, eqs, created) && Sensible(entries)
    requires Optimised(rows[z]) && Allowed(entries, t)
    ensures Cost(entries, BasicSolution(rows)) <= Cost(entries, t)
  {
    hide Eval;
    hide Registered;
    hide Sat;
    hide Holds;
    hide Cost;
    hide FitAll;
    hide Allowed;
    hide BasicSolution;
    var s := CostAgainstGoal(rows, z, goal, eqs, entries, created, t);
    FeasibleMeansAdmissible(rows);
    GoalBounds(entries, goal, eqs, created, BasicSolution(rows));
    StoppedIsOptimal(rows, z, s);
  }

  /** A table `optimize` stops at reports a solution that is worse by no more than the
      tolerance times the slacks the other values need. */
  lemma WeightedNearlyBest(rows: Rows, z: Variable, goal: Expr, eqs: Equations, entries: Entries, created: nat,
                           t: Valuation)
    requires Solved(rows) && Sound(rows) && Represents(rows, z, goal, eqs) && z in rows && z.kind.Objective?
    requires !Mentions(eqs, z) && z !in goal.terms
    requires Registered(entries, goal, eqs, created) && Sensible(entries)
    requires Stopped(rows[z]) && Allowed(entries, t)
    ensures Cost(entries, BasicSolution(rows)) <=
      Cost(entries, t) + TOLERANCE * Eval(Ones(SlackTerms(rows[z])), FitAll(entries, ClientPart(t)))
  {
    hide Eval;
    hide Registered;
    hide Sat;
    hide Holds;
    hide Cost;
    hide FitAll;
    hide Allowed;
    hide BasicSolution;
    var s := CostAgainstGoal(rows, z, goal, eqs, entries, created, t);
    FeasibleMeansAdmissible(rows);
    GoalBounds(entries, goal, eqs, created, BasicSolution(rows));
    StoppedIsNearlyOptimal(rows, z, s);
    EvalSame(Ones(SlackTerms(rows[z])), s, FitAll(entries, ClientPart(t)));
  }

  lemma ClientPartAdmissible(t: Valuation)
    ensures Admissible(ClientPart(t))
  {
    var s := ClientPart(t);
    forall v: Variable ensures (v.kind.Slack? ==> s(v) >= 0.0) && (v.kind.Dummy? ==> s(v) == 0.0) {
      assert v.IsRestricted() ==> !v.IsClient();
    }
  }

  lemma EntryOnTerms(e: Entry, s: Valuation, t: Valuation)
    requires forall v <- e.c.expression.terms :: s(v) == t(v)
    ensures e.Allows(s) <==> e.Allows(t)
    ensures Violation(e.Now(), s) == Violation(e.Now(), t)
  {
    hide Eval;
    EvalSame(e.Now().expression, s, t);
  }

  /** Demands and costs look at the variables of the constraints only. */
  lemma SameOnTerms(entries: Entries, s: Valuation, t: Valuation)
    requires forall k <- entries, v <- entries[k].c.expression.terms :: s(v) == t(v)
    ensures Allowed(entries, s) <==> Allowed(entries, t)
    ensures Cost(entries, s) == Cost(entries, t)
  {
    hide Entry.Allows;
    hide Violation;
    hide Mul;
    forall k | k in entries
      ensures entries[k].Allows(s) <==> entries[k].Allows(t)
      ensures Violation(entries[k].Now(), s) == Violation(entries[k].Now(), t)
    {
      EntryOnTerms(entries[k], s, t);
    }
    SumMonotone(entries.Keys, Missed(entries, s), Missed(entries, t));
    SumMonotone(entries.Keys, Missed(entries, t), Missed(entries, s));
  }

  lemma SameOnClients(entries: Entries, goal: Expr, eqs: Equations, created: nat, s: Valuation, t: Valuation)
    requires Registered(entries, goal, eqs, created) && AgreeOnClients(s, t)
    ensures Allowed(entries, s) <==> Allowed(entries, t)
    ensures Cost(entries, s) == Cost(entries, t)
  {
    hide Allowed;
    hide Cost;
    hide Entry.Equation;
    forall k, v | k in entries && v in entries[k].c.expression.terms ensures s(v) == t(v) {
      assert Owns(goal, eqs, created, k, entries[k]);
    }
    SameOnTerms(entries, s, t);
  }

  lemma ClientAllowed(entries: Entries, goal: Expr, eqs: Equations, created: nat, t: Valuation)
    requires Registered(entries, goal, eqs, created) && Allowed(entries, t)
    ensures Allowed(entries, ClientPart(t)) && Cost(entries, ClientPart(t)) == Cost(entries, t)
  {
    SameOnClients(entries, goal, eqs, created, ClientPart(t), t);
  }

  lemma FitAllHolds(entries: Entries, goal: Expr, eqs: Equations, created: nat, t: Valuation)
    requires Registered(entries, goal, eqs, created) && Admissible(t) && Allowed(entries, t)
    ensures Holds(eqs, FitAll(entries, t))
  {
    hide Owns;
    hide Eval;
    hide FitAll;
    hide Entry.Allows;
    forall k | k in eqs ensures Eval(eqs[k], FitAll(entries, t)) == 0.0 {
      FitAllFits(entries, goal, eqs, created, t, k);
    }
  }

  lemma GoalWeighted(entries: Entries, goal: Expr, eqs: Equations, created: nat)
    requires Registered(entries, goal, eqs, created)
    ensures Weighted(entries, entries.Keys, goal)
  {
    forall k | k in entries
      ensures |entries[k].errors| <= 2 && (|entries[k].errors| == 2 ==> entries[k].errors[0] != entries[k].errors[1])
      ensures forall v <- entries[k].errors :: Coef(goal, v) == entries[k].c.strength
    {
      assert Owns(goal, eqs, created, k, entries[k]);
      FreshErrors(entries[k], 0, created);
    }
  }

  lemma GoalCosts(entries: Entries, goal: Expr, eqs: Equations, created: nat, fit: Valuation, t: Valuation)
    requires Registered(entries, goal, eqs, created) && Admissible(t) && Allowed(entries, t)
    requires fit == FitAll(entries, t)
    ensures Eval(goal, fit) == goal.constant + Cost(entries, t)
  {
    hide Eval;
    hide FitAll;
    hide Mul;
    hide Total;
    hide Violation;
    hide Weighted;
    hide Owns;
    GoalWeighted(entries, goal, eqs, created);
    GoalIsSum(entries, entries.Keys, goal, fit);
    var f, g := Missed(entries, t), Errant(entries, fit);
    forall k | k in entries ensures g(k) == f(k) {
      FitAllFits(entries, goal, eqs, created, t, k);
      NoErrors(entries, goal, eqs, created, k, fit);
      MulZero(entries[k].c.strength);
    }
    SumMonotone(entries.Keys, f, g);
    SumMonotone(entries.Keys, g, f);
  }

  lemma GoalBounds(entries: Entries, goal: Expr, eqs: Equations, created: nat, s: Valuation)
    requires Registered(entries, goal, eqs, created) && Admissible(s) && Holds(eqs, s) && Sensible(entries)
    ensures goal.constant + Cost(entries, s) <= Eval(goal, s)
  {
    hide Eval;
    hide Mul;
    hide Total;
    hide Violation;
    hide Weighted;
    hide Entry.Allows;
    GoalWeighted(entries, goal, eqs, created);
    GoalIsSum(entries, entries.Keys, goal, s);
    var f, g := Missed(entries, s), Errant(entries, s);
    forall k | k in entries ensures f(k) <= g(k) {
      assert Owns(goal, eqs, created, k, entries[k]);
      EquationMeaning(entries[k], created, s);
      NoErrors(entries, goal, eqs, created, k, s);
      MulZero(entries[k].c.strength);
      if !entries[k].c.IsRequired() {
        MulMono(entries[k].c.strength, Violation(entries[k].Now(), s), Total(entries[k].errors, s));
      }
    }
    SumMonotone(entries.Keys, f, g);
  }

  lemma NoErrors(entries: Entries, goal: Expr, eqs: Equations, created: nat, k: Variable, s: Valuation)
    requires Registered(entries, goal, eqs, created) && k in entries
    ensures entries[k].c.IsRequired() ==> Total(entries[k].errors, s) == 0.0
  {
    assert Owns(goal, eqs, created, k, entries[k]);
  }

  lemma MulMono(k: real, x: real, y: real)
    requires k >= 0.0 && x <= y
    ensures Mul(k, x) <= Mul(k, y)
  {
    MulMonotone(k, x, y);
  }

  ghost predicate AgreeOnClients(s: Valuation, t: Valuation) {
    forall v: Variable {:trigger s(v)} :: v.IsClient() ==> s(v) == t(v)
  }

  /** The table says about the program's variables exactly what the demands say, so what it
      says depends on no preference and on no history. */
  lemma Projection(rows: Rows, z: Variable, goal: Expr, eqs: Equations, entries: Entries, created: nat, t: Valuation)
    requires Represents(rows, z, goal, eqs) && z.kind.Objective? && !Mentions(eqs, z) && z !in goal.terms
    requires Registered(entries, goal, eqs, created)
    ensures (exists s: Valuation :: Admissible(s) && Sat(rows, s) && AgreeOnClients(s, t)) <==> Allowed(entries, t)
  {
    hide Eval;
    hide Registered;
    hide Sat;
    hide Holds;
    hide FitAll;
    hide Allowed;
    if s: Valuation :| Admissible(s) && Sat(rows, s) && AgreeOnClients(s, t) {
      HeldIsAllowed(goal, eqs, entries, created, s);
      SameOnClients(entries, goal, eqs, created, s, t);
    }
    if Allowed(entries, t) {
      var s := CostAgainstGoal(rows, z, goal, eqs, entries, created, t);
    }
  }

  lemma HeldIsAllowed(goal: Expr, eqs: Equations, entries: Entries, created: nat, s: Valuation)
    requires Registered(entries, goal, eqs, created) && Admissible(s) && Holds(eqs, s)
    ensures Allowed(entries, s)
  {
    hide Eval;
    hide Entry.Allows;
    forall k | k in entries ensures entries[k].Allows(s) {
      assert Owns(goal, eqs, created, k, entries[k]);
      EquationMeaning(entries[k], created, s);
    }
  }

  lemma FitAllClients(entries: Entries, goal: Expr, eqs: Equations, created: nat, t: Valuation)
    requires Registered(entries, goal, eqs, created)
    ensures forall v: Variable :: v.IsClient() ==> FitAll(entries, t)(v) == t(v)
  {
    hide Registered;
    forall v: Variable | v.IsClient() ensures FitAll(entries, t)(v) == t(v) {
      NoOwner(entries, goal, eqs, created, v);
    }
  }

  /** A refused constraint contradicts the demands: no values that meet them satisfy it. */
  lemma RefusedContradicts(entries: Entries, goal: Expr, eqs: Equations, created: nat, e: Entry, last: nat,
                           t: Valuation)
    requires Registered(entries, goal, eqs, created) && Numbered({}, goal, eqs, created)
    requires OwnFresh(e, created, last) && e.artificial.None? && e.c.IsRequired() && e.offset == 0.0
    requires forall v <- e.c.expression.terms :: v.IsClient()
    requires forall s: Valuation :: Admissible(s) && Holds(eqs, s) ==> Eval(e.Equation(), s) != 0.0
    requires Allowed(entries, t)
    ensures !e.c.SatisfiedBy(t)
  {
    hide Eval;
    hide Holds;
    hide FitAll;
    hide Allowed;
    hide Entry.Equation;
    if e.c.SatisfiedBy(t) {
      RegisterKeeps(entries, goal, eqs, created, last, e);
      var more, list := entries[e.Key() := e], eqs[e.Key() := e.Equation()];
      AllowedMore(entries, e, t);
      ClientAllowed(more, AddErrors(goal, e.errors, e.c.strength), list, last, t);
      ClientPartAdmissible(t);
      var s := FitAll(more, ClientPart(t));
      FitAllAdmissible(more, AddErrors(goal, e.errors, e.c.strength), list, last, ClientPart(t));
      FitAllHolds(more, AddErrors(goal, e.errors, e.c.strength), list, last, ClientPart(t));
      HoldsExtended(eqs, e.Key(), e.Equation(), s);
    }
  }

  lemma RefusedForAll(row: Expr, entries: Entries, goal: Expr, eqs: Equations, created: nat, e: Entry, last: nat)
    requires Registered(entries, goal, eqs, created) && Numbered({}, goal, eqs, created)
    requires OwnFresh(e, created, last) && e.artificial.None? && e.c.IsRequired() && e.offset == 0.0
    requires forall v <- e.c.expression.terms :: v.IsClient()
    requires Refutes(row, eqs, e.Equation()) && Optimised(row)
    ensures forall t: Valuation :: Allowed(entries, t) ==> !e.c.SatisfiedBy(t)
  {
    hide Allowed;
    hide Refutes;
    hide Registered;
    hide Numbered;
    hide OwnFresh;
    RefutedMeans(row, eqs, e);
    forall t: Valuation | Allowed(entries, t) ensures !e.c.SatisfiedBy(t) {
      RefusedContradicts(entries, goal, eqs, created, e, last, t);
    }
  }

  lemma AllowedMore(entries: Entries, e: Entry, t: Valuation)
    requires Allowed(entries, t) && e.artificial.None? && e.offset == 0.0 && e.c.SatisfiedBy(t)
    ensures Allowed(entries[e.Key() := e], t)
  {
    EvalShiftConstant(e.c.expression, e.offset, t);
  }

  function Distance(x: real, y: real): real {
    if x < y then y - x else x - y
  }

  /** The violation of an edit constraint is the distance to the value it stands at. */
  lemma StandingViolation(entries: Entries, info: EditInfo, x: real, s: Valuation)
    requires Stands(entries, info, x) && !entries[info.plus].c.IsInequality()
    ensures Violation(entries[info.plus].Now(), s) == Distance(s(info.variable), x)
  {
    hide Eval;
    var e := entries[info.plus].Now().expression;
    var none := Expr(map[], x);
    EvalWith(none, info.variable, -1.0, s);
    EvalConstant(none, s);
    assert With(none, info.variable, -1.0) == e;
  }

  // ---- an edit constraint stronger than the others on its variable

  /** `s` with another value for one variable. */
  ghost function At(s: Valuation, v: Variable, y: real): Valuation {
    (u: Variable) => if u == v then y else s(u)
  }

  function Magnitude(x: real): real {
    if x < 0.0 then -x else x
  }

  /** How much a preferred constraint can gain or lose per unit of the variable. */
  ghost function Pull(entries: Entries, v: Variable): Variable -> real {
    (k: Variable) =>
      if k in entries && !entries[k].c.IsRequired() then
        Mul(entries[k].c.strength, Magnitude(Coef(entries[k].c.expression, v))) else 0.0
  }

  /** What all preferred constraints but one weigh together on the variable. */
  ghost function OthersPull(entries: Entries, k: Variable, v: Variable): real {
    Sum(entries.Keys - {k}, Pull(entries, v))
  }

  lemma EvalAt(e: Expr, s: Valuation, v: Variable, y: real)
    ensures Eval(e, At(s, v, y)) == Eval(e, s) + Mul(Coef(e, v), y - s(v))
  {
    EvalWithout(e, v, s);
    EvalWithout(e, v, At(s, v, y));
    DotSame(Without(e, v).terms.Keys, Without(e, v), s, At(s, v, y));
    assert Coef(e, v) * y - Coef(e, v) * s(v) == Coef(e, v) * (y - s(v));
  }

  lemma MulMagnitude(c: real, d: real)
    ensures -Mul(Magnitude(c), Magnitude(d)) <= Mul(c, d) <= Mul(Magnitude(c), Magnitude(d))
  {}

  /** Moving one variable changes a violation by no more than its coefficient says. */
  lemma ViolationAt(e: Entry, s: Valuation, v: Variable, y: real)
    ensures Violation(e.Now(), At(s, v, y))
         <= Violation(e.Now(), s) + Mul(Magnitude(Coef(e.c.expression, v)), Distance(s(v), y))
  {
    hide Eval;
    hide Mul;
    EvalAt(e.Now().expression, s, v, y);
    MulMagnitude(Coef(e.c.expression, v), y - s(v));
  }

  lemma MissedAt(entries: Entries, k: Variable, s: Valuation, v: Variable, y: real)
    requires Sensible(entries)
    ensures Missed(entries, At(s, v, y))(k) <= Missed(entries, s)(k) + Mul(Pull(entries, v)(k), Distance(s(v), y))
  {
    hide Violation;
    if k in entries && !entries[k].c.IsRequired() {
      var w, m, d := entries[k].c.strength, Magnitude(Coef(entries[k].c.expression, v)), Distance(s(v), y);
      ViolationAt(entries[k], s, v, y);
      MulMonotone(w, Violation(entries[k].Now(), At(s, v, y)), Violation(entries[k].Now(), s) + Mul(m, d));
      MulSum(Violation(entries[k].Now(), s), Mul(m, d), w);
      MulAssoc(w, m, d);
    } else {
      MulZero(Distance(s(v), y));
    }
  }

  lemma {:induction false} SumAt(S: set<Variable>, entries: Entries, s: Valuation, v: Variable, y: real)
    requires Sensible(entries)
    ensures Sum(S, Missed(entries, At(s, v, y)))
         <= Sum(S, Missed(entries, s)) + Mul(Sum(S, Pull(entries, v)), Distance(s(v), y))
    decreases |S|
  {
    hide Missed;
    hide Pull;
    hide Mul;
    hide Sensible;
    if S == {} {
      MulZero(Distance(s(v), y));
    } else {
      var k :| k in S;
      SumRemove(S, Missed(entries, At(s, v, y)), k);
      SumRemove(S, Missed(entries, s), k);
      SumRemove(S, Pull(entries, v), k);
      MissedAt(entries, k, s, v, y);
      SumAt(S - {k}, entries, s, v, y);
      MulSum(Pull(entries, v)(k), Sum(S - {k}, Pull(entries, v)), Distance(s(v), y));
    }
  }

  /** `y` lies on the way from `from` to `x`. */
  predicate OnTheWay(from: real, y: real, x: real) {
    from <= y <= x || x <= y <= from
  }

  /** Where a preferred edit constraint is stronger than all the others on its variable together,
      every step of the variable towards the value it stands at lowers the weighted violation. */
  lemma StrongerPrevails(entries: Entries, info: EditInfo, x: real, s: Valuation, y: real)
    requires Sensible(entries) && Stands(entries, info, x)
    requires !entries[info.plus].c.IsInequality() && !entries[info.plus].c.IsRequired()
    requires OthersPull(entries, info.plus, info.variable) < entries[info.plus].c.strength
    requires OnTheWay(s(info.variable), y, x) && y != s(info.variable)
    ensures Cost(entries, At(s, info.variable, y)) < Cost(entries, s)
  {
    var k, v := info.plus, info.variable;
    var t, d, w := At(s, v, y), Distance(s(v), y), entries[k].c.strength;
    StandingViolation(entries, info, x, s);
    StandingViolation(entries, info, x, t);
    hide Violation;
    hide Stands;
    hide Sensible;
    SumRemove(entries.Keys, Missed(entries, t), k);
    SumRemove(entries.Keys, Missed(entries, s), k);
    SumAt(entries.Keys - {k}, entries, s, v, y);
    assert Distance(s(v), x) == Distance(y, x) + d;
    MulSum(Distance(y, x), d, w);
    HeavierWins(w, OthersPull(entries, k, v), d);
  }

  lemma HeavierWins(w: real, u: real, d: real)
    requires u < w && d > 0.0
    ensures Mul(u, d) < Mul(w, d)
  {
    assert (w - u) * d > 0.0;
  }

  // ---- histories

  /** What an operation does to the entries: a constraint or a leftover comes in, a constraint
      goes, or an edit moves a constant. */
  datatype Change = Entered(e: Entry) | Left(k: Variable) | Edited(k: Variable, turn: real)

  function Changed(entries: Entries, h: Change): Entries {
    match h
    case Entered(e) => entries[e.Key() := e]
    case Left(k) => entries - {k}
    case Edited(k, turn) => if k in entries then entries[k := Turned(entries[k], turn)] else entries
  }

  function After(entries: Entries, history: seq<Change>): Entries {
    if history == [] then entries
    else Changed(After(entries, history[..|history| - 1]), history[|history| - 1])
  }

  /** Everything the equations demand. */
  function Demands(entries: Entries): set<Demand> {
    set k | k in entries && entries[k].Binds() :: entries[k].Asks()
  }

  lemma AllowedByDemands(entries: Entries, t: Valuation)
    ensures Allowed(entries, t) <==> forall d <- Demands(entries) :: d.MetBy(t)
  {
    forall k | k in entries && entries[k].Binds() ensures entries[k].Asks() in Demands(entries) {
    }
  }

  /** A preferred constraint comes, goes or is edited. */
  predicate Preferential(entries: Entries, h: Change) {
    match h
    case Entered(e) => !e.Binds() && e.Key() !in entries
    case Left(k) => k in entries ==> !entries[k].Binds()
    case Edited(k, _) => k in entries ==> !entries[k].Binds()
  }

  predicate AllPreferential(entries: Entries, history: seq<Change>) {
    history == [] ||
    (&& AllPreferential(entries, history[..|history| - 1])
     && Preferential(After(entries, history[..|history| - 1]), history[|history| - 1]))
  }

  lemma OneMore(entries: Entries, history: seq<Change>, h: Change)
    ensures After(entries, history + [h]) == Changed(After(entries, history), h)
    ensures AllPreferential(entries, history + [h]) <==>
      AllPreferential(entries, history) && Preferential(After(entries, history), h)
  {
    assert (history + [h])[..|history|] == history;
  }

  /** What binds is untouched by any history of suggestions and of preferred constraints. */
  lemma {:induction false} PreferencesComeAndGo(entries: Entries, history: seq<Change>)
    requires AllPreferential(entries, history)
    ensures var after := After(entries, history);
            && (forall k :: (k in after && after[k].Binds()) <==> (k in entries && entries[k].Binds()))
            && (forall k <- entries :: entries[k].Binds() ==> k in after && after[k] == entries[k])
    decreases |history|
  {
    if history != [] {
      PreferencesComeAndGo(entries, history[..|history| - 1]);
    }
  }

  /** Retraction over histories: a constraint is entered, any number of suggestions follows
      and of preferred constraints that come and go, and the constraint is taken out again.
      What is demanded then is what was demanded before. */
  lemma RetractionOverHistory(entries: Entries, e: Entry, history: seq<Change>)
    requires e.Key() !in entries && AllPreferential(Changed(entries, Entered(e)), history)
    ensures Demands(Changed(After(Changed(entries, Entered(e)), history), Left(e.Key()))) == Demands(entries)
  {
    var entered := Changed(entries, Entered(e));
    PreferencesComeAndGo(entered, history);
    var left := Changed(After(entered, history), Left(e.Key()));
    assert forall k :: (k in left && left[k].Binds()) <==> (k in entries && entries[k].Binds());
    assert forall k <- entries :: entries[k].Binds() ==> left[k] == entries[k];
  }

  /** Over any history at all, a constraint that is entered before and taken out after it leaves
      the entries as the history alone would. */
  lemma {:induction false} RetractionForgets(entries: Entries, e: Entry, history: seq<Change>)
    ensures Changed(After(Changed(entries, Entered(e)), history), Left(e.Key())) ==
            Changed(After(entries, history), Left(e.Key()))
    decreases |history|
  {
    if history != [] {
      var init, h := history[..|history| - 1], history[|history| - 1];
      RetractionForgets(entries, e, init);
      LeavesAfter(After(Changed(entries, Entered(e)), init), After(entries, init), e.Key(), h);
    }
  }

  lemma LeavesAfter(a: Entries, b: Entries, k: Variable, h: Change)
    requires a - {k} == b - {k}
    ensures Changed(a, h) - {k} == Changed(b, h) - {k}
  {
    assert forall j :: j != k ==> (j in a <==> j in a - {k}) && (j in b <==> j in b - {k});
    assert forall j <- a :: j != k ==> j in b && (a - {k})[j] == (b - {k})[j];
  }

  /** Retraction: two tables, whatever happened in between, allow the program's variables the
      same values when the same is demanded. */
  lemma Retraction(before: Rows, z: Variable, goal: Expr, eqs: Equations, entries: Entries, created: nat,
                   after: Rows, y: Variable, goalAfter: Expr, eqsAfter: Equations, entriesAfter: Entries,
                   createdAfter: nat, t: Valuation)
    requires Represents(before, z, goal, eqs) && z.kind.Objective? && !Mentions(eqs, z) && z !in goal.terms
    requires Registered(entries, goal, eqs, created)
    requires Represents(after, y, goalAfter, eqsAfter) && y.kind.Objective? && !Mentions(eqsAfter, y)
      && y !in goalAfter.terms
    requires Registered(entriesAfter, goalAfter, eqsAfter, createdAfter)
    requires Demands(entries) == Demands(entriesAfter)
    ensures (exists s: Valuation :: Admissible(s) && Sat(before, s) && AgreeOnClients(s, t)) <==>
            (exists s: Valuation :: Admissible(s) && Sat(after, s) && AgreeOnClients(s, t))
  {
    hide *;
    Projection(before, z, goal, eqs, entries, created, t);
    Projection(after, y, goalAfter, eqsAfter, entriesAfter, createdAfter, t);
    AllowedByDemands(entries, t);
    AllowedByDemands(entriesAfter, t);
  }

  ghost function AsValuation(solution: map<Variable, real>): Valuation {
    (v: Variable) => if v in solution then solution[v] else 0.0
  }
}
