/** Solver variables (Source/GSCSVariable.m).  A variable is an object compared by
    identity; `serial` stands for that identity.  The mutable `_value` of a variable
    is kept by the solver, and `_id` is never assigned by the source. */
module Variables {

  datatype VariableType = Dummy | Slack | Plain | Objective | External

  datatype Variable = Variable(kind: VariableType, serial: nat) {
    predicate IsExternal() { kind.External? }

    predicate IsDummy() { kind.Dummy? }

    /** Only slack and error variables may enter or leave the basis while optimising. */
    predicate IsPivotable() { kind.Slack? }

    predicate IsRestricted() { kind.Dummy? || kind.Slack? }

    /** A variable of the program using the solver, as opposed to one the solver made up. */
    predicate IsClient() { kind.External? || kind.Plain? }
  }

  /** An assignment of a value to every variable. */
  type Valuation = Variable -> real

  ghost function Update(s: Valuation, v: Variable, x: real): Valuation {
    u => if u == v then x else s(u)
  }

  /** The values the solver allows: slacks are non-negative and dummies are zero. */
  ghost predicate Admissible(s: Valuation) {
    forall v: Variable {:trigger s(v)} ::
      && (v.kind.Slack? ==> s(v) >= 0.0)
      && (v.kind.Dummy? ==> s(v) == 0.0)
  }
}
