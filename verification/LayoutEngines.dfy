/** Groups of layout constraints (Source/GSAutoLayoutEngine.m): inside a group the solver
    constraints wait in a list, while suggestions still reach the solver at once. */
module LayoutEngines {
  import opened Options
  import opened Sequences

  datatype View = View(id: nat, intrinsicWidth: bool, intrinsicHeight: bool)

  datatype Attribute =
    Leading | Trailing | Left | Right | Top | Bottom | CenterX | CenterY | Baseline | FirstBaseline | OtherAttribute

  datatype Edge = Width | Height | BaselineOffset | FirstBaselineOffset

  /** A variable of a view whose value the engine suggests to the solver. */
  datatype Measured = Measured(view: View, edge: Edge)

  /** A solver constraint object; `edits` is the variable of an edit constraint. */
  datatype SolverConstraint = SolverConstraint(id: nat, edits: Option<Measured>)

  datatype Layout = Layout(id: nat, first: View, firstAttribute: Attribute, second: Option<View>,
                           secondAttribute: Attribute)

  // ---- the solver, as far as groups are concerned

  /** A constraint in the solver: one it was given, or the edit constraint it makes itself for
      a variable that has none. */
  datatype Posted = Given(c: SolverConstraint) | Own(v: Measured)

  /** What the solver remembers for a variable: the edit constraint entered last, and the value
      suggested last or, at first, the one the variable had then. */
  datatype Info = Info(of: Posted, previous: real)

  /** `stands` is the value each edit constraint asks for, from its creation until it is taken
      out.  An info outlives its constraint. */
  datatype Solver = Solver(constraints: seq<Posted>, stands: map<Posted, real>, infos: map<Measured, Info>)

  /** What is asked of the solver. */
  datatype Call = Entered(p: Posted) | Taken(c: SolverConstraint) | Solved | Suggested(v: Measured, to: real)

  /** What lies outside this model: the value a variable reports and whether an error variable
      of its last edit constraint is basic, after any calls, and what the views measure. */
  datatype Oracle = Oracle(value: (seq<Call>, Measured) -> real, basic: (seq<Call>, Measured) -> bool,
                           size: Measured -> real)

  /** The solver, the constraints waiting for it, and what it has been asked so far. */
  datatype State = State(solver: Solver, pending: seq<SolverConstraint>, calls: seq<Call>)

  /** `addConstraintToTableau:`, which registers the variable of an edit constraint.  The values
      are those reported after `calls`: entering constraints leaves them alone. */
  function Post(o: Oracle, calls: seq<Call>, s: Solver, c: SolverConstraint): Solver {
    s.(constraints := s.constraints + [Given(c)],
       infos := if c.edits.None? then s.infos
                else s.infos[c.edits.value := Info(Given(c), o.value(calls, c.edits.value))])
  }

  function PostAll(o: Oracle, calls: seq<Call>, s: Solver, cs: seq<SolverConstraint>): Solver
    decreases cs
  {
    if cs == [] then s else PostAll(o, calls, Post(o, calls, s, cs[0]), cs[1..])
  }

  /** `addEditVariable:strength:`: an edit constraint at the present value. */
  function AddEdit(o: Oracle, s: State, v: Measured): State {
    var now := o.value(s.calls, v);
    State(Solver(s.solver.constraints + [Own(v)], s.solver.stands[Own(v) := now],
                 s.solver.infos[v := Info(Own(v), now)]),
          s.pending, s.calls + [Entered(Own(v)), Solved])
  }

  /** The change of the value for `v` moves its last edit constraint, as long as that is in the
      solver: by as much, or by as much the other way when an error variable is basic. */
  function Moved(o: Oracle, s: State, v: Measured): map<Posted, real>
    requires v in s.solver.infos
  {
    var info, stands := s.solver.infos[v], s.solver.stands;
    var change := o.size(v) - info.previous;
    if info.of !in stands then stands
    else stands[info.of := stands[info.of] + if o.basic(s.calls, v) then -change else change]
  }

  /** `suggestEditVariable:equals:` */
  function Suggest(o: Oracle, s: State, v: Measured): State {
    var t := if v in s.solver.infos then s else AddEdit(o, s, v);
    State(Solver(t.solver.constraints, Moved(o, t, v), t.solver.infos[v := Info(t.solver.infos[v].of, o.size(v))]),
          t.pending, t.calls + [Suggested(v, o.size(v))])
  }

  /** `removeConstraintFromTableau:`, of a constraint the solver holds */
  function Withdraw(s: Solver, c: SolverConstraint): Solver {
    s.(constraints := Remove(s.constraints, Given(c)), stands := s.stands - {Given(c)})
  }

  function WithdrawAll(s: Solver, cs: seq<SolverConstraint>): Solver
    decreases cs
  {
    if cs == [] then s else WithdrawAll(Withdraw(s, cs[0]), cs[1..])
  }

  /** The solver holds each constraint when its turn comes; otherwise it raises. */
  predicate AllHeld(s: Solver, cs: seq<SolverConstraint>)
    decreases cs
  {
    cs == [] || (Given(cs[0]) in s.constraints && AllHeld(Withdraw(s, cs[0]), cs[1..]))
  }

  // ---- the engine's own tables

  datatype Tables = Tables(
    made: nat,
    listed: seq<SolverConstraint>,
    byLayout: map<Layout, SolverConstraint>,
    bySolver: map<SolverConstraint, Layout>,
    supporting: map<SolverConstraint, seq<SolverConstraint>>,
    internals: map<View, seq<SolverConstraint>>,
    used: map<View, seq<Layout>>)

  datatype Event = Submit(c: SolverConstraint) | Resolve(v: Measured) | Recall(c: SolverConstraint)

  /** The tables, and what has been asked of the solver on the way. */
  datatype Progress = Progress(tables: Tables, events: seq<Event>)

  function Appended<K, V>(m: map<K, seq<V>>, k: K, v: V): map<K, seq<V>> {
    m[k := (if k in m then m[k] else []) + [v]]
  }

  function Submitted(p: Progress, c: SolverConstraint): Progress {
    Progress(p.tables.(listed := p.tables.listed + [c]), p.events + [Submit(c)])
  }

  /** A new solver constraint that stands for part of a view. */
  function AddInternal(p: Progress, view: View, edits: Option<Measured>): Progress {
    var c := SolverConstraint(p.tables.made, edits);
    var q := Submitted(p.(tables := p.tables.(made := p.tables.made + 1)), c);
    q.(tables := q.tables.(internals := Appended(q.tables.internals, view, c)))
  }

  /** A new solver constraint that supports another. */
  function AddSupport(p: Progress, owner: SolverConstraint, edits: Option<Measured>): Progress {
    var c := SolverConstraint(p.tables.made, edits);
    var q := Submitted(p.(tables := p.tables.(made := p.tables.made + 1)), c);
    q.(tables := q.tables.(supporting := Appended(q.tables.supporting, owner, c)))
  }

  function Resolved(p: Progress, v: Measured): Progress {
    p.(events := p.events + [Resolve(v)])
  }

  /** `addSupportingIntrinsicSizeConstraintsToView:...` for one dimension. */
  function AddIntrinsic(p: Progress, view: View, edge: Edge): Progress {
    var v := Measured(view, edge);
    AddInternal(AddInternal(Resolved(AddInternal(p, view, Some(v)), v), view, None), view, None)
  }

  function AddView(p: Progress, view: View): Progress {
    if view in p.tables.internals then p
    else
      var p1 := AddInternal(AddInternal(p, view, None), view, None);
      var p2 := if view.intrinsicWidth then AddIntrinsic(p1, view, Width) else p1;
      if view.intrinsicHeight then AddIntrinsic(p2, view, Height) else p2
  }

  function AddBaseline(p: Progress, view: View, edge: Edge, owner: SolverConstraint): Progress {
    var v := Measured(view, edge);
    AddSupport(Resolved(AddSupport(p, owner, Some(v)), v), owner, None)
  }

  /** `addSupportingInternalConstraintsToView:forAttribute:constraint:` */
  function AddSupporting(p: Progress, view: View, attribute: Attribute, owner: SolverConstraint): Progress {
    var q := AddView(p, view);
    match attribute
    case Baseline => AddBaseline(q, view, BaselineOffset, owner)
    case FirstBaseline => AddBaseline(q, view, FirstBaselineOffset, owner)
    case OtherAttribute => q
    case _ => AddSupport(q, owner, None)
  }

  /** `addConstraint:` */
  function AddLayout(p: Progress, l: Layout): Progress {
    var c := SolverConstraint(p.tables.made, None);
    var p1 := p.(tables := p.tables.(made := p.tables.made + 1,
                                     byLayout := p.tables.byLayout[l := c], bySolver := p.tables.bySolver[c := l]));
    var p2 := AddSupporting(p1, l.first, l.firstAttribute, c);
    var p3 := if l.second.Some? then AddSupporting(p2, l.second.value, l.secondAttribute, c) else p2;
    var p4 := Submitted(p3, c);
    var used := Appended(p4.tables.used, l.first, l);
    p4.(tables := p4.tables.(used := if l.second.Some? then Appended(used, l.second.value, l) else used))
  }

  function AddLayouts(p: Progress, ls: seq<Layout>): Progress {
    if ls == [] then p else AddLayout(AddLayouts(p, ls[..|ls| - 1]), ls[|ls| - 1])
  }

  function Recalled(p: Progress, c: SolverConstraint): Progress {
    Progress(p.tables.(listed := Remove(p.tables.listed, c)), p.events + [Recall(c)])
  }

  function RecalledAll(p: Progress, cs: seq<SolverConstraint>): Progress {
    if cs == [] then p else Recalled(RecalledAll(p, cs[..|cs| - 1]), cs[|cs| - 1])
  }

  function Unused(p: Progress, view: View, l: Layout): Progress {
    var used := p.tables.used;
    if view in used then p.(tables := p.tables.(used := used[view := RemoveFirst(used[view], l)])) else p
  }

  /** `removeInternalConstraintsForView:`, once no constraint uses the view. */
  function RemoveView(p: Progress, view: View): Progress {
    if view in p.tables.used && p.tables.used[view] != [] then p
    else
      var q := RecalledAll(p, if view in p.tables.internals then p.tables.internals[view] else []);
      q.(tables := q.tables.(internals := q.tables.internals - {view}))
  }

  /** `removeConstraint:`.  The two maps between layout and solver constraints keep their
      entries. */
  function RemoveLayout(p: Progress, l: Layout): Progress {
    if l !in p.tables.byLayout then p
    else
      var c := p.tables.byLayout[l];
      var p1 := Recalled(p, c);
      var p2 := RecalledAll(p1, if c in p1.tables.supporting then p1.tables.supporting[c] else []);
      var p3 := p2.(tables := p2.tables.(supporting := p2.tables.supporting - {c}));
      var p4 := Unused(p3, l.first, l);
      var p5 := if l.second.Some? then Unused(p4, l.second.value, l) else p4;
      var p6 := RemoveView(p5, l.first);
      if l.second.Some? then RemoveView(p6, l.second.value) else p6
  }

  function RemoveLayouts(p: Progress, ls: seq<Layout>): Progress {
    if ls == [] then p else RemoveLayout(RemoveLayouts(p, ls[..|ls| - 1]), ls[|ls| - 1])
  }

  // ---- what becomes of the events

  /** A new edit constraint asks for the value its variable has. */
  function Created(o: Oracle, s: State, c: SolverConstraint): State {
    if c.edits.None? then s
    else
      var stands := s.solver.stands[Given(c) := o.value(s.calls, c.edits.value)];
      s.(solver := s.solver.(stands := stands))
  }

  function Handed(o: Oracle, depth: nat, s: State, c: SolverConstraint): State {
    if depth > 0 then s.(pending := s.pending + [c])
    else State(Post(o, s.calls, s.solver, c), s.pending, s.calls + [Entered(Given(c)), Solved])
  }

  function HandedBack(depth: nat, s: State, c: SolverConstraint): State {
    if depth > 0 then s.(pending := s.pending + [c])
    else State(Withdraw(s.solver, c), s.pending, s.calls + [Taken(c), Solved])
  }

  function Play1(o: Oracle, depth: nat, s: State, e: Event): State {
    match e
    case Submit(c) => Handed(o, depth, Created(o, s, c), c)
    case Recall(c) => HandedBack(depth, s, c)
    case Resolve(v) => Suggest(o, s, v)
  }

  function Play(o: Oracle, depth: nat, s: State, events: seq<Event>): State {
    if events == [] then s
    else Play1(o, depth, Play(o, depth, s, events[..|events| - 1]), events[|events| - 1])
  }

  /** `addConstraints:` of the solver, with everything that waits */
  function Flushed(o: Oracle, s: State): State {
    if s.pending == [] then s
    else State(PostAll(o, s.calls, s.solver, s.pending), [], s.calls + Entries(s.pending) + [Solved])
  }

  /** `removeConstraints:` of the solver, with everything that waits, when it holds all of that */
  function Drained(s: State): State {
    if s.pending == [] then s
    else State(WithdrawAll(s.solver, s.pending), [], s.calls + Takings(s.pending) + [Solved])
  }

  function Entries(cs: seq<SolverConstraint>): seq<Call> {
    seq(|cs|, i requires 0 <= i < |cs| => Entered(Given(cs[i])))
  }

  function Takings(cs: seq<SolverConstraint>): seq<Call> {
    seq(|cs|, i requires 0 <= i < |cs| => Taken(cs[i]))
  }

  /** No recall asks the solver for a constraint that it does not hold. */
  predicate Held(o: Oracle, depth: nat, s: State, events: seq<Event>) {
    events == [] ||
    (&& Held(o, depth, s, events[..|events| - 1])
     && HeldNext(depth, Play(o, depth, s, events[..|events| - 1]), events[|events| - 1]))
  }

  predicate HeldNext(depth: nat, s: State, e: Event) {
    depth == 0 && e.Recall? ==> Given(e.c) in s.solver.constraints
  }

  class LayoutEngine {
    var batchDepth: nat
    var batchedSolverConstraints: seq<SolverConstraint>
    var solver: Solver
    var calls: seq<Call>
    var tables: Tables

    constructor (solver: Solver)
      ensures this.solver == solver && batchDepth == 0 && batchedSolverConstraints == [] && calls == []
      ensures tables == Tables(0, [], map[], map[], map[], map[], map[])
    {
      this.solver, batchDepth, batchedSolverConstraints, calls := solver, 0, [], [];
      tables := Tables(0, [], map[], map[], map[], map[], map[]);
    }

    /** The solver, what waits for it, and what it has been asked. */
    function Now(): State
      reads this
    {
      State(solver, batchedSolverConstraints, calls)
    }

    /** The engine has got from the state `s` as far as `p`. */
    ghost predicate Reached(o: Oracle, s: State, p: Progress)
      reads this
    {
      tables == p.tables && Now() == Play(o, batchDepth, s, p.events) && Held(o, batchDepth, s, p.events)
    }

    method NewConstraint(o: Oracle, edits: Option<Measured>) returns (c: SolverConstraint)
      modifies this`tables, this`solver
      ensures c == SolverConstraint(old(tables).made, edits) && tables == old(tables).(made := old(tables).made + 1)
      ensures Now() == Created(o, old(Now()), c)
    {
      c := SolverConstraint(tables.made, edits);
      tables := tables.(made := tables.made + 1);
      if edits.Some? {
        solver := solver.(stands := solver.stands[Given(c) := o.value(calls, edits.value)]);
      }
    }

    /** `addSolverConstraint:` */
    method AddSolverConstraint(o: Oracle, c: SolverConstraint)
      modifies this
      ensures batchDepth == old(batchDepth)
      ensures tables == old(tables).(listed := old(tables).listed + [c])
      ensures Now() == Handed(o, batchDepth, old(Now()), c)
    {
      tables := tables.(listed := tables.listed + [c]);
      if batchDepth > 0 {
        batchedSolverConstraints := batchedSolverConstraints + [c];
      } else {
        solver := Post(o, calls, solver, c);
        calls := calls + [Entered(Given(c)), Solved];
      }
    }

    /** `addInternalSolverConstraint:forView:` for a new constraint */
    method AddInternalSolverConstraint(o: Oracle, view: View, edits: Option<Measured>, ghost s: State,
                                       ghost p: Progress)
      requires Reached(o, s, p)
      modifies this
      ensures batchDepth == old(batchDepth) && Reached(o, s, AddInternal(p, view, edits))
    {
      hide Created;
      hide Handed;
      hide Play;
      hide Held;
      var c := NewConstraint(o, edits);
      PlaySnoc(o, batchDepth, s, p.events, Submit(c));
      AddSolverConstraint(o, c);
      tables := tables.(internals := Appended(tables.internals, view, c));
    }

    /** `addSupportingSolverConstraint:forSolverConstraint:` for a new constraint */
    method AddSupportingSolverConstraint(o: Oracle, owner: SolverConstraint, edits: Option<Measured>, ghost s: State,
                                         ghost p: Progress)
      requires Reached(o, s, p)
      modifies this
      ensures batchDepth == old(batchDepth) && Reached(o, s, AddSupport(p, owner, edits))
    {
      hide Created;
      hide Handed;
      hide Play;
      hide Held;
      var c := NewConstraint(o, edits);
      PlaySnoc(o, batchDepth, s, p.events, Submit(c));
      AddSolverConstraint(o, c);
      tables := tables.(supporting := Appended(tables.supporting, owner, c));
    }

    /** `addEditVariable:strength:` of the solver */
    method AddEditVariable(o: Oracle, v: Measured)
      modifies this`solver, this`calls
      ensures Now() == AddEdit(o, old(Now()), v) && v in solver.infos
    {
      var now := o.value(calls, v);
      solver := Solver(solver.constraints + [Own(v)], solver.stands[Own(v) := now],
                       solver.infos[v := Info(Own(v), now)]);
      calls := calls + [Entered(Own(v)), Solved];
    }

    /** `resolveVariableForView:attribute:` */
    method ResolveVariable(o: Oracle, v: Measured, ghost s: State, ghost p: Progress)
      requires Reached(o, s, p)
      modifies this
      ensures batchDepth == old(batchDepth) && Reached(o, s, Resolved(p, v))
    {
      hide AddEdit;
      hide Moved;
      hide Play;
      hide Held;
      PlaySnoc(o, batchDepth, s, p.events, Resolve(v));
      if v !in solver.infos {
        AddEditVariable(o, v);
      }
      var info := solver.infos[v];
      solver := Solver(solver.constraints, Moved(o, Now(), v), solver.infos[v := Info(info.of, o.size(v))]);
      calls := calls + [Suggested(v, o.size(v))];
    }

    method AddIntrinsicSize(o: Oracle, view: View, edge: Edge, ghost s: State, ghost p: Progress)
      requires Reached(o, s, p)
      modifies this
      ensures batchDepth == old(batchDepth) && Reached(o, s, AddIntrinsic(p, view, edge))
    {
      hide Reached;
      hide AddInternal;
      hide Resolved;
      var v := Measured(view, edge);
      AddInternalSolverConstraint(o, view, Some(v), s, p);
      ghost var p1 := AddInternal(p, view, Some(v));
      ResolveVariable(o, v, s, p1);
      ghost var p2 := Resolved(p1, v);
      AddInternalSolverConstraint(o, view, None, s, p2);
      AddInternalSolverConstraint(o, view, None, s, AddInternal(p2, view, None));
    }

    method AddViewConstraints(o: Oracle, view: View, ghost s: State, ghost p: Progress)
      requires Reached(o, s, p)
      modifies this
      ensures batchDepth == old(batchDepth) && Reached(o, s, AddView(p, view))
    {
      TablesAre(o, s, p);
      hide Reached;
      hide AddInternal;
      hide AddIntrinsic;
      if view in tables.internals {
        return;
      }
      AddInternalSolverConstraint(o, view, None, s, p);
      ghost var q := AddInternal(p, view, None);
      AddInternalSolverConstraint(o, view, None, s, q);
      q := AddInternal(q, view, None);
      if view.intrinsicWidth {
        AddIntrinsicSize(o, view, Width, s, q);
        q := AddIntrinsic(q, view, Width);
      }
      if view.intrinsicHeight {
        AddIntrinsicSize(o, view, Height, s, q);
      }
    }

    lemma TablesAre(o: Oracle, s: State, p: Progress)
      requires Reached(o, s, p)
      ensures tables == p.tables
    {}

    method AddBaselineConstraints(o: Oracle, view: View, edge: Edge, owner: SolverConstraint, ghost s: State,
                                  ghost p: Progress)
      requires Reached(o, s, p)
      modifies this
      ensures batchDepth == old(batchDepth) && Reached(o, s, AddBaseline(p, view, edge, owner))
    {
      hide Reached;
      hide AddSupport;
      hide Resolved;
      var v := Measured(view, edge);
      AddSupportingSolverConstraint(o, owner, Some(v), s, p);
      ghost var q := AddSupport(p, owner, Some(v));
      ResolveVariable(o, v, s, q);
      AddSupportingSolverConstraint(o, owner, None, s, Resolved(q, v));
    }

    /** `addSupportingInternalConstraintsToView:forAttribute:constraint:` */
    method AddSupportingConstraints(o: Oracle, view: View, attribute: Attribute, owner: SolverConstraint,
                                    ghost s: State, ghost p: Progress)
      requires Reached(o, s, p)
      modifies this
      ensures batchDepth == old(batchDepth) && Reached(o, s, AddSupporting(p, view, attribute, owner))
    {
      hide Reached;
      hide AddView;
      hide AddSupport;
      hide AddBaseline;
      AddViewConstraints(o, view, s, p);
      ghost var q := AddView(p, view);
      match attribute {
        case Baseline => AddBaselineConstraints(o, view, BaselineOffset, owner, s, q);
        case FirstBaseline => AddBaselineConstraints(o, view, FirstBaselineOffset, owner, s, q);
        case OtherAttribute =>
        case _ => AddSupportingSolverConstraint(o, owner, None, s, q);
      }
    }

    /** `addConstraint:` */
    method AddConstraint(o: Oracle, l: Layout, ghost s: State, ghost p: Progress)
      requires Reached(o, s, p)
      modifies this
      ensures batchDepth == old(batchDepth) && Reached(o, s, AddLayout(p, l))
    {
      hide AddSupporting;
      hide Play;
      var c := NewConstraint(o, None);
      tables := tables.(byLayout := tables.byLayout[l := c], bySolver := tables.bySolver[c := l]);
      ghost var q := p.(tables := tables);
      AddSupportingConstraints(o, l.first, l.firstAttribute, c, s, q);
      q := AddSupporting(q, l.first, l.firstAttribute, c);
      if l.second.Some? {
        AddSupportingConstraints(o, l.second.value, l.secondAttribute, c, s, q);
        q := AddSupporting(q, l.second.value, l.secondAttribute, c);
      }
      PlaySnoc(o, batchDepth, s, q.events, Submit(c));
      AddSolverConstraint(o, c);
      tables := tables.(used := Appended(tables.used, l.first, l));
      if l.second.Some? {
        tables := tables.(used := Appended(tables.used, l.second.value, l));
      }
    }

    /** `addConstraints:` */
    method AddConstraints(o: Oracle, ls: seq<Layout>)
      modifies this
      ensures batchDepth == old(batchDepth)
      ensures ls == [] ==> tables == old(tables) && Now() == old(Now())
      ensures ls != [] ==>
        var p := AddLayouts(Progress(old(tables), []), ls);
        tables == p.tables && Now() == Flushed(o, Play(o, batchDepth + 1, old(Now()), p.events))
    {
      hide AddLayouts;
      hide AddLayout;
      hide Play;
      hide PostAll;
      if |ls| == 0 {
        return;
      }
      batchDepth := batchDepth + 1;
      ghost var s, p := Now(), Progress(tables, []);
      LayoutsNext(p, ls, 0);
      PlayNone(o, batchDepth, s);
      for i := 0 to |ls|
        invariant batchDepth == old(batchDepth) + 1
        invariant Reached(o, s, AddLayouts(p, ls[..i]))
      {
        LayoutsNext(p, ls, i);
        AddConstraint(o, ls[i], s, AddLayouts(p, ls[..i]));
      }
      assert ls[..|ls|] == ls;
      batchDepth := batchDepth - 1;
      if |batchedSolverConstraints| > 0 {
        solver := PostAll(o, calls, solver, batchedSolverConstraints);
        calls := calls + Entries(batchedSolverConstraints) + [Solved];
        batchedSolverConstraints := [];
      }
    }

    /** `removeSolverConstraint:` */
    method RemoveSolverConstraint(c: SolverConstraint, ghost o: Oracle, ghost s: State, ghost p: Progress)
      returns (raised: bool)
      requires Reached(o, s, p)
      modifies this
      ensures batchDepth == old(batchDepth)
      ensures raised <==> !Held(o, batchDepth, s, Recalled(p, c).events)
      ensures Reached(o, s, if raised then p else Recalled(p, c))
    {
      hide Withdraw;
      PlaySnoc(o, batchDepth, s, p.events, Recall(c));
      if batchDepth > 0 {
        batchedSolverConstraints := batchedSolverConstraints + [c];
      } else {
        if Given(c) !in solver.constraints {
          return true;
        }
        solver := Withdraw(solver, c);
        calls := calls + [Taken(c), Solved];
      }
      tables := tables.(listed := Remove(tables.listed, c));
      raised := false;
    }

    method RemoveSolverConstraints(cs: seq<SolverConstraint>, ghost o: Oracle, ghost s: State, ghost p: Progress)
      returns (raised: bool)
      requires Reached(o, s, p)
      modifies this
      ensures batchDepth == old(batchDepth)
      ensures raised <==> !Held(o, batchDepth, s, RecalledAll(p, cs).events)
      ensures !raised ==> Reached(o, s, RecalledAll(p, cs))
    {
      assert cs[..0] == [];
      for i := 0 to |cs|
        invariant batchDepth == old(batchDepth) && Reached(o, s, RecalledAll(p, cs[..i]))
      {
        hide Reached;
        hide Recalled;
        assert cs[..i + 1][..i] == cs[..i];
        raised := RemoveSolverConstraint(cs[i], o, s, RecalledAll(p, cs[..i]));
        if raised {
          RecalledMore(p, cs, i + 1);
          HeldPrefix(o, batchDepth, s, RecalledAll(p, cs[..i + 1]).events, RecalledAll(p, cs).events);
          return;
        }
      }
      assert cs[..|cs|] == cs;
      raised := false;
    }

    method RemoveUse(view: View, l: Layout, ghost o: Oracle, ghost s: State, ghost p: Progress)
      requires Reached(o, s, p)
      modifies this`tables
      ensures Reached(o, s, Unused(p, view, l))
    {
      if view in tables.used {
        tables := tables.(used := tables.used[view := RemoveFirst(tables.used[view], l)]);
      }
    }

    method RemoveInternalConstraints(view: View, ghost o: Oracle, ghost s: State, ghost p: Progress)
      returns (raised: bool)
      requires Reached(o, s, p)
      modifies this
      ensures batchDepth == old(batchDepth)
      ensures raised <==> !Held(o, batchDepth, s, RemoveView(p, view).events)
      ensures !raised ==> Reached(o, s, RemoveView(p, view))
    {
      if view in tables.used && tables.used[view] != [] {
        return false;
      }
      var cs := if view in tables.internals then tables.internals[view] else [];
      raised := RemoveSolverConstraints(cs, o, s, p);
      if !raised {
        tables := tables.(internals := tables.internals - {view});
      }
    }

    /** `removeConstraint:` */
    method RemoveConstraint(l: Layout, ghost o: Oracle, ghost s: State, ghost p: Progress) returns (raised: bool)
      requires Reached(o, s, p)
      modifies this
      ensures batchDepth == old(batchDepth)
      ensures raised <==> !Held(o, batchDepth, s, RemoveLayout(p, l).events)
      ensures !raised ==> Reached(o, s, RemoveLayout(p, l))
    {
      hide Play;
      hide Held;
      hide Recalled;
      hide RecalledAll;
      hide RemoveView;
      hide Unused;
      if l !in tables.byLayout {
        return false;
      }
      RemovalSteps(o, batchDepth, s, p, l);
      var c := tables.byLayout[l];
      raised := RemoveSolverConstraint(c, o, s, p);
      if raised {
        return;
      }
      ghost var q := Recalled(p, c);
      var cs := if c in tables.supporting then tables.supporting[c] else [];
      raised := RemoveSolverConstraints(cs, o, s, q);
      if raised {
        return;
      }
      tables := tables.(supporting := tables.supporting - {c});
      q := RecalledAll(q, cs).(tables := tables);
      RemoveUse(l.first, l, o, s, q);
      q := Unused(q, l.first, l);
      if l.second.Some? {
        RemoveUse(l.second.value, l, o, s, q);
        q := Unused(q, l.second.value, l);
      }
      raised := RemoveInternalConstraints(l.first, o, s, q);
      if raised {
        return;
      }
      q := RemoveView(q, l.first);
      if l.second.Some? {
        raised := RemoveInternalConstraints(l.second.value, o, s, q);
      }
    }

    /** `removeConstraints:` of the solver */
    method WithdrawFromSolver(cs: seq<SolverConstraint>) returns (raised: bool)
      modifies this`solver, this`calls
      ensures raised <==> !AllHeld(old(solver), cs)
      ensures !raised ==> Now() == Drained(State(old(solver), cs, old(calls))).(pending := batchedSolverConstraints)
      ensures raised ==> exists k: nat | k < |cs| ::
        AllHeld(old(solver), cs[..k]) && solver == WithdrawAll(old(solver), cs[..k])
          && Given(cs[k]) !in solver.constraints && calls == old(calls) + Takings(cs[..k])
    {
      hide Withdraw;
      if cs == [] {
        return false;
      }
      assert calls + Takings(cs[..0]) == calls;
      for i := 0 to |cs|
        invariant AllHeld(old(solver), cs[..i]) && solver == WithdrawAll(old(solver), cs[..i])
        invariant calls == old(calls) + Takings(cs[..i])
      {
        assert cs[..i + 1] == cs[..i] + [cs[i]];
        WithdrawSnoc(old(solver), cs[..i], cs[i]);
        HeldSnoc(old(solver), cs[..i], cs[i]);
        if Given(cs[i]) !in solver.constraints {
          assert cs == cs[..i + 1] + cs[i + 1..];
          HeldSplit(old(solver), cs[..i + 1], cs[i + 1..]);
          return true;
        }
        solver := Withdraw(solver, cs[i]);
        calls := calls + [Taken(cs[i])];
        assert Takings(cs[..i + 1]) == Takings(cs[..i]) + [Taken(cs[i])];
      }
      assert cs[..|cs|] == cs;
      calls := calls + [Solved];
      raised := false;
    }

    /** `removeConstraints:`.  When the solver raises, what was waiting goes on waiting. */
    method RemoveConstraints(ls: seq<Layout>, ghost o: Oracle) returns (raised: bool)
      modifies this
      ensures batchDepth == old(batchDepth)
      ensures ls == [] ==> !raised && tables == old(tables) && Now() == old(Now())
      ensures ls != [] ==>
        var p := RemoveLayouts(Progress(old(tables), []), ls);
        var played := Play(o, batchDepth + 1, old(Now()), p.events);
        && tables == p.tables && (raised <==> !AllHeld(played.solver, played.pending))
        && (!raised ==> Now() == Drained(played))
        && (raised ==> batchedSolverConstraints == played.pending)
    {
      hide RemoveLayouts;
      hide RemoveLayout;
      hide Play;
      hide WithdrawAll;
      if |ls| == 0 {
        return false;
      }
      batchDepth := batchDepth + 1;
      ghost var s, p := Now(), Progress(tables, []);
      RemovalsNext(p, ls, 0);
      PlayNone(o, batchDepth, s);
      for i := 0 to |ls|
        invariant batchDepth == old(batchDepth) + 1
        invariant Reached(o, s, RemoveLayouts(p, ls[..i]))
      {
        RemovalsNext(p, ls, i);
        var none := RemoveConstraint(ls[i], o, s, RemoveLayouts(p, ls[..i]));
        HeldInGroup(o, batchDepth, s, RemoveLayouts(p, ls[..i + 1]).events);
      }
      assert ls[..|ls|] == ls;
      batchDepth := batchDepth - 1;
      raised := WithdrawFromSolver(batchedSolverConstraints);
      if !raised {
        batchedSolverConstraints := [];
      }
    }
  }

  // ---- when the solver raises

  lemma {:induction false} WithdrawSnoc(s: Solver, cs: seq<SolverConstraint>, c: SolverConstraint)
    ensures WithdrawAll(s, cs + [c]) == Withdraw(WithdrawAll(s, cs), c)
    decreases |cs|
  {
    if cs == [] {
      assert [c][1..] == [] && cs + [c] == [c];
    } else {
      assert (cs + [c])[1..] == cs[1..] + [c];
      WithdrawSnoc(Withdraw(s, cs[0]), cs[1..], c);
    }
  }

  lemma {:induction false} HeldPrefix(o: Oracle, depth: nat, s: State, a: seq<Event>, b: seq<Event>)
    requires a <= b && !Held(o, depth, s, a)
    ensures !Held(o, depth, s, b)
    decreases |b|
  {
    if |a| < |b| {
      HeldPrefix(o, depth, s, a, b[..|b| - 1]);
    } else {
      assert a == b;
    }
  }

  lemma {:induction false} HeldInGroup(o: Oracle, depth: nat, s: State, events: seq<Event>)
    requires depth > 0
    ensures Held(o, depth, s, events)
    decreases |events|
  {
    if events != [] {
      HeldInGroup(o, depth, s, events[..|events| - 1]);
    }
  }

  lemma {:induction false} RecalledMore(p: Progress, cs: seq<SolverConstraint>, i: nat)
    requires i <= |cs|
    ensures p.events <= RecalledAll(p, cs[..i]).events <= RecalledAll(p, cs).events
    decreases |cs|
  {
    if i < |cs| {
      assert cs[..|cs| - 1][..i] == cs[..i];
      RecalledMore(p, cs[..|cs| - 1], i);
    } else {
      assert cs[..i] == cs;
      if cs != [] {
        RecalledMore(p, cs[..i - 1], i - 1);
      }
    }
  }

  lemma RemoveViewMore(p: Progress, view: View)
    ensures p.events <= RemoveView(p, view).events
  {
    var cs := if view in p.tables.internals then p.tables.internals[view] else [];
    RecalledMore(p, cs, |cs|);
  }

  /** A removal that meets a constraint the solver lacks at one of its steps is not held. */
  lemma RemovalSteps(o: Oracle, depth: nat, s: State, p: Progress, l: Layout)
    requires l in p.tables.byLayout
    ensures var c := p.tables.byLayout[l];
            var p1 := Recalled(p, c);
            var p2 := RecalledAll(p1, if c in p1.tables.supporting then p1.tables.supporting[c] else []);
            var p3 := p2.(tables := p2.tables.(supporting := p2.tables.supporting - {c}));
            var p4 := Unused(p3, l.first, l);
            var p5 := if l.second.Some? then Unused(p4, l.second.value, l) else p4;
            var p6 := RemoveView(p5, l.first);
            && (!Held(o, depth, s, p1.events) ==> !Held(o, depth, s, RemoveLayout(p, l).events))
            && (!Held(o, depth, s, p2.events) ==> !Held(o, depth, s, RemoveLayout(p, l).events))
            && (!Held(o, depth, s, p6.events) ==> !Held(o, depth, s, RemoveLayout(p, l).events))
  {
    hide Held;
    hide Recalled;
    hide RecalledAll;
    hide RemoveView;
    var c := p.tables.byLayout[l];
    var p1 := Recalled(p, c);
    var cs := if c in p1.tables.supporting then p1.tables.supporting[c] else [];
    RecalledMore(p1, cs, |cs|);
    assert cs[..|cs|] == cs;
    var p2 := RecalledAll(p1, cs);
    var p3 := p2.(tables := p2.tables.(supporting := p2.tables.supporting - {c}));
    var p4 := Unused(p3, l.first, l);
    var p5 := if l.second.Some? then Unused(p4, l.second.value, l) else p4;
    var p6 := RemoveView(p5, l.first);
    RemoveViewMore(p5, l.first);
    var p7 := if l.second.Some? then RemoveView(p6, l.second.value) else p6;
    if l.second.Some? {
      RemoveViewMore(p6, l.second.value);
    }
    assert p1.events <= p2.events <= p6.events <= p7.events;
    if !Held(o, depth, s, p1.events) { HeldPrefix(o, depth, s, p1.events, p7.events); }
    if !Held(o, depth, s, p2.events) { HeldPrefix(o, depth, s, p2.events, p7.events); }
    if !Held(o, depth, s, p6.events) { HeldPrefix(o, depth, s, p6.events, p7.events); }
  }

  lemma {:induction false} HeldSplit(s: Solver, a: seq<SolverConstraint>, b: seq<SolverConstraint>)
    ensures AllHeld(s, a + b) <==> AllHeld(s, a) && AllHeld(WithdrawAll(s, a), b)
    decreases |a|
  {
    hide Withdraw;
    if a == [] {
      assert a + b == b;
    } else {
      assert (a + b)[1..] == a[1..] + b;
      HeldSplit(Withdraw(s, a[0]), a[1..], b);
    }
  }

  lemma HeldSnoc(s: Solver, cs: seq<SolverConstraint>, c: SolverConstraint)
    ensures AllHeld(s, cs + [c]) <==> AllHeld(s, cs) && Given(c) in WithdrawAll(s, cs).constraints
  {
    hide Withdraw;
    HeldSplit(s, cs, [c]);
    assert [c][1..] == [];
  }

  /** The solver raises exactly when it is asked for a constraint twice, or for one it does
      not hold. */
  lemma {:induction false} HeldExactly(s: Solver, cs: seq<SolverConstraint>)
    ensures AllHeld(s, cs) <==> Distinct(cs) && forall c <- cs :: Given(c) in s.constraints
    decreases |cs|
  {
    if cs != [] {
      var c, rest := cs[0], cs[1..];
      RemoveIs(s.constraints, Given(c));
      HeldExactly(Withdraw(s, c), rest);
      assert cs == [c] + rest;
      if Distinct(cs) {
        assert c !in rest;
      }
      if Distinct(rest) && c !in rest {
        assert Distinct(cs);
      }
    }
  }

  lemma LayoutsNext(p: Progress, ls: seq<Layout>, i: nat)
    requires i < |ls|
    ensures AddLayouts(p, ls[..0]) == p && AddLayouts(p, ls[..i + 1]) == AddLayout(AddLayouts(p, ls[..i]), ls[i])
  {
    assert ls[..i + 1][..i] == ls[..i];
  }

  lemma RemovalsNext(p: Progress, ls: seq<Layout>, i: nat)
    requires i < |ls|
    ensures RemoveLayouts(p, ls[..0]) == p
      && RemoveLayouts(p, ls[..i + 1]) == RemoveLayout(RemoveLayouts(p, ls[..i]), ls[i])
  {
    assert ls[..i + 1][..i] == ls[..i];
  }

  lemma PlayNone(o: Oracle, depth: nat, s: State)
    ensures Play(o, depth, s, []) == s && Held(o, depth, s, [])
  {}

  lemma PlaySnoc(o: Oracle, depth: nat, s: State, events: seq<Event>, e: Event)
    ensures Play(o, depth, s, events + [e]) == Play1(o, depth, Play(o, depth, s, events), e)
    ensures Held(o, depth, s, events + [e]) <==>
      Held(o, depth, s, events) && HeldNext(depth, Play(o, depth, s, events), e)
  {
    assert (events + [e])[..|events|] == events;
  }
}
