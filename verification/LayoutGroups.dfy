/** Groups of layout constraints against single calls (Source/GSAutoLayoutEngine.m): what the
    solver ends with, and which values its edit constraints ask for. */
module LayoutGroups {
  import opened Options
  import opened Sequences
  import opened LayoutEngines

  // ---- what a group of additions asks for

  /** The constraints of the submit events, and of the recall events. */
  function Submissions(events: seq<Event>): seq<SolverConstraint> {
    if events == [] then []
    else Submissions(events[..|events| - 1]) + if events[|events| - 1].Submit? then [events[|events| - 1].c] else []
  }

  function Recalls(events: seq<Event>): seq<SolverConstraint> {
    if events == [] then []
    else Recalls(events[..|events| - 1]) + if events[|events| - 1].Recall? then [events[|events| - 1].c] else []
  }

  /** The variables suggested that had no edit constraint, each once. */
  function Unmet(edited: set<Measured>, events: seq<Event>): seq<Measured> {
    if events == [] then []
    else
      var before, e := Unmet(edited, events[..|events| - 1]), events[|events| - 1];
      before + if e.Resolve? && e.v !in edited && e.v !in before then [e.v] else []
  }

  function Owns(vs: seq<Measured>): seq<Posted> {
    seq(|vs|, i requires 0 <= i < |vs| => Own(vs[i]))
  }

  function Gives(cs: seq<SolverConstraint>): seq<Posted> {
    seq(|cs|, i requires 0 <= i < |cs| => Given(cs[i]))
  }

  function EditsOf(cs: seq<SolverConstraint>): set<Measured> {
    set c | c in cs && c.edits.Some? :: c.edits.value
  }

  /** Every new edit constraint is followed at once by the suggestion for its variable, and there
      are no other suggestions. */
  predicate Prepared(events: seq<Event>) {
    || events == []
    || (&& events[|events| - 1].Submit? && events[|events| - 1].c.edits.None?
        && Prepared(events[..|events| - 1]))
    || (&& |events| >= 2 && Paired(events[|events| - 2], events[|events| - 1])
        && events[|events| - 2].c !in Submissions(events[..|events| - 2])
        && Prepared(events[..|events| - 2]))
  }

  predicate Paired(a: Event, b: Event) {
    a.Submit? && b.Resolve? && a.c.edits == Some(b.v)
  }

  /** Prepared events, with constraints made since `from`. */
  predicate Grouped(from: nat, p: Progress) {
    from <= p.tables.made && Prepared(p.events) && forall c <- Submissions(p.events) :: from <= c.id < p.tables.made
  }

  lemma GroupedPlain(from: nat, p: Progress, q: Progress, c: SolverConstraint)
    requires Grouped(from, p) && q.events == p.events + [Submit(c)] && c.edits.None?
    requires from <= c.id < q.tables.made && p.tables.made <= q.tables.made
    ensures Grouped(from, q)
  {
    assert q.events[..|q.events| - 1] == p.events;
  }

  lemma PreparedPair(events: seq<Event>, c: SolverConstraint, v: Measured)
    requires Prepared(events) && c !in Submissions(events) && c.edits == Some(v)
    ensures Prepared(events + [Submit(c), Resolve(v)])
    ensures Submissions(events + [Submit(c), Resolve(v)]) == Submissions(events) + [c]
  {
    var more := events + [Submit(c), Resolve(v)];
    assert more[..|more| - 2] == events;
    PairSubmissions(more);
  }

  lemma GroupedPair(from: nat, p: Progress, q: Progress, c: SolverConstraint, v: Measured)
    requires Grouped(from, p) && q.events == p.events + [Submit(c), Resolve(v)] && c.edits == Some(v)
    requires c.id == p.tables.made < q.tables.made
    ensures Grouped(from, q)
  {
    hide Prepared;
    hide Submissions;
    PreparedPair(p.events, c, v);
  }

  lemma GroupedInternal(from: nat, p: Progress, view: View)
    requires Grouped(from, p)
    ensures Grouped(from, AddInternal(p, view, None))
  {
    GroupedPlain(from, p, AddInternal(p, view, None), SolverConstraint(p.tables.made, None));
  }

  lemma GroupedIntrinsic(from: nat, p: Progress, view: View, edge: Edge)
    requires Grouped(from, p)
    ensures Grouped(from, AddIntrinsic(p, view, edge))
  {
    hide Grouped;
    var v := Measured(view, edge);
    var q := Resolved(AddInternal(p, view, Some(v)), v);
    var c := SolverConstraint(p.tables.made, Some(v));
    assert p.events + [Submit(c)] + [Resolve(v)] == p.events + [Submit(c), Resolve(v)];
    GroupedPair(from, p, q, c, v);
    GroupedInternal(from, q, view);
    GroupedInternal(from, AddInternal(q, view, None), view);
  }

  lemma GroupedView(from: nat, p: Progress, view: View)
    requires Grouped(from, p)
    ensures Grouped(from, AddView(p, view))
  {
    hide Grouped;
    hide AddInternal;
    hide AddIntrinsic;
    if view !in p.tables.internals {
      GroupedInternal(from, p, view);
      GroupedInternal(from, AddInternal(p, view, None), view);
      var p1 := AddInternal(AddInternal(p, view, None), view, None);
      GroupedIntrinsic(from, p1, view, Width);
      GroupedIntrinsic(from, if view.intrinsicWidth then AddIntrinsic(p1, view, Width) else p1, view, Height);
    }
  }

  lemma GroupedSupport(from: nat, p: Progress, owner: SolverConstraint)
    requires Grouped(from, p)
    ensures Grouped(from, AddSupport(p, owner, None))
  {
    GroupedPlain(from, p, AddSupport(p, owner, None), SolverConstraint(p.tables.made, None));
  }

  lemma GroupedBaseline(from: nat, p: Progress, view: View, edge: Edge, owner: SolverConstraint)
    requires Grouped(from, p)
    ensures Grouped(from, AddBaseline(p, view, edge, owner))
  {
    hide Grouped;
    var v := Measured(view, edge);
    var q := Resolved(AddSupport(p, owner, Some(v)), v);
    var c := SolverConstraint(p.tables.made, Some(v));
    assert p.events + [Submit(c)] + [Resolve(v)] == p.events + [Submit(c), Resolve(v)];
    GroupedPair(from, p, q, c, v);
    GroupedSupport(from, q, owner);
  }

  lemma GroupedSupporting(from: nat, p: Progress, view: View, attribute: Attribute, owner: SolverConstraint)
    requires Grouped(from, p)
    ensures Grouped(from, AddSupporting(p, view, attribute, owner))
  {
    hide Grouped;
    hide AddSupport;
    hide AddBaseline;
    hide AddView;
    GroupedView(from, p, view);
    var q := AddView(p, view);
    GroupedBaseline(from, q, view, BaselineOffset, owner);
    GroupedBaseline(from, q, view, FirstBaselineOffset, owner);
    GroupedSupport(from, q, owner);
  }

  lemma GroupedMore(from: nat, p: Progress, q: Progress)
    requires Grouped(from, p) && q.events == p.events && p.tables.made <= q.tables.made
    ensures Grouped(from, q)
  {}

  lemma SupportingMade(p: Progress, view: View, attribute: Attribute, owner: SolverConstraint)
    ensures AddSupporting(p, view, attribute, owner).tables.made >= p.tables.made
  {}

  /** One more layout constraint, up to its own solver constraint. */
  function Supported(p: Progress, l: Layout): Progress {
    var c := SolverConstraint(p.tables.made, None);
    var p1 := p.(tables := p.tables.(made := p.tables.made + 1,
                                     byLayout := p.tables.byLayout[l := c], bySolver := p.tables.bySolver[c := l]));
    var p2 := AddSupporting(p1, l.first, l.firstAttribute, c);
    if l.second.Some? then AddSupporting(p2, l.second.value, l.secondAttribute, c) else p2
  }

  lemma AddLayoutIs(p: Progress, l: Layout)
    ensures AddLayout(p, l).events == Supported(p, l).events + [Submit(SolverConstraint(p.tables.made, None))]
    ensures AddLayout(p, l).tables.made == Supported(p, l).tables.made > p.tables.made
    ensures AddLayout(p, l).tables.supporting == Supported(p, l).tables.supporting
    ensures AddLayout(p, l).tables.internals == Supported(p, l).tables.internals
  {
    hide AddSupporting;
    var c := SolverConstraint(p.tables.made, None);
    var p1 := p.(tables := p.tables.(made := p.tables.made + 1,
                                     byLayout := p.tables.byLayout[l := c], bySolver := p.tables.bySolver[c := l]));
    SupportingMade(p1, l.first, l.firstAttribute, c);
    if l.second.Some? {
      SupportingMade(AddSupporting(p1, l.first, l.firstAttribute, c), l.second.value, l.secondAttribute, c);
    }
  }

  lemma GroupedLayout(from: nat, p: Progress, l: Layout)
    requires Grouped(from, p)
    ensures Grouped(from, AddLayout(p, l))
  {
    hide AddSupporting;
    hide AddLayout;
    hide Prepared;
    hide Submissions;
    assert from <= p.tables.made;
    hide Grouped;
    var c := SolverConstraint(p.tables.made, None);
    var p1 := p.(tables := p.tables.(made := p.tables.made + 1,
                                     byLayout := p.tables.byLayout[l := c], bySolver := p.tables.bySolver[c := l]));
    GroupedMore(from, p, p1);
    GroupedSupporting(from, p1, l.first, l.firstAttribute, c);
    var p2 := AddSupporting(p1, l.first, l.firstAttribute, c);
    if l.second.Some? {
      GroupedSupporting(from, p2, l.second.value, l.secondAttribute, c);
    }
    AddLayoutIs(p, l);
    hide Supported;
    GroupedPlain(from, Supported(p, l), AddLayout(p, l), c);
  }

  lemma {:induction false} PreparedLayouts(from: nat, p: Progress, ls: seq<Layout>)
    requires Grouped(from, p)
    ensures Grouped(from, AddLayouts(p, ls))
    decreases |ls|
  {
    hide AddLayout;
    hide Grouped;
    if ls != [] {
      PreparedLayouts(from, p, ls[..|ls| - 1]);
      GroupedLayout(from, AddLayouts(p, ls[..|ls| - 1]), ls[|ls| - 1]);
    }
  }

  lemma GroupedNone(tables: Tables)
    ensures Grouped(tables.made, Progress(tables, []))
  {}

  lemma SubmissionsLast(events: seq<Event>)
    requires events != []
    ensures Submissions(events) == Submissions(events[..|events| - 1])
      + if events[|events| - 1].Submit? then [events[|events| - 1].c] else []
  {}

  lemma PairSubmissions(events: seq<Event>)
    requires |events| >= 2 && Paired(events[|events| - 2], events[|events| - 1])
    ensures events[..|events| - 1][..|events| - 2] == events[..|events| - 2]
    ensures Submissions(events) == Submissions(events[..|events| - 2]) + [events[|events| - 2].c]
  {
    hide Submissions;
    var init := events[..|events| - 1];
    assert init[..|events| - 2] == events[..|events| - 2];
    SubmissionsLast(events);
    SubmissionsLast(init);
    assert Submissions(init) + [] == Submissions(init);
  }

  lemma PairResolves(events: seq<Event>)
    requires |events| >= 2 && Paired(events[|events| - 2], events[|events| - 1])
    ensures forall u :: Resolve(u) in events <==> Resolve(u) in events[..|events| - 2] || u == events[|events| - 1].v
    ensures forall e <- events :: e in events[..|events| - 2] || e == events[|events| - 2] || e == events[|events| - 1]
  {
    var before, a, b := events[..|events| - 2], events[|events| - 2], events[|events| - 1];
    assert events == before + [a, b];
    forall e ensures e in events <==> e in before || e == a || e == b {
      assert e in events <==> e in before || e in [a, b];
    }
  }

  lemma {:induction false} PostAllSnoc(o: Oracle, calls: seq<Call>, s: Solver, cs: seq<SolverConstraint>,
                                       c: SolverConstraint)
    ensures PostAll(o, calls, s, cs + [c]) == Post(o, calls, PostAll(o, calls, s, cs), c)
    decreases |cs|
  {
    hide Post;
    if cs == [] {
      assert [c][1..] == [] && cs + [c] == [c];
    } else {
      assert (cs + [c])[1..] == cs[1..] + [c];
      PostAllSnoc(o, calls, Post(o, calls, s, cs[0]), cs[1..], c);
    }
  }

  /** Posting enters the constraints in order and remembers the last one of each variable. */
  lemma {:induction false} PostAllIs(o: Oracle, calls: seq<Call>, s: Solver, cs: seq<SolverConstraint>)
    ensures PostAll(o, calls, s, cs)
      == Solver(s.constraints + Gives(cs), s.stands, Refreshed(o, calls, s.infos, cs))
    decreases |cs|
  {
    if cs == [] {
      assert s.constraints + Gives(cs) == s.constraints;
    } else {
      var init, c := cs[..|cs| - 1], cs[|cs| - 1];
      PostAllIs(o, calls, s, init);
      PostAllSnoc(o, calls, s, init, c);
      assert cs == init + [c];
      assert s.constraints + Gives(cs) == s.constraints + Gives(init) + [Given(c)];
    }
  }

  /** The infos once constraints have been entered. */
  function Refreshed(o: Oracle, calls: seq<Call>, infos: map<Measured, Info>, cs: seq<SolverConstraint>):
    map<Measured, Info>
  {
    if cs == [] then infos
    else
      var before, c := Refreshed(o, calls, infos, cs[..|cs| - 1]), cs[|cs| - 1];
      if c.edits.None? then before
      else before[c.edits.value := Info(Given(c), o.value(calls, c.edits.value))]
  }

  // ---- single calls

  /** What single calls ask of the solver. */
  function Singles(o: Oracle, events: seq<Event>): seq<Call> {
    if events == [] then []
    else
      var before, e := Singles(o, events[..|events| - 1]), events[|events| - 1];
      match e
      case Submit(c) => before + [Entered(Given(c)), Solved]
      case Recall(c) => before + [Taken(c), Solved]
      case Resolve(v) => before + [Suggested(v, o.size(v))]
  }

  /** Where a new edit constraint stands once its variable has been suggested the measured value:
      at that value, or as far beyond its creation value when an error variable is basic. */
  function Landing(o: Oracle, calls: seq<Call>, c: SolverConstraint): real
    requires c.edits.Some?
  {
    var v := c.edits.value;
    if o.basic(calls + [Entered(Given(c)), Solved], v) then 2.0 * o.value(calls, v) - o.size(v) else o.size(v)
  }

  function SingleStands(o: Oracle, calls: seq<Call>, stands: map<Posted, real>, events: seq<Event>): map<Posted, real> {
    if events == [] then stands
    else
      var init, e := events[..|events| - 1], events[|events| - 1];
      var before := SingleStands(o, calls, stands, init);
      if e.Submit? && e.c.edits.Some? then before[Given(e.c) := Landing(o, calls + Singles(o, init), e.c)] else before
  }

  function Remembered(o: Oracle, infos: map<Measured, Info>, events: seq<Event>): map<Measured, Info> {
    if events == [] then infos
    else
      var before, e := Remembered(o, infos, events[..|events| - 1]), events[|events| - 1];
      if e.Submit? && e.c.edits.Some? then before[e.c.edits.value := Info(Given(e.c), o.size(e.c.edits.value))]
      else before
  }

  lemma SinglePlain(o: Oracle, s: State, c: SolverConstraint)
    requires c.edits.None?
    ensures Play1(o, 0, s, Submit(c)) == State(s.solver.(constraints := s.solver.constraints + [Given(c)]), s.pending,
                                               s.calls + [Entered(Given(c)), Solved])
  {}

  lemma SinglePair(o: Oracle, s: State, c: SolverConstraint, v: Measured)
    requires c.edits == Some(v)
    ensures Play1(o, 0, Play1(o, 0, s, Submit(c)), Resolve(v))
      == State(Solver(s.solver.constraints + [Given(c)], s.solver.stands[Given(c) := Landing(o, s.calls, c)],
                      s.solver.infos[v := Info(Given(c), o.size(v))]),
               s.pending, s.calls + [Entered(Given(c)), Solved] + [Suggested(v, o.size(v))])
  {
    var now := o.value(s.calls, v);
    var t := Play1(o, 0, s, Submit(c));
    assert t.solver.stands == s.solver.stands[Given(c) := now];
    assert t.solver.infos[v] == Info(Given(c), now);
    var change := o.size(v) - now;
    assert Moved(o, t, v) == s.solver.stands[Given(c) := now][Given(c) := Landing(o, s.calls, c)];
  }

  /** Outside a group every submission is posted, and every suggestion moves the constraint just
      posted. */
  lemma {:induction false} PlaySingly(o: Oracle, s: State, events: seq<Event>)
    requires Prepared(events)
    ensures Play(o, 0, s, events)
      == State(Solver(s.solver.constraints + Gives(Submissions(events)),
                      SingleStands(o, s.calls, s.solver.stands, events), Remembered(o, s.solver.infos, events)),
               s.pending, s.calls + Singles(o, events))
    decreases |events|
  {
    hide Play1;
    hide Landing;
    if events == [] {
      assert s.solver.constraints + Gives([]) == s.solver.constraints && s.calls + [] == s.calls;
    } else if events[|events| - 1].Submit? {
      var init, c := events[..|events| - 1], events[|events| - 1].c;
      PlaySingly(o, s, init);
      SinglePlain(o, Play(o, 0, s, init), c);
      assert s.solver.constraints + Gives(Submissions(events))
        == s.solver.constraints + Gives(Submissions(init)) + [Given(c)];
      assert s.calls + Singles(o, events) == s.calls + Singles(o, init) + [Entered(Given(c)), Solved];
    } else {
      PlaySinglePair(o, s, events);
    }
  }

  lemma {:induction false} PlaySinglePair(o: Oracle, s: State, events: seq<Event>)
    requires Prepared(events) && |events| >= 2 && Paired(events[|events| - 2], events[|events| - 1])
    ensures Play(o, 0, s, events)
      == State(Solver(s.solver.constraints + Gives(Submissions(events)),
                      SingleStands(o, s.calls, s.solver.stands, events), Remembered(o, s.solver.infos, events)),
               s.pending, s.calls + Singles(o, events))
    decreases |events|, 0
  {
    hide Play1;
    hide Landing;
    var before, c, v := events[..|events| - 2], events[|events| - 2].c, events[|events| - 1].v;
    PairSubmissions(events);
    PlaySingly(o, s, before);
    SinglePair(o, Play(o, 0, s, before), c, v);
    assert s.solver.constraints + Gives(Submissions(events))
      == s.solver.constraints + Gives(Submissions(before)) + [Given(c)];
    assert s.calls + Singles(o, events)
      == s.calls + Singles(o, before) + [Entered(Given(c)), Solved] + [Suggested(v, o.size(v))];
  }

  // ---- groups

  /** What a group asks of the solver when every suggested variable has an edit constraint. */
  function Suggestions(o: Oracle, events: seq<Event>): seq<Call> {
    if events == [] then []
    else
      var before, e := Suggestions(o, events[..|events| - 1]), events[|events| - 1];
      if e.Resolve? then before + [Suggested(e.v, o.size(e.v))] else before
  }

  /** A constraint of the solver that edits the variable. */
  predicate Edits(p: Posted, v: Measured) {
    p == Own(v) || (p.Given? && p.c.edits == Some(v))
  }

  predicate Earlier(p: Posted, made: nat) {
    p.Given? ==> p.c.id < made
  }

  ghost predicate ForOlder(infos: map<Measured, Info>, made: nat) {
    forall v <- infos :: Edits(infos[v].of, v) && Earlier(infos[v].of, made)
  }

  /** Each info is for an edit constraint of its variable, and new constraints are new. */
  ghost predicate Known(s: Solver, made: nat) {
    && ForOlder(s.infos, made)
    && (forall p <- s.constraints :: Earlier(p, made)) && (forall p <- s.stands :: Earlier(p, made))
  }

  /** Whatever is asked of the solver keeps this. */
  lemma {:induction false} PlayKnows(o: Oracle, depth: nat, s: State, events: seq<Event>, made: nat)
    requires Known(s.solver, made) && forall c <- Submissions(events) :: c.id < made
    ensures Known(Play(o, depth, s, events).solver, made)
    decreases |events|
  {
    hide Known;
    hide Play1;
    if events != [] {
      var e := events[|events| - 1];
      PlayKnows(o, depth, s, events[..|events| - 1], made);
      assert e.Submit? ==> e.c in Submissions(events[..|events| - 1]) + [e.c];
      EventKnows(o, depth, Play(o, depth, s, events[..|events| - 1]), e, made);
    }
  }

  lemma EventKnows(o: Oracle, depth: nat, s: State, e: Event, made: nat)
    requires Known(s.solver, made) && (e.Submit? ==> e.c.id < made)
    ensures Known(Play1(o, depth, s, e).solver, made)
  {
    if e.Recall? {
      RemoveIs(s.solver.constraints, Given(e.c));
    }
  }

  lemma {:induction false} RefreshedKnows(o: Oracle, calls: seq<Call>, s: Solver, cs: seq<SolverConstraint>, made: nat)
    requires Known(s, made) && forall c <- cs :: c.id < made
    ensures Known(PostAll(o, calls, s, cs), made)
    decreases |cs|
  {
    if cs != [] {
      assert cs == [cs[0]] + cs[1..];
      RefreshedKnows(o, calls, Post(o, calls, s, cs[0]), cs[1..], made);
    }
  }

  lemma KnownLater(s: Solver, made: nat, later: nat)
    requires Known(s, made) && made <= later
    ensures Known(s, later)
  {}

  /** What one suggestion does.  Without an info the solver enters an edit constraint of its own,
      which is made for the present value; it ends at the measured one, or as far from the present
      one on the other side when an error variable is basic.  With an info its constraint moves by
      as much as the measured value differs from the one remembered, unless it has been taken out.
      Afterwards the measured value is remembered. */
  lemma SuggestionMoves(o: Oracle, s: State, v: Measured)
    ensures var t, now := Suggest(o, s, v).solver, o.value(s.calls, v);
            && v in t.infos && t.infos[v].previous == o.size(v)
            && t.infos == s.solver.infos[v := t.infos[v]]
            && (v !in s.solver.infos ==>
                 && t.constraints == s.solver.constraints + [Own(v)] && t.infos[v].of == Own(v)
                 && Own(v) in t.stands
                 && t.stands[Own(v)] ==
                      (if o.basic(s.calls + [Entered(Own(v)), Solved], v) then 2.0 * now - o.size(v) else o.size(v))
                 && (forall p <- s.solver.stands :: p != Own(v) ==> p in t.stands && t.stands[p] == s.solver.stands[p]))
            && (v in s.solver.infos ==>
                 var info := s.solver.infos[v];
                 && t.constraints == s.solver.constraints && t.infos[v].of == info.of
                 && t.stands.Keys == s.solver.stands.Keys
                 && (forall p <- t.stands :: p != info.of ==> t.stands[p] == s.solver.stands[p])
                 && (info.of in t.stands ==>
                      t.stands[info.of] - s.solver.stands[info.of] ==
                        (if o.basic(s.calls, v) then info.previous - o.size(v) else o.size(v) - info.previous)))
  {}

  /** Inside a group the submissions wait, and each suggestion for a variable without an edit
      constraint makes the solver add one of its own. */
  lemma {:induction false} PlayGrouped(o: Oracle, depth: nat, s: State, events: seq<Event>)
    requires Prepared(events) && depth > 0
    ensures var met, t := Unmet(s.solver.infos.Keys, events), Play(o, depth, s, events);
            && t.solver.constraints == s.solver.constraints + Owns(met)
            && t.solver.infos.Keys == s.solver.infos.Keys + (set v | v in met)
            && t.pending == s.pending + Submissions(events)
    decreases |events|
  {
    if events == [] {
      assert s.solver.constraints + Owns([]) == s.solver.constraints && s.pending + [] == s.pending;
      assert s.solver.infos.Keys + (set v | v in []) == s.solver.infos.Keys;
    } else if events[|events| - 1].Submit? {
      var init, c := events[..|events| - 1], events[|events| - 1].c;
      PlayGrouped(o, depth, s, init);
      assert s.pending + Submissions(events) == s.pending + Submissions(init) + [c];
    } else {
      PlayGroupedPair(o, depth, s, events);
    }
  }

  lemma {:induction false} PlayGroupedPair(o: Oracle, depth: nat, s: State, events: seq<Event>)
    requires Prepared(events) && depth > 0 && |events| >= 2 && Paired(events[|events| - 2], events[|events| - 1])
    ensures var met, t := Unmet(s.solver.infos.Keys, events), Play(o, depth, s, events);
            && t.solver.constraints == s.solver.constraints + Owns(met)
            && t.solver.infos.Keys == s.solver.infos.Keys + (set v | v in met)
            && t.pending == s.pending + Submissions(events)
    decreases |events|, 0
  {
    hide Moved;
    hide Unmet;
    var before, c, v := events[..|events| - 2], events[|events| - 2].c, events[|events| - 1].v;
    PairSubmissions(events);
    PlayGrouped(o, depth, s, before);
    var edited := s.solver.infos.Keys;
    var met, more := Unmet(edited, before), Unmet(edited, events);
    UnmetPair(edited, events);
    assert s.pending + Submissions(events) == s.pending + Submissions(before) + [c];
    var t := Play(o, depth, s, events[..|events| - 1]);
    assert t.solver.infos == Play(o, depth, s, before).solver.infos;
    if v !in edited && v !in met {
      assert v !in t.solver.infos;
      assert s.solver.constraints + Owns(more) == s.solver.constraints + Owns(met) + [Own(v)];
      assert (set u | u in more) == (set u | u in met) + {v};
    } else {
      assert v in t.solver.infos;
    }
  }

  lemma UnmetPair(edited: set<Measured>, events: seq<Event>)
    requires |events| >= 2 && Paired(events[|events| - 2], events[|events| - 1])
    ensures var before, v := Unmet(edited, events[..|events| - 2]), events[|events| - 1].v;
            Unmet(edited, events) == before + if v !in edited && v !in before then [v] else []
  {
    assert events[..|events| - 1][..|events| - 2] == events[..|events| - 2];
    assert Unmet(edited, events[..|events| - 1]) == Unmet(edited, events[..|events| - 2]) + [];
  }

  lemma {:induction false} UnmetIs(edited: set<Measured>, events: seq<Event>)
    ensures forall v :: v in Unmet(edited, events) <==> Resolve(v) in events && v !in edited
    decreases |events|
  {
    if events != [] {
      UnmetIs(edited, events[..|events| - 1]);
      assert events == events[..|events| - 1] + [events[|events| - 1]];
    }
  }

  /** A resolved variable has a new edit constraint, and a new edit constraint is resolved. */
  lemma {:induction false} ResolvedIsSubmitted(events: seq<Event>)
    requires Prepared(events)
    ensures forall v :: Resolve(v) in events <==> v in EditsOf(Submissions(events))
    decreases |events|
  {
    if events == [] {
    } else if events[|events| - 1].Submit? {
      var init, e := events[..|events| - 1], events[|events| - 1];
      ResolvedIsSubmitted(init);
      assert events == init + [e];
      EditsSnoc(Submissions(init), e.c);
    } else {
      PairSubmissions(events);
      PairResolves(events);
      ResolvedIsSubmitted(events[..|events| - 2]);
      EditsSnoc(Submissions(events[..|events| - 2]), events[|events| - 2].c);
    }
  }

  lemma EditsSnoc(cs: seq<SolverConstraint>, c: SolverConstraint)
    ensures EditsOf(cs + [c]) == EditsOf(cs) + if c.edits.Some? then {c.edits.value} else {}
  {
    assert forall d :: d in cs + [c] <==> d in cs || d == c;
  }

  /** What a group does to the edit constraint the solver last had for a variable: it moves once
      the variable is suggested a value other than the last one, unless it has been taken out. */
  lemma {:induction false} OldConstraint(o: Oracle, depth: nat, s: State, events: seq<Event>, made: nat, v: Measured)
    requires depth > 0 && Known(s.solver, made) && v in s.solver.infos
    requires forall c <- Submissions(events) :: c.id >= made
    ensures var t, info := Play(o, depth, s, events).solver, s.solver.infos[v];
            && v in t.infos && t.infos[v].of == info.of
            && t.infos[v].previous == (if Resolve(v) in events then o.size(v) else info.previous)
            && (info.of in s.solver.stands <==> info.of in t.stands)
            && (info.of in t.stands ==>
                 (t.stands[info.of] == s.solver.stands[info.of]
                  <==> Resolve(v) !in events || info.previous == o.size(v)))
    decreases |events|
  {
    if events != [] {
      var init, e := events[..|events| - 1], events[|events| - 1];
      assert events == init + [e];
      assert Submissions(events) == Submissions(init) + if e.Submit? then [e.c] else [];
      OldConstraint(o, depth, s, init, made, v);
      var t := Play(o, depth, s, init);
      hide Play;
      if e.Submit? {
        assert e.c in Submissions(events);
      } else if e.Resolve? && e.v != v {
        InfosEdit(o, depth, s, init, made);
        OtherMoved(o, t, e.v, v, made);
      }
    }
  }
  /** The infos of a group are for older constraints and for those the solver makes itself. */
  lemma {:induction false} InfosEdit(o: Oracle, depth: nat, s: State, events: seq<Event>, made: nat)
    requires depth > 0 && ForOlder(s.solver.infos, made)
    ensures ForOlder(Play(o, depth, s, events).solver.infos, made)
    decreases |events|
  {
    if events != [] {
      InfosEdit(o, depth, s, events[..|events| - 1], made);
      hide Play;
      hide ForOlder;
      EventEdits(o, depth, Play(o, depth, s, events[..|events| - 1]), events[|events| - 1], made);
      PlayLast(o, depth, s, events);
    }
  }

  lemma PlayLast(o: Oracle, depth: nat, s: State, events: seq<Event>)
    requires events != []
    ensures Play(o, depth, s, events)
      == Play1(o, depth, Play(o, depth, s, events[..|events| - 1]), events[|events| - 1])
  {}

  lemma EventEdits(o: Oracle, depth: nat, s: State, e: Event, made: nat)
    requires depth > 0 && ForOlder(s.solver.infos, made)
    ensures ForOlder(Play1(o, depth, s, e).solver.infos, made)
  {}

  /** A suggestion for one variable leaves what is kept for another alone. */
  lemma OtherMoved(o: Oracle, s: State, u: Measured, v: Measured, made: nat)
    requires u != v && v in s.solver.infos && ForOlder(s.solver.infos, made)
    ensures var t, of := Suggest(o, s, u).solver, s.solver.infos[v].of;
            && v in t.infos && t.infos[v] == s.solver.infos[v] && (of in t.stands <==> of in s.solver.stands)
            && (of in t.stands ==> t.stands[of] == s.solver.stands[of])
  {}

  /** The edit constraint of the variable, if it has not been taken out, stands as suggested last
      at what the view measures. */
  predicate AtRest(o: Oracle, s: Solver, v: Measured) {
    v in s.infos && (s.infos[v].of in s.stands ==> s.infos[v].previous == o.size(v))
  }

  /** The new edit constraints of a group with the values of their creation. */
  function CreatedStands(o: Oracle, calls: seq<Call>, stands: map<Posted, real>, events: seq<Event>):
    map<Posted, real>
  {
    if events == [] then stands
    else
      var init, e := events[..|events| - 1], events[|events| - 1];
      var before := CreatedStands(o, calls, stands, init);
      if e.Submit? && e.c.edits.Some? then
        before[Given(e.c) := o.value(calls + Suggestions(o, init), e.c.edits.value)]
      else before
  }

  /** The infos after suggestions for variables that have one. */
  function Retold(o: Oracle, infos: map<Measured, Info>, events: seq<Event>): map<Measured, Info> {
    map v | v in infos :: if Resolve(v) in events then Info(infos[v].of, o.size(v)) else infos[v]
  }

  lemma {:induction false} CreatedKeys(o: Oracle, calls: seq<Call>, stands: map<Posted, real>, events: seq<Event>)
    ensures forall p :: p in CreatedStands(o, calls, stands, events) <==>
              p in stands || (p.Given? && p.c.edits.Some? && p.c in Submissions(events))
    ensures forall p <- stands :: (p.Given? ==> p.c !in Submissions(events)) ==>
              CreatedStands(o, calls, stands, events)[p] == stands[p]
    decreases |events|
  {
    if events != [] {
      var init, e := events[..|events| - 1], events[|events| - 1];
      CreatedKeys(o, calls, stands, init);
      assert Submissions(events) == Submissions(init) + if e.Submit? then [e.c] else [];
    }
  }

  lemma {:induction false} SingleKeys(o: Oracle, calls: seq<Call>, stands: map<Posted, real>, events: seq<Event>)
    ensures forall p :: p in SingleStands(o, calls, stands, events) <==>
              p in stands || (p.Given? && p.c.edits.Some? && p.c in Submissions(events))
    ensures forall p <- stands :: (p.Given? ==> p.c !in Submissions(events)) ==>
              SingleStands(o, calls, stands, events)[p] == stands[p]
    decreases |events|
  {
    hide Landing;
    if events != [] {
      var init, e := events[..|events| - 1], events[|events| - 1];
      SingleKeys(o, calls, stands, init);
      assert Submissions(events) == Submissions(init) + if e.Submit? then [e.c] else [];
    }
  }

  /** When the edit constraints there are stand at rest, the suggestions of a group move nothing,
      and the new edit constraints keep the values of their creation. */
  lemma {:induction false} PlayResting(o: Oracle, depth: nat, s: State, events: seq<Event>, made: nat)
    requires depth > 0 && Known(s.solver, made) && (forall e <- events :: !e.Recall?)
    requires (forall c <- Submissions(events) :: c.id >= made) && forall v :: Resolve(v) in events ==>
      AtRest(o, s.solver, v)
    ensures Play(o, depth, s, events)
      == State(Solver(s.solver.constraints, CreatedStands(o, s.calls, s.solver.stands, events),
                      Retold(o, s.solver.infos, events)),
               s.pending + Submissions(events), s.calls + Suggestions(o, events))
    decreases |events|
  {
    if events == [] {
      assert s.pending + [] == s.pending && s.calls + [] == s.calls;
      assert Retold(o, s.solver.infos, []) == s.solver.infos;
    } else {
      var init, e := events[..|events| - 1], events[|events| - 1];
      assert events == init + [e];
      assert Submissions(events) == Submissions(init) + if e.Submit? then [e.c] else [];
      assert e in events;
      PlayResting(o, depth, s, init, made);
      PlayLast(o, depth, s, events);
      if e.Submit? {
        assert Retold(o, s.solver.infos, events) == Retold(o, s.solver.infos, init);
        assert s.pending + Submissions(events) == s.pending + Submissions(init) + [e.c];
      } else {
        RestingSuggestion(o, s, init, e.v, made);
      }
    }
  }

  lemma RestingSuggestion(o: Oracle, s: State, events: seq<Event>, v: Measured, made: nat)
    requires Known(s.solver, made) && (forall c <- Submissions(events) :: c.id >= made) && AtRest(o, s.solver, v)
    ensures Suggest(o, State(Solver(s.solver.constraints, CreatedStands(o, s.calls, s.solver.stands, events),
                                    Retold(o, s.solver.infos, events)),
                             s.pending + Submissions(events), s.calls + Suggestions(o, events)), v)
      == State(Solver(s.solver.constraints, CreatedStands(o, s.calls, s.solver.stands, events),
                      Retold(o, s.solver.infos, events + [Resolve(v)])),
               s.pending + Submissions(events), s.calls + (Suggestions(o, events) + [Suggested(v, o.size(v))]))
  {
    var stands, infos := CreatedStands(o, s.calls, s.solver.stands, events), Retold(o, s.solver.infos, events);
    var of := s.solver.infos[v].of;
    CreatedKeys(o, s.calls, s.solver.stands, events);
    assert Earlier(of, made);
    assert infos[v].of == of && (of in stands <==> of in s.solver.stands);
    RetoldMore(o, s.solver.infos, events, v);
    hide CreatedStands;
    hide Submissions;
    hide Retold;
    hide Suggestions;
    var t := State(Solver(s.solver.constraints, stands, infos), s.pending + Submissions(events),
                   s.calls + Suggestions(o, events));
    SuggestAtRest(o, t, v);
    assert s.calls + Suggestions(o, events) + [Suggested(v, o.size(v))]
      == s.calls + (Suggestions(o, events) + [Suggested(v, o.size(v))]);
  }

  /** A suggestion of the value suggested last, or to a constraint that is gone, moves nothing. */
  lemma SuggestAtRest(o: Oracle, s: State, v: Measured)
    requires AtRest(o, s.solver, v)
    ensures Suggest(o, s, v)
      == State(s.solver.(infos := s.solver.infos[v := Info(s.solver.infos[v].of, o.size(v))]), s.pending,
               s.calls + [Suggested(v, o.size(v))])
  {
    var of, stands := s.solver.infos[v].of, s.solver.stands;
    if of in stands {
      assert stands[of := stands[of]] == stands;
    }
  }

  lemma RetoldMore(o: Oracle, infos: map<Measured, Info>, events: seq<Event>, v: Measured)
    requires v in infos
    ensures Retold(o, infos, events + [Resolve(v)]) == Retold(o, infos, events)[v := Info(infos[v].of, o.size(v))]
    ensures infos[v].previous == o.size(v) ==> Retold(o, infos, events)[v].previous == o.size(v)
  {}

  // ---- the two against each other

  /** Each new edit constraint is created in the group with the value where the single call leaves
      it. */
  predicate Level(o: Oracle, calls: seq<Call>, events: seq<Event>) {
    if events == [] then true
    else
      var init, e := events[..|events| - 1], events[|events| - 1];
      && Level(o, calls, init)
      && (e.Submit? && e.c.edits.Some? ==>
           o.value(calls + Suggestions(o, init), e.c.edits.value) == Landing(o, calls + Singles(o, init), e.c))
  }

  lemma {:induction false} LevelExactly(o: Oracle, calls: seq<Call>, stands: map<Posted, real>, events: seq<Event>)
    requires Prepared(events) && forall c <- Submissions(events) :: Given(c) !in stands
    ensures CreatedStands(o, calls, stands, events) == SingleStands(o, calls, stands, events)
      <==> Level(o, calls, events)
    decreases |events|
  {
    hide Landing;
    if events == [] {
    } else if events[|events| - 1].Submit? {
      var init := events[..|events| - 1];
      LevelExactly(o, calls, stands, init);
    } else {
      var before, a := events[..|events| - 2], events[|events| - 2];
      PairSubmissions(events);
      LevelExactly(o, calls, stands, before);
      CreatedKeys(o, calls, stands, before);
      SingleKeys(o, calls, stands, before);
      assert a.c in Submissions(before) + [a.c];
      var x, y := CreatedStands(o, calls, stands, before), SingleStands(o, calls, stands, before);
      AddedAlike(x, y, Given(a.c), o.value(calls + Suggestions(o, before), a.c.edits.value),
                 Landing(o, calls + Singles(o, before), a.c));
      assert events[..|events| - 1][..|events| - 2] == before;
    }
  }

  lemma AddedAlike(x: map<Posted, real>, y: map<Posted, real>, p: Posted, a: real, b: real)
    requires p !in x && p !in y
    ensures x[p := a] == y[p := b] <==> x == y && a == b
  {
    if x[p := a] == y[p := b] {
      assert x[p := a][p] == y[p := b][p];
      forall q ensures (q in x <==> q in y) && (q in x ==> x[q] == y[q]) {
        assert q in x[p := a] <==> q in y[p := b];
        assert q in x[p := a] ==> x[p := a][q] == y[p := b][q];
      }
    }
  }

  /** After the group the infos are those for the new edit constraints, with the values reported
      when the group is handed over; after single calls with the values suggested. */
  ghost predicate InfosFor(o: Oracle, calls: seq<Call>, base: map<Measured, Info>, infos: map<Measured, Info>,
                           events: seq<Event>)
  {
    var group, single := Refreshed(o, calls, base, Submissions(events)), Remembered(o, infos, events);
    forall v ::
      if Resolve(v) in events then
        v in group && v in single && group[v].of == single[v].of && group[v].previous == o.value(calls, v)
          && single[v].previous == o.size(v) && single[v].of.Given? && single[v].of.c in Submissions(events)
      else
        (v in group <==> v in base) && (v in single <==> v in infos)
          && (v in base ==> group[v] == base[v]) && (v in infos ==> single[v] == infos[v])
  }

  lemma {:induction false} InfosAre(o: Oracle, calls: seq<Call>, base: map<Measured, Info>, infos: map<Measured, Info>,
                                    events: seq<Event>)
    requires Prepared(events)
    ensures InfosFor(o, calls, base, infos, events)
    decreases |events|
  {
    if events == [] {
    } else if events[|events| - 1].Submit? {
      var init, e := events[..|events| - 1], events[|events| - 1];
      assert events == init + [e];
      InfosAre(o, calls, base, infos, init);
      assert (Submissions(init) + [e.c])[..|Submissions(init)|] == Submissions(init);
    } else {
      InfosPair(o, calls, base, infos, events);
    }
  }

  lemma {:induction false} InfosPair(o: Oracle, calls: seq<Call>, base: map<Measured, Info>, infos: map<Measured, Info>,
                                     events: seq<Event>)
    requires Prepared(events) && |events| >= 2 && Paired(events[|events| - 2], events[|events| - 1])
    ensures InfosFor(o, calls, base, infos, events)
    decreases |events|, 0
  {
    hide Prepared;
    hide Refreshed;
    hide Remembered;
    hide Submissions;
    var before, c, v := events[..|events| - 2], events[|events| - 2].c, events[|events| - 1].v;
    PairSubmissions(events);
    PairResolves(events);
    PreparedBefore(events);
    InfosAre(o, calls, base, infos, before);
    RefreshedSnoc(o, calls, base, Submissions(before), c);
    RememberedPair(o, infos, events);
  }

  lemma PreparedBefore(events: seq<Event>)
    requires Prepared(events) && |events| >= 2 && Paired(events[|events| - 2], events[|events| - 1])
    ensures Prepared(events[..|events| - 2])
  {}

  lemma RefreshedSnoc(o: Oracle, calls: seq<Call>, infos: map<Measured, Info>, cs: seq<SolverConstraint>,
                      c: SolverConstraint)
    requires c.edits.Some?
    ensures Refreshed(o, calls, infos, cs + [c])
      == Refreshed(o, calls, infos, cs)[c.edits.value := Info(Given(c), o.value(calls, c.edits.value))]
  {
    assert (cs + [c])[..|cs|] == cs;
  }

  lemma RememberedPair(o: Oracle, infos: map<Measured, Info>, events: seq<Event>)
    requires |events| >= 2 && Paired(events[|events| - 2], events[|events| - 1])
    ensures var before, c, v := events[..|events| - 2], events[|events| - 2].c, events[|events| - 1].v;
            Remembered(o, infos, events) == Remembered(o, infos, before)[v := Info(Given(c), o.size(v))]
  {
    assert events[..|events| - 1][..|events| - 2] == events[..|events| - 2];
  }

  /** What makes a group and the single calls come to the same. */
  predicate Alike(o: Oracle, s: Solver, calls: seq<Call>, events: seq<Event>) {
    && (forall v <- EditsOf(Submissions(events)) ::
         AtRest(o, s, v) && o.value(calls + Suggestions(o, events), v) == o.size(v))
    && Level(o, calls, events)
  }

  lemma FlushedIs(o: Oracle, s: State)
    ensures Flushed(o, s).solver == Solver(s.solver.constraints + Gives(s.pending), s.solver.stands,
                                           Refreshed(o, s.calls, s.solver.infos, s.pending))
  {
    PostAllIs(o, s.calls, s.solver, s.pending);
  }

  lemma {:induction false} NoRecalls(events: seq<Event>)
    requires Prepared(events)
    ensures forall e <- events :: !e.Recall?
    decreases |events|
  {
    if events == [] {
    } else if events[|events| - 1].Submit? {
      NoRecalls(events[..|events| - 1]);
      assert events == events[..|events| - 1] + [events[|events| - 1]];
    } else {
      PairSubmissions(events);
      PairResolves(events);
      NoRecalls(events[..|events| - 2]);
    }
  }

  /** Which constraints the two ways of calling enter, and for which variables. */
  lemma SameConstraints(o: Oracle, depth: nat, s: State, events: seq<Event>)
    requires depth > 0 && Prepared(events) && s.pending == []
    ensures var flushed, single := Flushed(o, Play(o, depth, s, events)).solver, Play(o, 0, s, events);
            var met, posted := Unmet(s.solver.infos.Keys, events), Gives(Submissions(events));
            && single.pending == [] && single.solver.constraints == s.solver.constraints + posted
            && flushed.constraints == s.solver.constraints + Owns(met) + posted
            && flushed.infos.Keys == single.solver.infos.Keys
            && (flushed.constraints == single.solver.constraints
                <==> forall v <- EditsOf(Submissions(events)) :: v in s.solver.infos)
  {
    hide Play;
    hide Flushed;
    hide Prepared;
    hide Refreshed;
    hide Remembered;
    hide SingleStands;
    hide Submissions;
    hide EditsOf;
    hide Unmet;
    var grouped, posted := Play(o, depth, s, events), Submissions(events);
    PlaySingly(o, s, events);
    PlayGrouped(o, depth, s, events);
    assert [] + posted == posted;
    FlushedIs(o, grouped);
    InfosAre(o, grouped.calls, grouped.solver.infos, s.solver.infos, events);
    ResolvedIsSubmitted(events);
    var met := Unmet(s.solver.infos.Keys, events);
    UnmetIs(s.solver.infos.Keys, events);
    if met == [] {
      assert s.solver.constraints + Owns(met) == s.solver.constraints;
    } else {
      assert |s.solver.constraints + Owns(met) + Gives(posted)| == |s.solver.constraints| + |met| + |posted|;
      assert met[0] in met;
    }
  }

  lemma UnlessAtRest(o: Oracle, depth: nat, s: State, events: seq<Event>, made: nat, v: Measured)
    requires depth > 0 && Prepared(events) && s.pending == [] && Known(s.solver, made)
    requires (forall c <- Submissions(events) :: c.id >= made) && v in EditsOf(Submissions(events))
    requires !AtRest(o, s.solver, v)
    ensures Flushed(o, Play(o, depth, s, events)).solver != Play(o, 0, s, events).solver
  {
    SameConstraints(o, depth, s, events);
    ResolvedIsSubmitted(events);
    PlaySingly(o, s, events);
    FlushedIs(o, Play(o, depth, s, events));
    hide Play;
    hide Flushed;
    hide Submissions;
    if v in s.solver.infos {
      OldConstraint(o, depth, s, events, made, v);
      SingleKeys(o, s.calls, s.solver.stands, events);
    }
  }

  /** Where every edit constraint there is stands at rest. */
  lemma WhenAtRest(o: Oracle, depth: nat, s: State, events: seq<Event>, made: nat)
    requires depth > 0 && Prepared(events) && s.pending == [] && Known(s.solver, made)
    requires forall c <- Submissions(events) :: c.id >= made
    requires forall v <- EditsOf(Submissions(events)) :: AtRest(o, s.solver, v)
    ensures Flushed(o, Play(o, depth, s, events)).solver == Play(o, 0, s, events).solver
      <==> Alike(o, s.solver, s.calls, events)
  {
    hide Play;
    hide Flushed;
    hide Prepared;
    hide Refreshed;
    hide Remembered;
    hide SingleStands;
    hide CreatedStands;
    hide Submissions;
    hide Level;
    var grouped, posted := Play(o, depth, s, events), Submissions(events);
    ResolvedIsSubmitted(events);
    NoRecalls(events);
    SameConstraints(o, depth, s, events);
    PlaySingly(o, s, events);
    PlayResting(o, depth, s, events, made);
    assert [] + posted == posted;
    FlushedIs(o, grouped);
    LevelExactly(o, s.calls, s.solver.stands, events);
    hide EditsOf;
    InfosAlike(o, grouped.calls, s.solver.infos, events);
  }

  lemma InfosAlike(o: Oracle, calls: seq<Call>, infos: map<Measured, Info>, events: seq<Event>)
    requires Prepared(events) && forall v <- EditsOf(Submissions(events)) :: v in infos
    ensures Refreshed(o, calls, Retold(o, infos, events), Submissions(events)) == Remembered(o, infos, events)
      <==> forall v <- EditsOf(Submissions(events)) :: o.value(calls, v) == o.size(v)
  {
    hide Prepared;
    hide Refreshed;
    hide Remembered;
    hide Submissions;
    ResolvedIsSubmitted(events);
    hide EditsOf;
    InfosAre(o, calls, Retold(o, infos, events), infos, events);
    var group, single := Refreshed(o, calls, Retold(o, infos, events), Submissions(events)),
      Remembered(o, infos, events);
    if forall v <- EditsOf(Submissions(events)) :: o.value(calls, v) == o.size(v) {
      forall v ensures (v in group <==> v in single) && (v in group ==> group[v] == single[v]) {
        if Resolve(v) in events {
          assert v in EditsOf(Submissions(events));
          assert group[v] == Info(group[v].of, group[v].previous);
        }
      }
    } else {
      var v :| v in EditsOf(Submissions(events)) && o.value(calls, v) != o.size(v);
      assert Resolve(v) in events;
    }
  }

  /** A group of additions against single calls.  The group posts what the single calls post,
      in the same order and once each; before that the solver has added an edit constraint of
      its own for every variable the group suggested and that had none.  The solvers are equal
      exactly when no such variable comes up, every older edit constraint of a suggested variable
      is out of the solver or has the suggested value, and the variable reports values in the
      group that leave the new constraints and infos where the single calls bring them. */
  lemma GroupAgainstSingle(o: Oracle, depth: nat, solver: Solver, calls: seq<Call>, tables: Tables, ls: seq<Layout>)
    requires depth > 0 && Known(solver, tables.made)
    ensures var p, s := AddLayouts(Progress(tables, []), ls), State(solver, [], calls);
            var flushed, single := Flushed(o, Play(o, depth, s, p.events)).solver, Play(o, 0, s, p.events);
            var met, posted := Unmet(solver.infos.Keys, p.events), Gives(Submissions(p.events));
            && single.pending == [] && single.solver.constraints == solver.constraints + posted
            && flushed.constraints == solver.constraints + Owns(met) + posted
            && flushed.infos.Keys == single.solver.infos.Keys
            && (flushed.constraints == single.solver.constraints
                <==> forall v <- EditsOf(Submissions(p.events)) :: v in solver.infos)
            && (flushed == single.solver <==> Alike(o, solver, calls, p.events))
            && Known(flushed, p.tables.made) && Known(single.solver, p.tables.made)
  {
    hide AddLayouts;
    hide Play;
    hide Flushed;
    hide Known;
    var p, s := AddLayouts(Progress(tables, []), ls), State(solver, [], calls);
    GroupedNone(tables);
    PreparedLayouts(tables.made, Progress(tables, []), ls);
    AgreeExactly(o, depth, s, p.events, tables.made);
    KnownLater(solver, tables.made, p.tables.made);
    PlayKnows(o, 0, s, p.events, p.tables.made);
    PlayKnows(o, depth, s, p.events, p.tables.made);
    var grouped := Play(o, depth, s, p.events);
    PlayGrouped(o, depth, s, p.events);
    assert grouped.pending == [] + Submissions(p.events);
    FlushedKnows(o, grouped, p.tables.made);
  }

  lemma FlushedKnows(o: Oracle, s: State, made: nat)
    requires Known(s.solver, made) && forall c <- s.pending :: c.id < made
    ensures Known(Flushed(o, s).solver, made)
  {
    RefreshedKnows(o, s.calls, s.solver, s.pending, made);
  }

  lemma AgreeExactly(o: Oracle, depth: nat, s: State, events: seq<Event>, made: nat)
    requires depth > 0 && Prepared(events) && s.pending == [] && Known(s.solver, made)
    requires forall c <- Submissions(events) :: c.id >= made
    ensures var flushed, single := Flushed(o, Play(o, depth, s, events)).solver, Play(o, 0, s, events);
            var met, posted := Unmet(s.solver.infos.Keys, events), Gives(Submissions(events));
            && single.pending == [] && single.solver.constraints == s.solver.constraints + posted
            && flushed.constraints == s.solver.constraints + Owns(met) + posted
            && flushed.infos.Keys == single.solver.infos.Keys
            && (flushed.constraints == single.solver.constraints
                <==> forall v <- EditsOf(Submissions(events)) :: v in s.solver.infos)
            && (flushed == single.solver <==> Alike(o, s.solver, s.calls, events))
  {
    hide Play;
    hide Flushed;
    hide Prepared;
    hide Submissions;
    hide EditsOf;
    hide AtRest;
    hide Level;
    SameConstraints(o, depth, s, events);
    if v :| v in EditsOf(Submissions(events)) && !AtRest(o, s.solver, v) {
      UnlessAtRest(o, depth, s, events, made, v);
    } else {
      WhenAtRest(o, depth, s, events, made);
    }
  }

  /** As long as the variables report the same values throughout, the two agree exactly when every
      suggested variable has an edit constraint, which stands at rest or has been taken out, and
      already has the measured value. */
  lemma SteadyGroup(o: Oracle, s: Solver, calls: seq<Call>, events: seq<Event>)
    requires forall v, more :: o.value(calls + more, v) == o.value(calls, v)
    ensures Alike(o, s, calls, events)
      <==> forall v <- EditsOf(Submissions(events)) :: AtRest(o, s, v) && o.value(calls, v) == o.size(v)
  {
    if forall v <- EditsOf(Submissions(events)) :: AtRest(o, s, v) && o.value(calls, v) == o.size(v) {
      SteadyLevel(o, calls, events);
    }
  }

  lemma {:induction false} SteadyLevel(o: Oracle, calls: seq<Call>, events: seq<Event>)
    requires forall v, more :: o.value(calls + more, v) == o.value(calls, v)
    requires forall v <- EditsOf(Submissions(events)) :: o.value(calls, v) == o.size(v)
    ensures Level(o, calls, events)
    decreases |events|
  {
    if events != [] {
      var init, e := events[..|events| - 1], events[|events| - 1];
      assert Submissions(events) == Submissions(init) + if e.Submit? then [e.c] else [];
      if e.Submit? {
        EditsSnoc(Submissions(init), e.c);
        assert calls + Singles(o, init) + [Entered(Given(e.c)), Solved]
          == calls + (Singles(o, init) + [Entered(Given(e.c)), Solved]);
      }
      SteadyLevel(o, calls, init);
    }
  }

  // ---- where they differ

  lemma {:induction false} SubmittedIs(events: seq<Event>, i: nat)
    requires i < |events| && events[i].Submit?
    ensures events[i].c in Submissions(events)
    decreases |events|
  {
    if i < |events| - 1 {
      SubmittedIs(events[..|events| - 1], i);
    }
  }

  /** Each new edit constraint by itself. */
  lemma {:induction false} NewOneStands(o: Oracle, calls: seq<Call>, stands: map<Posted, real>, events: seq<Event>,
                                        i: nat)
    requires Prepared(events) && i < |events| && events[i].Submit? && events[i].c.edits.Some?
    ensures var c, group, single :=
              events[i].c, CreatedStands(o, calls, stands, events), SingleStands(o, calls, stands, events);
            && Given(c) in group
            && group[Given(c)] == o.value(calls + Suggestions(o, events[..i]), c.edits.value)
            && Given(c) in single && single[Given(c)] == Landing(o, calls + Singles(o, events[..i]), c)
    decreases |events|
  {
    hide Landing;
    if events[|events| - 1].Submit? {
      var init := events[..|events| - 1];
      NewOneStands(o, calls, stands, init, i);
      assert init[..i] == events[..i];
    } else {
      var before := events[..|events| - 2];
      assert events[..|events| - 1][..|events| - 2] == before;
      if i < |events| - 2 {
        NewOneStands(o, calls, stands, before, i);
        assert before[..i] == events[..i];
        SubmittedIs(before, i);
      }
    }
  }

  /** Where a new edit constraint ends up when the older ones stand at rest: in a group at the
      value its variable had when it was created, in single calls where it lands. */
  lemma NewOnesStand(o: Oracle, depth: nat, s: State, events: seq<Event>, made: nat, i: nat)
    requires depth > 0 && Prepared(events) && s.pending == [] && Known(s.solver, made)
    requires forall c <- Submissions(events) :: c.id >= made
    requires forall v <- EditsOf(Submissions(events)) :: AtRest(o, s.solver, v)
    requires i < |events| && events[i].Submit? && events[i].c.edits.Some?
    ensures var flushed, single := Flushed(o, Play(o, depth, s, events)).solver, Play(o, 0, s, events).solver;
            var c := events[i].c;
            && Given(c) in flushed.stands
            && flushed.stands[Given(c)] == o.value(s.calls + Suggestions(o, events[..i]), c.edits.value)
            && Given(c) in single.stands
            && single.stands[Given(c)] == Landing(o, s.calls + Singles(o, events[..i]), c)
  {
    ResolvedIsSubmitted(events);
    hide Play;
    hide Flushed;
    hide Submissions;
    hide EditsOf;
    hide CreatedStands;
    hide SingleStands;
    hide Landing;
    NoRecalls(events);
    PlaySingly(o, s, events);
    PlayResting(o, depth, s, events, made);
    FlushedIs(o, Play(o, depth, s, events));
    NewOneStands(o, s.calls, s.solver.stands, events, i);
  }

  lemma GivesAre(cs: seq<SolverConstraint>)
    ensures forall x :: x in Gives(cs) <==> x.Given? && x.c in cs
  {
    forall i | 0 <= i < |cs| ensures Gives(cs)[i] == Given(cs[i]) && Gives(cs)[i] in Gives(cs) {
    }
  }

  /** A variable whose edit constraint is in the solver with another value than the measured one:
      the group's suggestion moves that constraint, single calls leave it alone. */
  lemma OlderOneMoves(o: Oracle, depth: nat, solver: Solver, calls: seq<Call>, tables: Tables, ls: seq<Layout>,
                      v: Measured)
    requires depth > 0 && Known(solver, tables.made)
    requires v in EditsOf(Submissions(AddLayouts(Progress(tables, []), ls).events)) && v in solver.infos
    requires solver.infos[v].of in solver.stands && solver.infos[v].previous != o.size(v)
    ensures var p, s := AddLayouts(Progress(tables, []), ls), State(solver, [], calls);
            var flushed, single := Flushed(o, Play(o, depth, s, p.events)).solver, Play(o, 0, s, p.events).solver;
            var older := solver.infos[v].of;
            && older in single.stands && single.stands[older] == solver.stands[older]
            && older in flushed.stands && flushed.stands[older] != solver.stands[older]
  {
    hide AddLayouts;
    hide Play;
    hide Flushed;
    hide Submissions;
    hide SingleStands;
    hide Remembered;
    hide Refreshed;
    hide EditsOf;
    var p, s := AddLayouts(Progress(tables, []), ls), State(solver, [], calls);
    GroupedNone(tables);
    PreparedLayouts(tables.made, Progress(tables, []), ls);
    ResolvedIsSubmitted(p.events);
    OldConstraint(o, depth, s, p.events, tables.made, v);
    PlaySingly(o, s, p.events);
    SingleKeys(o, calls, solver.stands, p.events);
    FlushedIs(o, Play(o, depth, s, p.events));
  }

  /** A group inside a group hands over what the outer one had waiting, then its own. */
  lemma NestedGroupLosesNothing(o: Oracle, depth: nat, s: State, events: seq<Event>)
    requires depth > 0 && Prepared(events)
    ensures Flushed(o, Play(o, depth, s, events)).solver.constraints
      == s.solver.constraints + Owns(Unmet(s.solver.infos.Keys, events)) + Gives(s.pending)
        + Gives(Submissions(events))
  {
    hide Prepared;
    hide Play;
    hide Flushed;
    hide Refreshed;
    hide Submissions;
    hide Unmet;
    hide Owns;
    PlayGrouped(o, depth, s, events);
    FlushedIs(o, Play(o, depth, s, events));
    assert Gives(s.pending + Submissions(events)) == Gives(s.pending) + Gives(Submissions(events));
  }

  // ---- removals

  predicate OnlyRecalls(events: seq<Event>) {
    forall e <- events :: e.Recall?
  }

  lemma {:induction false} PlayRecalls(o: Oracle, depth: nat, s: State, events: seq<Event>)
    requires OnlyRecalls(events)
    ensures var t := Play(o, depth, s, events);
            if depth > 0 then t == s.(pending := s.pending + Recalls(events))
            else t.solver == WithdrawAll(s.solver, Recalls(events)) && t.pending == s.pending
    decreases |events|
  {
    hide Withdraw;
    if events == [] {
      assert s.pending + [] == s.pending;
    } else {
      var init, e := events[..|events| - 1], events[|events| - 1];
      assert e in events;
      PlayRecalls(o, depth, s, init);
      WithdrawSnoc(s.solver, Recalls(init), e.c);
    }
  }

  lemma {:induction false} RecalledOnly(p: Progress, cs: seq<SolverConstraint>)
    requires OnlyRecalls(p.events)
    ensures OnlyRecalls(RecalledAll(p, cs).events)
    decreases |cs|
  {
    if cs != [] {
      RecalledOnly(p, cs[..|cs| - 1]);
    }
  }

  lemma RemoveViewOnly(p: Progress, view: View)
    requires OnlyRecalls(p.events)
    ensures OnlyRecalls(RemoveView(p, view).events)
  {
    RecalledOnly(p, if view in p.tables.internals then p.tables.internals[view] else []);
  }

  lemma RemoveLayoutOnly(p: Progress, l: Layout)
    requires OnlyRecalls(p.events)
    ensures OnlyRecalls(RemoveLayout(p, l).events)
  {
    hide RecalledAll;
    hide RemoveView;
    if l in p.tables.byLayout {
      var c := p.tables.byLayout[l];
      var p1 := Recalled(p, c);
      var cs := if c in p1.tables.supporting then p1.tables.supporting[c] else [];
      RecalledOnly(p1, cs);
      var p2 := RecalledAll(p1, cs);
      var p3 := p2.(tables := p2.tables.(supporting := p2.tables.supporting - {c}));
      var p4 := Unused(p3, l.first, l);
      var p5 := if l.second.Some? then Unused(p4, l.second.value, l) else p4;
      RemoveViewOnly(p5, l.first);
      if l.second.Some? {
        RemoveViewOnly(RemoveView(p5, l.first), l.second.value);
      }
    }
  }

  lemma {:induction false} RemoveLayoutsOnly(p: Progress, ls: seq<Layout>)
    requires OnlyRecalls(p.events)
    ensures OnlyRecalls(RemoveLayouts(p, ls).events)
    decreases |ls|
  {
    hide RemoveLayout;
    if ls != [] {
      RemoveLayoutsOnly(p, ls[..|ls| - 1]);
      RemoveLayoutOnly(RemoveLayouts(p, ls[..|ls| - 1]), ls[|ls| - 1]);
    }
  }

  lemma {:induction false} HeldSingly(o: Oracle, s: State, events: seq<Event>)
    requires OnlyRecalls(events)
    ensures Held(o, 0, s, events) <==> AllHeld(s.solver, Recalls(events))
    decreases |events|
  {
    hide Withdraw;
    if events != [] {
      var init, e := events[..|events| - 1], events[|events| - 1];
      assert e in events;
      HeldSingly(o, s, init);
      PlayRecalls(o, 0, s, init);
      HeldSnoc(s.solver, Recalls(init), e.c);
    }
  }

  /** A group of removals always leaves the solver as the single calls would, and raises when
      they would. */
  lemma RemovalGroupIsSingle(o: Oracle, depth: nat, s: State, tables: Tables, ls: seq<Layout>)
    requires depth > 0 && s.pending == []
    ensures var p := RemoveLayouts(Progress(tables, []), ls);
            var grouped, single := Play(o, depth, s, p.events), Play(o, 0, s, p.events);
            && single.pending == [] && Drained(grouped).solver == single.solver
            && (AllHeld(grouped.solver, grouped.pending) <==> Held(o, 0, s, p.events))
  {
    hide RemoveLayouts;
    hide Play;
    hide AllHeld;
    hide Held;
    hide Recalls;
    var p := RemoveLayouts(Progress(tables, []), ls);
    RemoveLayoutsOnly(Progress(tables, []), ls);
    PlayRecalls(o, depth, s, p.events);
    PlayRecalls(o, 0, s, p.events);
    HeldSingly(o, s, p.events);
    assert [] + Recalls(p.events) == Recalls(p.events);
  }
}
