/** What the layout engine's tables keep, and what is left of a group of constraints that was
    added and removed again (Source/GSAutoLayoutEngine.m). */
module LayoutTables {
  import opened Options
  import opened Sequences
  import opened LayoutEngines
  import opened LayoutGroups

  function Listing<K, V>(m: map<K, seq<V>>, k: K): seq<V> {
    if k in m then m[k] else []
  }

  // ---- the maps between layouts and solver constraints

  /** The way from a layout to its solver constraint and back leads to the layout, supporting
      constraints support constraints that were made, and a view has internal constraints
      exactly while a layout uses it. */
  ghost predicate Tended(t: Tables) {
    && (forall l <- t.byLayout :: t.byLayout[l] in t.bySolver && t.bySolver[t.byLayout[l]] == l)
    && (forall c <- t.bySolver :: c.id < t.made) && (forall c <- t.supporting :: c.id < t.made)
    && (forall v :: v in t.internals <==> Listing(t.used, v) != [])
  }

  /** The way from a solver constraint to its layout and back leads to the solver constraint. */
  ghost predicate Inverse(t: Tables) {
    forall c <- t.bySolver :: t.bySolver[c] in t.byLayout && t.byLayout[t.bySolver[c]] == c
  }

  /** Nothing but constraints for the view is entered, and some that support `owners`. */
  ghost predicate OnlyInternals(t: Tables, now: Tables, view: View, owners: set<SolverConstraint>) {
    && now.byLayout == t.byLayout && now.bySolver == t.bySolver && now.used == t.used && now.made >= t.made
    && t.internals.Keys <= now.internals.Keys <= t.internals.Keys + {view}
    && now.supporting.Keys <= t.supporting.Keys + owners
  }

  lemma InternalTables(t: Tables, p: Progress, view: View, edits: Option<Measured>)
    requires OnlyInternals(t, p.tables, view, {})
    ensures OnlyInternals(t, AddInternal(p, view, edits).tables, view, {})
      && view in AddInternal(p, view, edits).tables.internals
  {}

  lemma IntrinsicTables(t: Tables, p: Progress, view: View, edge: Edge)
    requires OnlyInternals(t, p.tables, view, {})
    ensures OnlyInternals(t, AddIntrinsic(p, view, edge).tables, view, {})
      && view in AddIntrinsic(p, view, edge).tables.internals
  {
    hide AddInternal;
    var v := Measured(view, edge);
    InternalTables(t, p, view, Some(v));
    var p1 := Resolved(AddInternal(p, view, Some(v)), v);
    InternalTables(t, p1, view, None);
    InternalTables(t, AddInternal(p1, view, None), view, None);
  }

  lemma ViewTables(p: Progress, view: View)
    ensures OnlyInternals(p.tables, AddView(p, view).tables, view, {}) && view in AddView(p, view).tables.internals
  {
    hide AddInternal;
    hide AddIntrinsic;
    if view !in p.tables.internals {
      InternalTables(p.tables, p, view, None);
      InternalTables(p.tables, AddInternal(p, view, None), view, None);
      var p1 := AddInternal(AddInternal(p, view, None), view, None);
      IntrinsicTables(p.tables, p1, view, Width);
      IntrinsicTables(p.tables, if view.intrinsicWidth then AddIntrinsic(p1, view, Width) else p1, view, Height);
    }
  }

  lemma SupportingTables(p: Progress, view: View, attribute: Attribute, owner: SolverConstraint)
    ensures OnlyInternals(p.tables, AddSupporting(p, view, attribute, owner).tables, view, {owner})
    ensures view in AddSupporting(p, view, attribute, owner).tables.internals
  {
    hide AddView;
    ViewTables(p, view);
  }

  /** The views of a layout. */
  function Views(l: Layout): set<View> {
    {l.first} + if l.second.Some? then {l.second.value} else {}
  }

  function MoreUsed(used: map<View, seq<Layout>>, l: Layout): map<View, seq<Layout>> {
    var more := Appended(used, l.first, l);
    if l.second.Some? then Appended(more, l.second.value, l) else more
  }

  lemma AddTables(p: Progress, l: Layout)
    ensures var t, now, c := p.tables, AddLayout(p, l).tables, SolverConstraint(p.tables.made, None);
            && now.byLayout == t.byLayout[l := c] && now.bySolver == t.bySolver[c := l] && now.made > t.made
            && now.internals.Keys == t.internals.Keys + Views(l) && now.used == MoreUsed(t.used, l)
            && now.supporting.Keys <= t.supporting.Keys + {c}
  {
    hide AddSupporting;
    var c := SolverConstraint(p.tables.made, None);
    var p1 := p.(tables := p.tables.(made := p.tables.made + 1,
                                     byLayout := p.tables.byLayout[l := c], bySolver := p.tables.bySolver[c := l]));
    SupportingTables(p1, l.first, l.firstAttribute, c);
    if l.second.Some? {
      SupportingTables(AddSupporting(p1, l.first, l.firstAttribute, c), l.second.value, l.secondAttribute, c);
    }
  }

  lemma MoreUsedFor(used: map<View, seq<Layout>>, l: Layout, v: View)
    ensures Listing(MoreUsed(used, l), v) != [] <==> Listing(used, v) != [] || v in Views(l)
  {}

  // ---- what each attribute asks for

  /** From `p` to `q` exactly the variables `vs` are suggested. */
  ghost predicate Resolves(p: Progress, q: Progress, vs: set<Measured>) {
    p.events <= q.events && forall v :: Resolve(v) in q.events[|p.events|..] <==> v in vs
  }

  lemma ResolvesTwice(p: Progress, q: Progress, r: Progress, vs: set<Measured>, ws: set<Measured>)
    requires Resolves(p, q, vs) && Resolves(q, r, ws)
    ensures Resolves(p, r, vs + ws)
  {
    var a, b := q.events[|p.events|..], r.events[|q.events|..];
    assert r.events[|p.events|..] == a + b;
    forall v ensures Resolve(v) in r.events[|p.events|..] <==> v in vs + ws {
      assert Resolve(v) in a + b <==> Resolve(v) in a || Resolve(v) in b;
    }
  }

  lemma ResolvesNone(p: Progress, q: Progress)
    requires p.events == q.events
    ensures Resolves(p, q, {})
  {}

  lemma SubmitsOnly(p: Progress, q: Progress, c: SolverConstraint)
    requires q.events == p.events + [Submit(c)]
    ensures Resolves(p, q, {})
  {
    assert q.events[|p.events|..] == [Submit(c)];
  }

  lemma ResolvesOne(p: Progress, v: Measured)
    ensures Resolves(p, Resolved(p, v), {v})
  {
    assert Resolved(p, v).events[|p.events|..] == [Resolve(v)];
  }

  lemma IntrinsicResolves(p: Progress, view: View, edge: Edge)
    ensures Resolves(p, AddIntrinsic(p, view, edge), {Measured(view, edge)})
  {
    hide Resolves;
    var v := Measured(view, edge);
    var p1 := AddInternal(p, view, Some(v));
    var p2 := Resolved(p1, v);
    var p3 := AddInternal(p2, view, None);
    SubmitsOnly(p, p1, SolverConstraint(p.tables.made, Some(v)));
    ResolvesOne(p1, v);
    SubmitsOnly(p2, p3, SolverConstraint(p2.tables.made, None));
    SubmitsOnly(p3, AddInternal(p3, view, None), SolverConstraint(p3.tables.made, None));
    ResolvesTwice(p, p1, p2, {}, {v});
    ResolvesTwice(p, p2, p3, {} + {v}, {});
    ResolvesTwice(p, p3, AddInternal(p3, view, None), {} + {v} + {}, {});
    assert {} + {v} + {} + {} == {v};
  }

  /** The intrinsic dimensions of a view that is new. */
  function Dimensions(known: set<View>, view: View): set<Measured> {
    var w: set<Measured> := if view.intrinsicWidth then {Measured(view, Width)} else {};
    var h: set<Measured> := if view.intrinsicHeight then {Measured(view, Height)} else {};
    if view in known then {} else w + h
  }

  lemma ViewResolves(p: Progress, view: View)
    ensures Resolves(p, AddView(p, view), Dimensions(p.tables.internals.Keys, view))
  {
    hide Resolves;
    if view in p.tables.internals {
      ResolvesNone(p, p);
    } else {
      hide AddIntrinsic;
      var p0 := AddInternal(p, view, None);
      var p1 := AddInternal(p0, view, None);
      SubmitsOnly(p, p0, SolverConstraint(p.tables.made, None));
      SubmitsOnly(p0, p1, SolverConstraint(p0.tables.made, None));
      ResolvesTwice(p, p0, p1, {}, {});
      hide AddInternal;
      var w: set<Measured> := if view.intrinsicWidth then {Measured(view, Width)} else {};
      var h: set<Measured> := if view.intrinsicHeight then {Measured(view, Height)} else {};
      var p2 := if view.intrinsicWidth then AddIntrinsic(p1, view, Width) else p1;
      IntrinsicResolves(p1, view, Width);
      ResolvesNone(p1, p1);
      ResolvesTwice(p, p1, p2, {} + {}, w);
      IntrinsicResolves(p2, view, Height);
      ResolvesNone(p2, p2);
      ResolvesTwice(p, p2, AddView(p, view), {} + {} + w, h);
      assert {} + {} + w + h == Dimensions(p.tables.internals.Keys, view);
    }
  }

  lemma BaselineResolves(p: Progress, view: View, edge: Edge, owner: SolverConstraint)
    ensures Resolves(p, AddBaseline(p, view, edge, owner), {Measured(view, edge)})
  {
    hide Resolves;
    var v := Measured(view, edge);
    var p1 := AddSupport(p, owner, Some(v));
    var p2 := Resolved(p1, v);
    SubmitsOnly(p, p1, SolverConstraint(p.tables.made, Some(v)));
    ResolvesOne(p1, v);
    SubmitsOnly(p2, AddSupport(p2, owner, None), SolverConstraint(p2.tables.made, None));
    ResolvesTwice(p, p1, p2, {}, {v});
    ResolvesTwice(p, p2, AddSupport(p2, owner, None), {} + {v}, {});
    assert {} + {v} + {} == {v};
  }

  /** The offset that belongs to an attribute. */
  function Offsets(view: View, attribute: Attribute): set<Measured> {
    if attribute == Baseline then {Measured(view, BaselineOffset)}
    else if attribute == FirstBaseline then {Measured(view, FirstBaselineOffset)} else {}
  }

  lemma SupportingResolves(p: Progress, view: View, attribute: Attribute, owner: SolverConstraint)
    ensures Resolves(p, AddSupporting(p, view, attribute, owner),
                     Dimensions(p.tables.internals.Keys, view) + Offsets(view, attribute))
  {
    hide Resolves;
    hide AddView;
    hide AddBaseline;
    hide Dimensions;
    ViewResolves(p, view);
    var q := AddView(p, view);
    BaselineResolves(q, view, BaselineOffset, owner);
    BaselineResolves(q, view, FirstBaselineOffset, owner);
    SubmitsOnly(q, AddSupport(q, owner, None), SolverConstraint(q.tables.made, None));
    ResolvesNone(q, q);
    ResolvesTwice(p, q, AddSupporting(p, view, attribute, owner), Dimensions(p.tables.internals.Keys, view),
                  Offsets(view, attribute));
  }

  /** The item of the layout constraint with this attribute is the view. */
  predicate Asks(l: Layout, view: View, attribute: Attribute) {
    (l.first == view && l.firstAttribute == attribute)
    || (l.second == Some(view) && l.secondAttribute == attribute)
  }

  /** Which variables a layout constraint suggests values for: the offset from the bottom for a
      baseline, the one from the top for a first baseline, and for an item the engine has not seen
      the dimensions it has intrinsically. */
  lemma ResolvedByAttribute(p: Progress, l: Layout)
    ensures p.events <= AddLayout(p, l).events
    ensures forall v :: Resolve(v) in AddLayout(p, l).events[|p.events|..] <==>
      match v.edge
      case BaselineOffset => Asks(l, v.view, Baseline)
      case FirstBaselineOffset => Asks(l, v.view, FirstBaseline)
      case Width => v.view in Views(l) && v.view !in p.tables.internals && v.view.intrinsicWidth
      case Height => v.view in Views(l) && v.view !in p.tables.internals && v.view.intrinsicHeight
  {
    var vs := LayoutResolves(p, l);
    hide AddLayout;
    forall v ensures v in vs <==> AskedFor(p.tables.internals.Keys, l, v) {
      AskedForIs(p.tables.internals.Keys, l, v);
    }
  }

  predicate AskedFor(known: set<View>, l: Layout, v: Measured) {
    match v.edge
    case BaselineOffset => Asks(l, v.view, Baseline)
    case FirstBaselineOffset => Asks(l, v.view, FirstBaseline)
    case Width => v.view in Views(l) && v.view !in known && v.view.intrinsicWidth
    case Height => v.view in Views(l) && v.view !in known && v.view.intrinsicHeight
  }

  lemma AskedForIs(known: set<View>, l: Layout, v: Measured)
    ensures AskedFor(known, l, v) <==>
      || v in Dimensions(known, l.first) + Offsets(l.first, l.firstAttribute)
      || (l.second.Some? &&
            v in Dimensions(known + {l.first}, l.second.value) + Offsets(l.second.value, l.secondAttribute))
  {
    DimensionsAre(known, l.first, v);
    if l.second.Some? {
      DimensionsAre(known + {l.first}, l.second.value, v);
    }
    hide Dimensions;
  }

  lemma DimensionsAre(known: set<View>, view: View, v: Measured)
    ensures v in Dimensions(known, view) <==>
      v.view == view && view !in known
        && ((v.edge == Width && view.intrinsicWidth) || (v.edge == Height && view.intrinsicHeight))
  {
    assert v == Measured(v.view, v.edge);
  }

  /** How many supporting constraints the layout constraint gets, and how many internal ones each
      view that is new. */
  lemma HowMany(p: Progress, l: Layout)
    ensures var t, now, c := p.tables, AddLayout(p, l).tables, SolverConstraint(p.tables.made, None);
            && |Listing(now.supporting, c)| == |Listing(t.supporting, c)| + SupportsFor(l.firstAttribute)
                 + (if l.second.Some? then SupportsFor(l.secondAttribute) else 0)
            && (forall k :: k != c ==> Listing(now.supporting, k) == Listing(t.supporting, k))
            && (forall v <- Views(l) :: v !in t.internals ==>
                  && v in now.internals
                  && |now.internals[v]| == 2 + (if v.intrinsicWidth then 3 else 0) + if v.intrinsicHeight then 3 else 0)
            && (forall v <- t.internals :: v in now.internals && now.internals[v] == t.internals[v])
  {
    hide AddSupporting;
    hide SupportsFor;
    hide AddLayout;
    AddLayoutIs(p, l);
    var c := SolverConstraint(p.tables.made, None);
    var p1 := p.(tables := p.tables.(made := p.tables.made + 1,
                                     byLayout := p.tables.byLayout[l := c], bySolver := p.tables.bySolver[c := l]));
    SupportingCounts(p1, l.first, l.firstAttribute, c);
    if l.second.Some? {
      SupportingCounts(AddSupporting(p1, l.first, l.firstAttribute, c), l.second.value, l.secondAttribute, c);
    }
  }

  /** A baseline takes an edit constraint besides its equation, any other attribute of a view its
      equation, and what is left none. */
  function SupportsFor(attribute: Attribute): nat {
    if attribute == Baseline || attribute == FirstBaseline then 2 else if attribute == OtherAttribute then 0 else 1
  }

  /** The tables but for the internal constraints of one view and the supports of one constraint. */
  ghost predicate CountsUp(t: Tables, now: Tables, view: View, owner: SolverConstraint, internals: int, supports: int) {
    && |Listing(now.supporting, owner)| == |Listing(t.supporting, owner)| + supports
    && (forall k :: k != owner ==> Listing(now.supporting, k) == Listing(t.supporting, k))
    && |Listing(now.internals, view)| == |Listing(t.internals, view)| + internals
    && now.internals.Keys == t.internals.Keys + (if internals > 0 then {view} else {})
    && forall v <- t.internals :: (internals > 0 ==> v != view) ==> now.internals[v] == t.internals[v]
  }

  lemma CountsTwice(t: Tables, u: Tables, now: Tables, view: View, owner: SolverConstraint, a: nat, b: nat, c: nat,
                    d: nat)
    requires CountsUp(t, u, view, owner, a, b) && CountsUp(u, now, view, owner, c, d)
    ensures CountsUp(t, now, view, owner, a + c, b + d)
  {}

  lemma InternalCounts(p: Progress, view: View, edits: Option<Measured>, owner: SolverConstraint)
    ensures CountsUp(p.tables, AddInternal(p, view, edits).tables, view, owner, 1, 0)
  {}

  lemma SupportCounts(p: Progress, view: View, edits: Option<Measured>, owner: SolverConstraint)
    ensures CountsUp(p.tables, AddSupport(p, owner, edits).tables, view, owner, 0, 1)
  {}

  lemma IntrinsicCounts(p: Progress, view: View, edge: Edge, owner: SolverConstraint)
    ensures CountsUp(p.tables, AddIntrinsic(p, view, edge).tables, view, owner, 3, 0)
  {
    hide AddInternal;
    hide CountsUp;
    var v := Measured(view, edge);
    var p1 := AddInternal(p, view, Some(v));
    var p2 := Resolved(p1, v);
    var p3 := AddInternal(p2, view, None);
    InternalCounts(p, view, Some(v), owner);
    InternalCounts(p2, view, None, owner);
    InternalCounts(p3, view, None, owner);
    CountsTwice(p.tables, p2.tables, p3.tables, view, owner, 1, 0, 1, 0);
    CountsTwice(p.tables, p3.tables, AddInternal(p3, view, None).tables, view, owner, 2, 0, 1, 0);
  }

  function InternalsFor(view: View): nat {
    2 + (if view.intrinsicWidth then 3 else 0) + if view.intrinsicHeight then 3 else 0
  }

  lemma ViewCounts(p: Progress, view: View, owner: SolverConstraint)
    ensures CountsUp(p.tables, AddView(p, view).tables, view, owner,
                     if view in p.tables.internals then 0 else InternalsFor(view), 0)
  {
    hide AddIntrinsic;
    if view !in p.tables.internals {
      hide AddInternal;
      hide CountsUp;
      var p0 := AddInternal(p, view, None);
      var p1 := AddInternal(p0, view, None);
      InternalCounts(p, view, None, owner);
      InternalCounts(p0, view, None, owner);
      CountsTwice(p.tables, p0.tables, p1.tables, view, owner, 1, 0, 1, 0);
      var p2 := if view.intrinsicWidth then AddIntrinsic(p1, view, Width) else p1;
      var w: nat := if view.intrinsicWidth then 3 else 0;
      if view.intrinsicWidth {
        IntrinsicCounts(p1, view, Width, owner);
        CountsTwice(p.tables, p1.tables, p2.tables, view, owner, 2, 0, 3, 0);
      }
      if view.intrinsicHeight {
        IntrinsicCounts(p2, view, Height, owner);
        CountsTwice(p.tables, p2.tables, AddIntrinsic(p2, view, Height).tables, view, owner, 2 + w, 0, 3, 0);
      }
    }
  }

  lemma BaselineCounts(p: Progress, view: View, edge: Edge, owner: SolverConstraint)
    ensures CountsUp(p.tables, AddBaseline(p, view, edge, owner).tables, view, owner, 0, 2)
  {
    hide AddSupport;
    hide CountsUp;
    var v := Measured(view, edge);
    var p1 := Resolved(AddSupport(p, owner, Some(v)), v);
    SupportCounts(p, view, Some(v), owner);
    SupportCounts(p1, view, None, owner);
    CountsTwice(p.tables, p1.tables, AddSupport(p1, owner, None).tables, view, owner, 0, 1, 0, 1);
  }

  lemma SupportingCounts(p: Progress, view: View, attribute: Attribute, owner: SolverConstraint)
    ensures CountsUp(p.tables, AddSupporting(p, view, attribute, owner).tables, view, owner,
                     if view in p.tables.internals then 0 else InternalsFor(view), SupportsFor(attribute))
  {
    hide AddView;
    hide AddSupport;
    hide AddBaseline;
    hide InternalsFor;
    var q := AddView(p, view);
    ViewCounts(p, view, owner);
    BaselineCounts(q, view, BaselineOffset, owner);
    BaselineCounts(q, view, FirstBaselineOffset, owner);
    SupportCounts(q, view, None, owner);
  }

  lemma LayoutResolves(p: Progress, l: Layout) returns (vs: set<Measured>)
    ensures Resolves(p, AddLayout(p, l), vs)
    ensures var known := p.tables.internals.Keys;
            vs == Dimensions(known, l.first) + Offsets(l.first, l.firstAttribute)
              + if l.second.Some? then
                  Dimensions(known + {l.first}, l.second.value) + Offsets(l.second.value, l.secondAttribute)
                else {}
  {
    hide Resolves;
    hide AddSupporting;
    hide Dimensions;
    hide Offsets;
    var known := p.tables.internals.Keys;
    var c := SolverConstraint(p.tables.made, None);
    var p1 := p.(tables := p.tables.(made := p.tables.made + 1,
                                     byLayout := p.tables.byLayout[l := c], bySolver := p.tables.bySolver[c := l]));
    ResolvesNone(p, p1);
    SupportingResolves(p1, l.first, l.firstAttribute, c);
    SupportingTables(p1, l.first, l.firstAttribute, c);
    var p2 := AddSupporting(p1, l.first, l.firstAttribute, c);
    vs := Dimensions(known, l.first) + Offsets(l.first, l.firstAttribute);
    ResolvesTwice(p, p1, p2, {}, vs);
    assert {} + vs == vs;
    if l.second.Some? {
      assert p2.tables.internals.Keys == known + {l.first};
      var more := Dimensions(known + {l.first}, l.second.value) + Offsets(l.second.value, l.secondAttribute);
      SupportingResolves(p2, l.second.value, l.secondAttribute, c);
      ResolvesTwice(p, p2, AddSupporting(p2, l.second.value, l.secondAttribute, c), vs, more);
      vs := vs + more;
    }
    AddLayoutIs(p, l);
    hide AddLayout;
    SubmitsOnly(Supported(p, l), AddLayout(p, l), c);
    ResolvesTwice(p, Supported(p, l), AddLayout(p, l), vs, {});
    assert vs + {} == vs;
  }

  /** Adding keeps the tables tended.  The two maps stay inverse exactly when the layout is new:
      a layout added twice loses its first solver constraint for good. */
  lemma AddTends(p: Progress, l: Layout)
    requires Tended(p.tables)
    ensures Tended(AddLayout(p, l).tables)
    ensures Inverse(p.tables) ==> (Inverse(AddLayout(p, l).tables) <==> l !in p.tables.byLayout)
  {
    hide AddLayout;
    hide MoreUsed;
    hide Views;
    AddTables(p, l);
    var t, now := p.tables, AddLayout(p, l).tables;
    forall v ensures v in now.internals <==> Listing(now.used, v) != [] {
      MoreUsedFor(t.used, l, v);
    }
    if l in t.byLayout {
      assert t.byLayout[l] in now.bySolver && now.bySolver[t.byLayout[l]] == l;
    }
  }

  lemma {:induction false} RecalledTables(p: Progress, cs: seq<SolverConstraint>)
    ensures RecalledAll(p, cs).tables == p.tables.(listed := RecalledAll(p, cs).tables.listed)
    ensures Recalls(RecalledAll(p, cs).events) == Recalls(p.events) + cs
    decreases |cs|
  {
    if cs == [] {
      assert Recalls(p.events) + cs == Recalls(p.events);
    } else {
      RecalledTables(p, cs[..|cs| - 1]);
      RecallsSnoc(RecalledAll(p, cs[..|cs| - 1]), cs[|cs| - 1]);
      assert cs == cs[..|cs| - 1] + [cs[|cs| - 1]];
    }
  }

  lemma RecallsSnoc(p: Progress, c: SolverConstraint)
    ensures Recalls(Recalled(p, c).events) == Recalls(p.events) + [c]
  {
    assert (p.events + [Recall(c)])[..|p.events|] == p.events;
  }

  lemma RemoveViewTables(p: Progress, view: View)
    ensures var t, now := p.tables, RemoveView(p, view).tables;
            && now == t.(listed := now.listed, internals := now.internals)
            && now.internals == (if Listing(t.used, view) != [] then t.internals else t.internals - {view})
            && Recalls(RemoveView(p, view).events) ==
                 Recalls(p.events) + if Listing(t.used, view) != [] then [] else Listing(t.internals, view)
  {
    hide RecalledAll;
    hide Recalls;
    RecalledTables(p, Listing(p.tables.internals, view));
    assert Recalls(p.events) + [] == Recalls(p.events);
  }

  /** The uses of a view without one layout. */
  function Less(used: map<View, seq<Layout>>, view: View, l: Layout): map<View, seq<Layout>> {
    if view in used then used[view := RemoveFirst(used[view], l)] else used
  }

  function LessUsed(used: map<View, seq<Layout>>, l: Layout): map<View, seq<Layout>> {
    var less := Less(used, l.first, l);
    if l.second.Some? then Less(less, l.second.value, l) else less
  }

  /** The state of a removal when the views are looked at. */
  function Freed(p: Progress, l: Layout): Progress
    requires l in p.tables.byLayout
  {
    var c := p.tables.byLayout[l];
    var q := RecalledAll(Recalled(p, c), Listing(p.tables.supporting, c));
    q.(tables := q.tables.(supporting := q.tables.supporting - {c}, used := LessUsed(q.tables.used, l)))
  }

  lemma FreedTables(p: Progress, l: Layout)
    requires l in p.tables.byLayout
    ensures var t, now, c := p.tables, Freed(p, l).tables, p.tables.byLayout[l];
            && now == t.(listed := now.listed, supporting := t.supporting - {c}, used := LessUsed(t.used, l))
            && Recalls(Freed(p, l).events) == Recalls(p.events) + [c] + Listing(t.supporting, c)
            && RemoveLayout(p, l) ==
                 if l.second.Some? then RemoveView(RemoveView(Freed(p, l), l.first), l.second.value)
                 else RemoveView(Freed(p, l), l.first)
  {
    hide RecalledAll;
    hide RemoveView;
    hide RemoveFirst;
    hide Recalls;
    var c := p.tables.byLayout[l];
    RecallsSnoc(p, c);
    RecalledTables(Recalled(p, c), Listing(p.tables.supporting, c));
  }

  /** Tended, but for views in `loose` that may have lost their last use. */
  ghost predicate AlmostTended(t: Tables, loose: set<View>) {
    && (forall l <- t.byLayout :: t.byLayout[l] in t.bySolver && t.bySolver[t.byLayout[l]] == l)
    && (forall c <- t.bySolver :: c.id < t.made) && (forall c <- t.supporting :: c.id < t.made)
    && (forall v :: Listing(t.used, v) != [] ==> v in t.internals)
    && (forall v :: v in t.internals && v !in loose ==> Listing(t.used, v) != [])
  }

  lemma RemoveViewTends(p: Progress, view: View, loose: set<View>)
    requires AlmostTended(p.tables, loose)
    ensures AlmostTended(RemoveView(p, view).tables, loose - {view})
  {
    hide RemoveView;
    RemoveViewTables(p, view);
  }

  lemma FreedTends(p: Progress, l: Layout)
    requires Tended(p.tables) && l in p.tables.byLayout
    ensures AlmostTended(Freed(p, l).tables, Views(l))
  {
    hide Freed;
    hide LessUsed;
    hide Views;
    FreedTables(p, l);
    var now := Freed(p, l).tables;
    forall v ensures Listing(now.used, v) != [] ==> v in now.internals {
      LessUsedFor(p.tables.used, l, v);
    }
    forall v | v in now.internals && v !in Views(l) ensures Listing(now.used, v) != [] {
      LessUsedFor(p.tables.used, l, v);
    }
  }

  /** Removing keeps the tables tended. */
  lemma RemoveTends(p: Progress, l: Layout)
    requires Tended(p.tables)
    ensures Tended(RemoveLayout(p, l).tables)
  {
    if l in p.tables.byLayout {
      hide RemoveLayout;
      hide RemoveView;
      hide Freed;
      hide Tended;
      hide AlmostTended;
      FreedTables(p, l);
      FreedTends(p, l);
      RemoveViewTends(Freed(p, l), l.first, Views(l));
      if l.second.Some? {
        RemoveViewTends(RemoveView(Freed(p, l), l.first), l.second.value, Views(l) - {l.first});
        assert Views(l) - {l.first} - {l.second.value} == {};
      } else {
        assert Views(l) - {l.first} == {};
      }
      NoneLoose(RemoveLayout(p, l).tables);
    }
  }

  lemma NoneLoose(t: Tables)
    ensures AlmostTended(t, {}) ==> Tended(t)
  {}

  /** Removing leaves the two maps as they are. */
  lemma RemoveKeepsMaps(p: Progress, l: Layout)
    ensures var t, now := p.tables, RemoveLayout(p, l).tables;
            now.byLayout == t.byLayout && now.bySolver == t.bySolver && now.made == t.made
  {
    if l in p.tables.byLayout {
      hide RemoveLayout;
      hide RemoveView;
      hide Freed;
      FreedTables(p, l);
      RemoveViewTables(Freed(p, l), l.first);
      if l.second.Some? {
        RemoveViewTables(RemoveView(Freed(p, l), l.first), l.second.value);
      }
    }
  }

  lemma LessUsedFor(used: map<View, seq<Layout>>, l: Layout, v: View)
    ensures v !in Views(l) ==> Listing(LessUsed(used, l), v) == Listing(used, v)
    ensures Listing(used, v) == [] ==> Listing(LessUsed(used, l), v) == []
  {
    assert RemoveFirst<Layout>([], l) == [];
    hide RemoveFirst;
  }

  // ---- what a group enters

  /** What a new solver constraint is for. */
  datatype Role = Main(l: Layout) | Support(k: SolverConstraint) | Internal(v: View)

  type Roles = map<SolverConstraint, Role>

  /** The new lists of supporting constraints hold each constraint with that role once. */
  ghost predicate FiledSupports(from: nat, lists: map<SolverConstraint, seq<SolverConstraint>>, roles: Roles) {
    && (forall k, c :: c in Listing(lists, k) && k.id >= from <==> c in roles && roles[c] == Support(k))
    && (forall k: SolverConstraint :: k.id >= from ==> Distinct(Listing(lists, k)))
  }

  /** The same for the lists of internal constraints. */
  ghost predicate FiledInternals(known: set<View>, lists: map<View, seq<SolverConstraint>>, roles: Roles) {
    && (forall v, c :: c in Listing(lists, v) && v !in known <==> c in roles && roles[c] == Internal(v))
    && (forall v :: v !in known ==> Distinct(Listing(lists, v)))
  }

  ghost predicate FiledLists(first: Tables, t: Tables, roles: Roles) {
    FiledSupports(first.made, t.supporting, roles) && FiledInternals(first.internals.Keys, t.internals, roles)
  }

  lemma SupportsAside(from: nat, lists: map<SolverConstraint, seq<SolverConstraint>>, roles: Roles, now: Roles)
    requires FiledSupports(from, lists, roles)
    requires forall c, k :: c in roles && roles[c] == Support(k) <==> c in now && now[c] == Support(k)
    ensures FiledSupports(from, lists, now)
  {
    forall k, c ensures c in Listing(lists, k) && k.id >= from <==> c in now && now[c] == Support(k) {
      assert c in Listing(lists, k) && k.id >= from <==> c in roles && roles[c] == Support(k);
    }
  }

  lemma InternalsAside(known: set<View>, lists: map<View, seq<SolverConstraint>>, roles: Roles, now: Roles)
    requires FiledInternals(known, lists, roles)
    requires forall c, v :: c in roles && roles[c] == Internal(v) <==> c in now && now[c] == Internal(v)
    ensures FiledInternals(known, lists, now)
  {
    forall v, c ensures c in Listing(lists, v) && v !in known <==> c in now && now[c] == Internal(v) {
      assert c in Listing(lists, v) && v !in known <==> c in roles && roles[c] == Internal(v);
    }
  }

  /** The constraints submitted so far are those with a role, but for those in `waiting`. */
  ghost predicate Filed(first: Tables, p: Progress, roles: Roles, waiting: set<SolverConstraint>) {
    && first.made <= p.tables.made && first.internals.Keys <= p.tables.internals.Keys
    && (forall c <- roles :: first.made <= c.id < p.tables.made)
    && (forall c :: c in Submissions(p.events) <==> c in roles && c !in waiting)
    && (forall c <- roles :: roles[c].Support? ==>
         roles[c].k in roles && roles[c].k.id >= first.made && roles[roles[c].k].Main?)
    && FiledLists(first, p.tables, roles)
  }

  ghost predicate RolesGrow(roles: Roles, more: Roles) {
    && (forall c <- roles :: c in more && more[c] == roles[c])
    && (forall c <- more :: c !in roles ==> !more[c].Main?)
  }

  lemma GrowTwice(a: Roles, b: Roles, c: Roles)
    requires RolesGrow(a, b) && RolesGrow(b, c)
    ensures RolesGrow(a, c)
  {}

  lemma SubmissionsSnoc(events: seq<Event>, e: Event)
    ensures Submissions(events + [e]) == Submissions(events) + if e.Submit? then [e.c] else []
  {
    assert (events + [e])[..|events|] == events;
  }

  /** A new constraint at the end of one list. */
  lemma AppendedList<K, V>(m: map<K, seq<V>>, k: K, v: V)
    ensures forall j :: Listing(Appended(m, k, v), j) == if j == k then Listing(m, k) + [v] else Listing(m, j)
  {}

  lemma InternalLists(first: Tables, t: Tables, now: Tables, roles: Roles, view: View, c: SolverConstraint)
    requires FiledLists(first, t, roles) && c !in roles && view !in first.internals
    requires now.supporting == t.supporting && now.internals == Appended(t.internals, view, c)
    ensures FiledLists(first, now, roles[c := Internal(view)])
  {
    SupportsAside(first.made, t.supporting, roles, roles[c := Internal(view)]);
    InternalAppended(first.internals.Keys, t.internals, roles, view, c);
    hide FiledSupports;
    hide FiledInternals;
  }

  lemma InternalAppended(known: set<View>, lists: map<View, seq<SolverConstraint>>, roles: Roles, view: View,
                         c: SolverConstraint)
    requires FiledInternals(known, lists, roles) && c !in roles && view !in known
    ensures FiledInternals(known, Appended(lists, view, c), roles[c := Internal(view)])
  {
    hide Appended;
    AppendedList(lists, view, c);
    hide Listing;
  }

  lemma SupportLists(first: Tables, t: Tables, now: Tables, roles: Roles, owner: SolverConstraint, c: SolverConstraint)
    requires FiledLists(first, t, roles) && c !in roles && owner.id >= first.made
    requires now.internals == t.internals && now.supporting == Appended(t.supporting, owner, c)
    ensures FiledLists(first, now, roles[c := Support(owner)])
  {
    InternalsAside(first.internals.Keys, t.internals, roles, roles[c := Support(owner)]);
    SupportAppended(first.made, t.supporting, roles, owner, c);
    hide FiledSupports;
    hide FiledInternals;
  }

  lemma SupportAppended(from: nat, lists: map<SolverConstraint, seq<SolverConstraint>>, roles: Roles,
                        owner: SolverConstraint, c: SolverConstraint)
    requires FiledSupports(from, lists, roles) && c !in roles && owner.id >= from
    ensures FiledSupports(from, Appended(lists, owner, c), roles[c := Support(owner)])
  {
    hide Appended;
    AppendedList(lists, owner, c);
    hide Listing;
  }

  lemma InternalFiled(first: Tables, p: Progress, roles: Roles, waiting: set<SolverConstraint>, view: View,
                      edits: Option<Measured>)
    returns (more: Roles)
    requires Filed(first, p, roles, waiting) && waiting <= roles.Keys && view !in first.internals
    ensures Filed(first, AddInternal(p, view, edits), more, waiting) && RolesGrow(roles, more)
  {
    hide FiledLists;
    hide Submissions;
    hide Appended;
    var c := SolverConstraint(p.tables.made, edits);
    more := roles[c := Internal(view)];
    SubmissionsSnoc(p.events, Submit(c));
    AppendedKeys(p.tables.internals, view, c);
    InternalLists(first, p.tables, AddInternal(p, view, edits).tables, roles, view, c);
  }

  lemma AppendedKeys<K, V>(m: map<K, seq<V>>, k: K, v: V)
    ensures Appended(m, k, v).Keys == m.Keys + {k}
  {}

  lemma SupportFiled(first: Tables, p: Progress, roles: Roles, waiting: set<SolverConstraint>, owner: SolverConstraint,
                     edits: Option<Measured>)
    returns (more: Roles)
    requires Filed(first, p, roles, waiting) && waiting <= roles.Keys && owner in roles && roles[owner].Main?
    ensures Filed(first, AddSupport(p, owner, edits), more, waiting) && RolesGrow(roles, more)
  {
    hide FiledLists;
    hide Submissions;
    hide Appended;
    var c := SolverConstraint(p.tables.made, edits);
    more := roles[c := Support(owner)];
    SubmissionsSnoc(p.events, Submit(c));
    SupportLists(first, p.tables, AddSupport(p, owner, edits).tables, roles, owner, c);
  }

  lemma ResolvedFiled(first: Tables, p: Progress, roles: Roles, waiting: set<SolverConstraint>, v: Measured)
    requires Filed(first, p, roles, waiting)
    ensures Filed(first, Resolved(p, v), roles, waiting)
  {
    hide FiledLists;
    hide Submissions;
    SubmissionsSnoc(p.events, Resolve(v));
    assert Submissions(p.events) + [] == Submissions(p.events);
  }

  lemma IntrinsicFiled(first: Tables, p: Progress, roles: Roles, waiting: set<SolverConstraint>, view: View, edge: Edge)
    returns (more: Roles)
    requires Filed(first, p, roles, waiting) && waiting <= roles.Keys && view !in first.internals
    ensures Filed(first, AddIntrinsic(p, view, edge), more, waiting) && RolesGrow(roles, more)
  {
    hide Filed;
    hide AddInternal;
    var v := Measured(view, edge);
    more := InternalFiled(first, p, roles, waiting, view, Some(v));
    ResolvedFiled(first, AddInternal(p, view, Some(v)), more, waiting, v);
    var p1 := Resolved(AddInternal(p, view, Some(v)), v);
    more := InternalFiled(first, p1, more, waiting, view, None);
    more := InternalFiled(first, AddInternal(p1, view, None), more, waiting, view, None);
  }

  lemma ViewFiled(first: Tables, p: Progress, roles: Roles, waiting: set<SolverConstraint>, view: View)
    returns (more: Roles)
    requires Filed(first, p, roles, waiting) && waiting <= roles.Keys
    ensures Filed(first, AddView(p, view), more, waiting) && RolesGrow(roles, more)
  {
    more := roles;
    if view !in p.tables.internals {
      assert view !in first.internals;
      hide Filed;
      hide AddInternal;
      hide AddIntrinsic;
      more := InternalFiled(first, p, roles, waiting, view, None);
      var p1 := AddInternal(p, view, None);
      var next := InternalFiled(first, p1, more, waiting, view, None);
      GrowTwice(roles, more, next);
      more := DimensionsFiled(first, AddInternal(p1, view, None), next, waiting, view);
      GrowTwice(roles, next, more);
    }
  }

  lemma DimensionsFiled(first: Tables, p: Progress, roles: Roles, waiting: set<SolverConstraint>, view: View)
    returns (more: Roles)
    requires Filed(first, p, roles, waiting) && waiting <= roles.Keys && view !in first.internals
    ensures var q := if view.intrinsicWidth then AddIntrinsic(p, view, Width) else p;
            Filed(first, if view.intrinsicHeight then AddIntrinsic(q, view, Height) else q, more, waiting)
    ensures RolesGrow(roles, more)
  {
    hide Filed;
    hide AddIntrinsic;
    more := roles;
    if view.intrinsicWidth {
      more := IntrinsicFiled(first, p, more, waiting, view, Width);
    }
    if view.intrinsicHeight {
      var q := if view.intrinsicWidth then AddIntrinsic(p, view, Width) else p;
      var next := IntrinsicFiled(first, q, more, waiting, view, Height);
      GrowTwice(roles, more, next);
      more := next;
    }
  }

  lemma SupportingFiled(first: Tables, p: Progress, roles: Roles, waiting: set<SolverConstraint>, view: View,
                        attribute: Attribute, owner: SolverConstraint)
    returns (more: Roles)
    requires Filed(first, p, roles, waiting) && waiting <= roles.Keys && owner in roles && roles[owner].Main?
    ensures Filed(first, AddSupporting(p, view, attribute, owner), more, waiting) && RolesGrow(roles, more)
  {
    hide Filed;
    hide AddSupport;
    hide AddView;
    more := ViewFiled(first, p, roles, waiting, view);
    var q := AddView(p, view);
    if attribute.Baseline? || attribute.FirstBaseline? {
      var v := Measured(view, if attribute.Baseline? then BaselineOffset else FirstBaselineOffset);
      more := SupportFiled(first, q, more, waiting, owner, Some(v));
      ResolvedFiled(first, AddSupport(q, owner, Some(v)), more, waiting, v);
      more := SupportFiled(first, Resolved(AddSupport(q, owner, Some(v)), v), more, waiting, owner, None);
    } else if !attribute.OtherAttribute? {
      more := SupportFiled(first, q, more, waiting, owner, None);
    }
  }

  /** The new constraints that stand for layouts. */
  ghost predicate MainsAre(t: Tables, roles: Roles, added: set<Layout>) {
    && added <= t.byLayout.Keys
    && (forall l, c :: l in added && t.byLayout[l] == c <==> c in roles && roles[c] == Main(l))
  }

  lemma MainFiled(first: Tables, p: Progress, roles: Roles, l: Layout) returns (q: Progress, more: Roles)
    requires Filed(first, p, roles, {})
    ensures var c, t := SolverConstraint(p.tables.made, None), p.tables;
            && q == p.(tables := t.(made := t.made + 1, byLayout := t.byLayout[l := c], bySolver := t.bySolver[c := l]))
            && more == roles[c := Main(l)] && c !in roles && Filed(first, q, more, {c})
  {
    hide Submissions;
    var c, t := SolverConstraint(p.tables.made, None), p.tables;
    q := p.(tables := t.(made := t.made + 1, byLayout := t.byLayout[l := c], bySolver := t.bySolver[c := l]));
    more := roles[c := Main(l)];
    MainLists(first, t, q.tables, roles, c, l);
    hide FiledLists;
  }

  lemma MainLists(first: Tables, t: Tables, now: Tables, roles: Roles, c: SolverConstraint, l: Layout)
    requires FiledLists(first, t, roles) && c !in roles
    requires now.supporting == t.supporting && now.internals == t.internals
    ensures FiledLists(first, now, roles[c := Main(l)])
  {}

  lemma LayoutFiled(first: Tables, p: Progress, roles: Roles, l: Layout) returns (more: Roles)
    requires Filed(first, p, roles, {})
    ensures var c := SolverConstraint(p.tables.made, None);
            c !in roles && Filed(first, AddLayout(p, l), more, {}) && RolesGrow(roles[c := Main(l)], more)
  {
    hide Filed;
    hide AddSupporting;
    var c := SolverConstraint(p.tables.made, None);
    var p1, roles1 := MainFiled(first, p, roles, l);
    more := SupportingFiled(first, p1, roles1, {c}, l.first, l.firstAttribute, c);
    var p2 := AddSupporting(p1, l.first, l.firstAttribute, c);
    if l.second.Some? {
      more := SupportingFiled(first, p2, more, {c}, l.second.value, l.secondAttribute, c);
      p2 := AddSupporting(p2, l.second.value, l.secondAttribute, c);
    }
    SubmittedFiled(first, p2, AddLayout(p, l), more, c);
  }

  lemma SubmittedFiled(first: Tables, p: Progress, q: Progress, roles: Roles, c: SolverConstraint)
    requires Filed(first, p, roles, {c}) && c in roles
    requires q.events == p.events + [Submit(c)]
    requires q.tables == p.tables.(listed := q.tables.listed, used := q.tables.used)
    ensures Filed(first, q, roles, {})
  {
    hide Submissions;
    SubmissionsSnoc(p.events, Submit(c));
  }

  /** How often a layout uses a view. */
  function Span(l: Layout, v: View): nat {
    (if l.first == v then 1 else 0) + if l.second == Some(v) then 1 else 0
  }

  /** The views are used as at first, and by the layouts in `active`. */
  ghost predicate UsesAre(first: map<View, seq<Layout>>, used: map<View, seq<Layout>>, active: set<Layout>) {
    forall v, l :: multiset(Listing(used, v))[l] ==
      multiset(Listing(first, v))[l] + if l in active then Span(l, v) else 0
  }

  lemma MoreUsedCount(used: map<View, seq<Layout>>, l: Layout, v: View, k: Layout)
    ensures multiset(Listing(MoreUsed(used, l), v))[k] ==
      multiset(Listing(used, v))[k] + if k == l then Span(l, v) else 0
  {
    hide Appended;
    AppendedCount(used, l.first, l, v, k);
    if l.second.Some? {
      AppendedCount(Appended(used, l.first, l), l.second.value, l, v, k);
    }
  }

  lemma AppendedCount(used: map<View, seq<Layout>>, view: View, l: Layout, v: View, k: Layout)
    ensures multiset(Listing(Appended(used, view, l), v))[k] ==
      multiset(Listing(used, v))[k] + if v == view && k == l then 1 else 0
  {
    AppendedList(used, view, l);
    hide Appended;
    assert multiset(Listing(used, v) + [l]) == multiset(Listing(used, v)) + multiset{l};
  }

  lemma AddUses(first: map<View, seq<Layout>>, used: map<View, seq<Layout>>, active: set<Layout>, l: Layout)
    requires UsesAre(first, used, active) && l !in active
    ensures UsesAre(first, MoreUsed(used, l), active + {l})
  {
    hide MoreUsed;
    hide Span;
    forall v, k
      ensures multiset(Listing(MoreUsed(used, l), v))[k] ==
        multiset(Listing(first, v))[k] + if k in active + {l} then Span(k, v) else 0
    {
      MoreUsedCount(used, l, v, k);
    }
  }

  function Layouts(ls: seq<Layout>): set<Layout> { set l | l in ls }

  /** What the tables and the events are after a group of new layouts has been added. */
  lemma {:induction false} GroupFiled(first: Tables, ls: seq<Layout>) returns (roles: Roles)
    requires Distinct(ls) && Tended(first)
    ensures var p := AddLayouts(Progress(first, []), ls);
            && Filed(first, p, roles, {}) && MainsAre(p.tables, roles, Layouts(ls))
            && UsesAre(first.used, p.tables.used, Layouts(ls))
    decreases |ls|
  {
    hide Filed;
    hide AddLayout;
    hide AddLayouts;
    hide UsesAre;
    hide MainsAre;
    hide Layouts;
    hide Tended;
    hide Distinct;
    if ls == [] {
      roles := NothingFiled(first, ls);
    } else {
      var n := |ls| - 1;
      LayoutsNext(Progress(first, []), ls, n);
      LayoutsLast(ls);
      roles := GroupFiled(first, ls[..n]);
      roles := LayoutJoins(first, AddLayouts(Progress(first, []), ls[..n]), roles, Layouts(ls[..n]), ls[n]);
    }
  }

  lemma LayoutsLast(ls: seq<Layout>)
    requires ls != [] && Distinct(ls)
    ensures var n := |ls| - 1;
            && ls[..n + 1] == ls && Layouts(ls) == Layouts(ls[..n]) + {ls[n]}
            && Distinct(ls[..n]) && ls[n] !in Layouts(ls[..n])
  {
    var n := |ls| - 1;
    LayoutsSnoc(ls[..n], ls[n]);
    assert ls[..n + 1] == ls == ls[..n] + [ls[n]];
  }

  lemma LayoutsSnoc(ls: seq<Layout>, l: Layout)
    ensures Layouts(ls + [l]) == Layouts(ls) + {l}
    ensures l in Layouts(ls) <==> l in ls
  {}

  lemma LayoutJoins(first: Tables, p: Progress, roles: Roles, added: set<Layout>, l: Layout) returns (more: Roles)
    requires Filed(first, p, roles, {}) && MainsAre(p.tables, roles, added) && UsesAre(first.used, p.tables.used, added)
    requires l !in added
    ensures var q := AddLayout(p, l);
            && Filed(first, q, more, {}) && MainsAre(q.tables, more, added + {l})
            && UsesAre(first.used, q.tables.used, added + {l})
  {
    hide Filed;
    hide AddLayout;
    hide UsesAre;
    hide MoreUsed;
    hide MainsAre;
    AddTables(p, l);
    AddUses(first.used, p.tables.used, added, l);
    more := LayoutFiled(first, p, roles, l);
    MainsGrow(p.tables, AddLayout(p, l).tables, roles, more, added, l, SolverConstraint(p.tables.made, None));
  }

  lemma MainsGrow(t: Tables, now: Tables, roles: Roles, more: Roles, added: set<Layout>, l: Layout, c: SolverConstraint)
    requires MainsAre(t, roles, added) && now.byLayout == t.byLayout[l := c] && l !in added
    requires c !in roles && RolesGrow(roles[c := Main(l)], more)
    ensures MainsAre(now, more, added + {l})
  {
    forall k, d
      ensures k in added + {l} && now.byLayout[k] == d <==> d in more && more[d] == Main(k)
    {
      if d in roles {
        assert d in roles[c := Main(l)] && more[d] == roles[d];
      } else if d == c {
        assert d in roles[c := Main(l)] && more[d] == Main(l);
      }
    }
  }

  lemma NothingFiled(first: Tables, none: seq<Layout>) returns (roles: Roles)
    requires Tended(first) && none == []
    ensures var p := AddLayouts(Progress(first, []), none);
            && Filed(first, p, roles, {}) && MainsAre(p.tables, roles, Layouts(none))
            && UsesAre(first.used, p.tables.used, Layouts(none))
  {
    roles := map[];
    NoLists(first, roles);
    hide FiledLists;
    hide Tended;
    hide Span;
  }

  lemma NoLists(first: Tables, none: Roles)
    requires Tended(first) && none == map[]
    ensures FiledLists(first, first, none)
  {}

  // ---- what a group of removals recalls

  /** The constraints in `gone` have been recalled once each; the lists file the others. */
  ghost predicate Undone(first: Tables, p: Progress, roles: Roles, gone: set<SolverConstraint>) {
    && Distinct(Recalls(p.events)) && (forall c :: c in Recalls(p.events) <==> c in gone) && gone <= roles.Keys
    && (forall c <- gone :: roles[c].Main? ==> c !in p.tables.supporting)
    && FiledLists(first, p.tables, roles - gone)
  }

  ghost predicate MainsGone(roles: Roles, gone: set<SolverConstraint>, done: set<Layout>) {
    forall c <- roles :: roles[c].Main? ==> (c in gone <==> roles[c].l in done)
  }

  function Members(cs: seq<SolverConstraint>): set<SolverConstraint> { set c | c in cs }

  lemma DistinctJoined(a: seq<SolverConstraint>, b: seq<SolverConstraint>)
    requires Distinct(a) && Distinct(b) && forall c <- b :: c !in a
    ensures Distinct(a + b) && forall c :: c in a + b <==> c in a || c in b
  {
    forall i, j | 0 <= i < j < |a + b| ensures (a + b)[i] != (a + b)[j] {
      if i < |a| <= j {
        assert b[j - |a|] in b;
      }
    }
  }

  lemma FreedLists(first: Tables, t: Tables, now: Tables, roles: Roles, c: SolverConstraint, rest: Roles)
    requires FiledLists(first, t, roles) && c in roles && roles[c].Main? && c.id >= first.made
    requires now.internals == t.internals && now.supporting == t.supporting - {c}
    requires RestOf(roles, [c] + Listing(t.supporting, c), rest)
    ensures FiledLists(first, now, rest)
  {
    InternalsAside(first.internals.Keys, t.internals, roles, rest) by {
      SupportsOf(first, t, roles, c);
      hide FiledLists;
    }
    hide FiledInternals;
    var lost := Listing(t.supporting, c);
    forall k ensures Listing(now.supporting, k) == if k == c then [] else Listing(t.supporting, k) {
    }
    forall k, d
      ensures d in Listing(now.supporting, k) && k.id >= first.made <==> d in rest && rest[d] == Support(k)
    {
      assert d in lost <==> d in roles && roles[d] == Support(c);
      assert d in Listing(t.supporting, k) && k.id >= first.made <==> d in roles && roles[d] == Support(k);
    }
  }

  ghost predicate RestOf(roles: Roles, lost: seq<SolverConstraint>, rest: Roles) {
    && (forall c :: c in rest <==> c in roles && c !in lost)
    && (forall c <- rest :: rest[c] == roles[c])
  }

  lemma FreedUndone(first: Tables, p: Progress, roles: Roles, gone: set<SolverConstraint>, l: Layout)
    returns (more: set<SolverConstraint>)
    requires Undone(first, p, roles, gone) && l in p.tables.byLayout
    requires var c := p.tables.byLayout[l]; c in roles && c !in gone && roles[c].Main? && c.id >= first.made
    ensures Undone(first, Freed(p, l), roles, more) && gone <= more
    ensures forall c <- more - gone :: roles[c].Main? ==> c == p.tables.byLayout[l]
    ensures p.tables.byLayout[l] in more
  {
    hide Freed;
    hide LessUsed;
    hide Recalls;
    hide FiledSupports;
    hide FiledInternals;
    hide Distinct;
    FreedTables(p, l);
    var c := p.tables.byLayout[l];
    var cs := Listing(p.tables.supporting, c);
    SupportsOf(first, p.tables, roles - gone, c);
    more := gone + {c} + Members(cs);
    FreedLists(first, p.tables, Freed(p, l).tables, roles - gone, c, roles - more);
    hide FiledLists;
    hide Listing;
    JustOne(c);
    DistinctJoined(Recalls(p.events), [c]);
    DistinctJoined(Recalls(p.events) + [c], cs);
  }

  lemma JustOne(c: SolverConstraint)
    ensures Distinct([c]) && forall d :: d in [c] <==> d == c
  {}

  lemma SupportsOf(first: Tables, t: Tables, roles: Roles, k: SolverConstraint)
    requires FiledLists(first, t, roles) && k.id >= first.made
    ensures Distinct(Listing(t.supporting, k))
    ensures forall c :: c in Listing(t.supporting, k) <==> c in roles && roles[c] == Support(k)
  {}

  lemma InternalsOf(first: Tables, t: Tables, roles: Roles, v: View)
    requires FiledLists(first, t, roles) && v !in first.internals
    ensures Distinct(Listing(t.internals, v))
    ensures forall c :: c in Listing(t.internals, v) <==> c in roles && roles[c] == Internal(v)
  {}

  lemma EmptiedLists(first: Tables, t: Tables, now: Tables, roles: Roles, view: View, rest: Roles)
    requires FiledLists(first, t, roles) && view !in first.internals
    requires now.supporting == t.supporting && now.internals == t.internals - {view}
    requires RestOf(roles, Listing(t.internals, view), rest)
    ensures FiledLists(first, now, rest)
  {
    SupportsAside(first.made, t.supporting, roles, rest) by {
      InternalsOf(first, t, roles, view);
      hide FiledLists;
    }
    hide FiledSupports;
    var lost := Listing(t.internals, view);
    forall v ensures Listing(now.internals, v) == if v == view then [] else Listing(t.internals, v) {
    }
    forall v, d
      ensures d in Listing(now.internals, v) && v !in first.internals <==> d in rest && rest[d] == Internal(v)
    {
      assert d in lost <==> d in roles && roles[d] == Internal(view);
      assert d in Listing(t.internals, v) && v !in first.internals <==> d in roles && roles[d] == Internal(v);
    }
  }

  lemma ViewUndone(first: Tables, p: Progress, roles: Roles, gone: set<SolverConstraint>, view: View)
    returns (more: set<SolverConstraint>)
    requires Undone(first, p, roles, gone)
    requires Listing(p.tables.used, view) == [] ==> view !in first.internals
    ensures Undone(first, RemoveView(p, view), roles, more) && gone <= more
    ensures forall c <- more - gone :: !roles[c].Main?
  {
    hide RemoveView;
    hide Recalls;
    RemoveViewTables(p, view);
    more := gone;
    if Listing(p.tables.used, view) == [] {
      var cs := Listing(p.tables.internals, view);
      InternalsOf(first, p.tables, roles - gone, view);
      more := gone + Members(cs);
      EmptiedLists(first, p.tables, RemoveView(p, view).tables, roles - gone, view, roles - more);
      hide FiledLists;
      DistinctJoined(Recalls(p.events), cs);
    } else {
      assert Recalls(p.events) + [] == Recalls(p.events);
      SameLists(first, p.tables, RemoveView(p, view).tables, roles - gone);
      hide FiledLists;
    }
  }

  lemma SameLists(first: Tables, t: Tables, now: Tables, roles: Roles)
    requires FiledLists(first, t, roles) && now.supporting == t.supporting && now.internals == t.internals
    ensures FiledLists(first, now, roles)
  {}

  lemma LessUsedCount(used: map<View, seq<Layout>>, l: Layout, v: View, k: Layout)
    requires multiset(Listing(used, v))[l] >= Span(l, v)
    ensures multiset(Listing(LessUsed(used, l), v))[k] ==
      multiset(Listing(used, v))[k] - if k == l then Span(l, v) else 0
  {
    hide RemoveFirst;
    var xs := Listing(used, v);
    FirstCount(xs, l, k);
    FirstCount(RemoveFirst(xs, l), l, k);
    FirstCount(xs, l, l);
  }

  lemma FirstCount(xs: seq<Layout>, l: Layout, k: Layout)
    ensures multiset(RemoveFirst(xs, l))[k] == multiset(xs)[k] - if k == l && l in xs then 1 else 0
    ensures l in xs <==> multiset(xs)[l] > 0
  {
    Counted(xs, l);
    var i := IndexOf(xs, l);
    if i >= 0 {
      hide IndexOf;
      assert xs == xs[..i] + [l] + xs[i + 1..];
      WithoutOne(xs[..i], l, xs[i + 1..], k);
    }
  }

  lemma WithoutOne(a: seq<Layout>, l: Layout, b: seq<Layout>, k: Layout)
    ensures multiset(a + [l] + b)[k] == multiset(a + b)[k] + if k == l then 1 else 0
  {
    assert multiset(a + [l] + b) == multiset(a) + multiset{l} + multiset(b);
  }

  lemma RemoveUses(first: map<View, seq<Layout>>, used: map<View, seq<Layout>>, active: set<Layout>, l: Layout)
    requires UsesAre(first, used, active) && l in active
    ensures UsesAre(first, LessUsed(used, l), active - {l})
  {
    hide LessUsed;
    hide Span;
    forall v, k
      ensures multiset(Listing(LessUsed(used, l), v))[k] ==
        multiset(Listing(first, v))[k] + if k in active - {l} then Span(k, v) else 0
    {
      LessUsedCount(used, l, v, k);
    }
  }

  /** A view used at first is still used. */
  lemma StillUsed(first: map<View, seq<Layout>>, used: map<View, seq<Layout>>, active: set<Layout>, v: View)
    requires UsesAre(first, used, active)
    ensures Listing(used, v) == [] ==> Listing(first, v) == []
    ensures active == {} && Listing(first, v) == [] ==> Listing(used, v) == []
  {
    hide Span;
    var a, b := Listing(first, v), Listing(used, v);
    if a != [] {
      UsesAt(first, used, active, v, a[0]);
    }
    if active == {} && b != [] {
      UsesAt(first, used, active, v, b[0]);
    }
  }

  lemma UsesAt(first: map<View, seq<Layout>>, used: map<View, seq<Layout>>, active: set<Layout>, v: View, l: Layout)
    requires UsesAre(first, used, active)
    ensures l in Listing(first, v) ==> l in Listing(used, v)
    ensures active == {} && l in Listing(used, v) ==> l in Listing(first, v)
  {
    hide Span;
    Counted(Listing(first, v), l);
    Counted(Listing(used, v), l);
    assert multiset(Listing(used, v))[l] == multiset(Listing(first, v))[l] + if l in active then Span(l, v) else 0;
  }

  lemma Counted(xs: seq<Layout>, l: Layout)
    ensures l in xs <==> multiset(xs)[l] > 0
  {}

  /** One layout less. */
  lemma RemoveUndone(first: Tables, p: Progress, roles: Roles, gone: set<SolverConstraint>,
                     all: set<Layout>, done: set<Layout>, l: Layout)
    returns (more: set<SolverConstraint>)
    requires Tended(first) && Undone(first, p, roles, gone) && MainsAre(p.tables, roles, all)
      && MainsGone(roles, gone, done)
    requires forall c <- roles :: c.id >= first.made
    requires UsesAre(first.used, p.tables.used, all - done) && l in all && l !in done
    ensures var q := RemoveLayout(p, l);
            && Undone(first, q, roles, more) && MainsAre(q.tables, roles, all) && MainsGone(roles, more, done + {l})
            && UsesAre(first.used, q.tables.used, all - (done + {l}))
  {
    hide RemoveLayout;
    hide Freed;
    hide LessUsed;
    hide UsesAre;
    hide Undone;
    hide Tended;
    FreedTables(p, l);
    RemoveKeepsMaps(p, l);
    var active := all - (done + {l});
    var next := FreedUndone(first, p, roles, gone, l) by {
      UndoneAt(first, p, roles, gone);
    }
    RemoveUses(first.used, p.tables.used, all - done, l);
    assert all - done - {l} == active;
    more := ViewsUndone(first, Freed(p, l), roles, next, active, l);
    forall c <- roles | roles[c].Main? ensures c in more <==> roles[c].l in done + {l} {
      assert c in more - next || c in next - gone || c in gone || c !in more;
    }
  }

  lemma UndoneAt(first: Tables, p: Progress, roles: Roles, gone: set<SolverConstraint>)
    requires Undone(first, p, roles, gone)
    ensures gone <= roles.Keys
  {}

  lemma ViewsUndone(first: Tables, q: Progress, roles: Roles, gone: set<SolverConstraint>, active: set<Layout>,
                    l: Layout)
    returns (more: set<SolverConstraint>)
    requires Tended(first) && Undone(first, q, roles, gone) && UsesAre(first.used, q.tables.used, active)
    ensures var r := RemoveView(q, l.first); var last := if l.second.Some? then RemoveView(r, l.second.value) else r;
            Undone(first, last, roles, more) && last.tables.used == q.tables.used
    ensures gone <= more && forall c <- more - gone :: c in roles && !roles[c].Main?
  {
    hide RemoveView;
    hide UsesAre;
    hide FiledLists;
    hide Recalls;
    StillUsed(first.used, q.tables.used, active, l.first);
    more := ViewUndone(first, q, roles, gone, l.first);
    RemoveViewTables(q, l.first);
    if l.second.Some? {
      StillUsed(first.used, q.tables.used, active, l.second.value);
      var r := RemoveView(q, l.first);
      var last := ViewUndone(first, r, roles, more, l.second.value);
      RemoveViewTables(r, l.second.value);
      assert last - gone == (more - gone) + (last - more);
      more := last;
    }
  }

  lemma {:induction false} GroupUndone(first: Tables, p: Progress, roles: Roles, all: set<Layout>, ls: seq<Layout>)
    returns (gone: set<SolverConstraint>)
    requires Tended(first) && Undone(first, p, roles, {}) && MainsAre(p.tables, roles, all)
    requires forall c <- roles :: c.id >= first.made
    requires UsesAre(first.used, p.tables.used, all) && Distinct(ls) && Layouts(ls) <= all
    ensures var q := RemoveLayouts(p, ls);
            && Undone(first, q, roles, gone) && MainsAre(q.tables, roles, all) && MainsGone(roles, gone, Layouts(ls))
            && UsesAre(first.used, q.tables.used, all - Layouts(ls))
    decreases |ls|
  {
    hide Tended;
    hide Undone;
    hide MainsAre;
    hide UsesAre;
    hide RemoveLayout;
    if ls == [] {
      gone := {};
      assert all - Layouts(ls) == all;
    } else {
      hide MainsGone;
      hide Layouts;
      var init, l := ls[..|ls| - 1], ls[|ls| - 1];
      LayoutsSnoc(init, l);
      assert ls == init + [l];
      var before := GroupUndone(first, p, roles, all, init);
      gone := RemoveUndone(first, RemoveLayouts(p, init), roles, before, all, Layouts(init), l);
    }
  }

  lemma {:induction false} GroupsTend(p: Progress, ls: seq<Layout>)
    requires Tended(p.tables)
    ensures Tended(AddLayouts(p, ls).tables) && Tended(RemoveLayouts(p, ls).tables)
    decreases |ls|
  {
    hide Tended;
    hide AddLayout;
    hide RemoveLayout;
    if ls != [] {
      var init, l := ls[..|ls| - 1], ls[|ls| - 1];
      GroupsTend(p, init);
      AddTends(AddLayouts(p, init), l);
      RemoveTends(RemoveLayouts(p, init), l);
    }
  }

  /** Once no layout of the group is left, nothing it entered is. */
  lemma EverythingGone(first: Tables, q: Progress, roles: Roles, gone: set<SolverConstraint>, all: set<Layout>)
    requires Tended(first) && Tended(q.tables) && Undone(first, q, roles, gone)
    requires MainsAre(q.tables, roles, all) && MainsGone(roles, gone, all) && UsesAre(first.used, q.tables.used, {})
    requires forall c <- roles :: roles[c].Support? ==>
      roles[c].k in roles && roles[c].k.id >= first.made && roles[roles[c].k].Main?
    ensures gone == roles.Keys
  {
    hide UsesAre;
    hide Recalls;
    hide FiledLists;
    forall c | c in roles ensures c in gone {
      if c !in gone {
        RoleListed(first, q.tables, roles - gone, c);
        if roles[c].Internal? {
          StillUsed(first.used, q.tables.used, {}, roles[c].v);
        }
      }
    }
  }

  lemma RoleListed(first: Tables, t: Tables, roles: Roles, c: SolverConstraint)
    requires FiledLists(first, t, roles) && c in roles
    ensures roles[c].Support? ==> roles[c].k in t.supporting
    ensures roles[c].Internal? ==> roles[c].v in t.internals && roles[c].v !in first.internals
  {
    match roles[c]
    case Main(_) =>
    case Support(k) => assert c in Listing(t.supporting, k);
    case Internal(v) => assert c in Listing(t.internals, v);
  }

  /** Every constraint a group of new layouts submits is recalled once by the removal of the
      same layouts, and no other one is. */
  lemma RecallsAreSubmissions(tables: Tables, ls: seq<Layout>)
    requires Tended(tables) && Distinct(ls)
    ensures var p := AddLayouts(Progress(tables, []), ls); var q := RemoveLayouts(Progress(p.tables, []), ls);
            && Distinct(Recalls(q.events))
            && (forall c :: c in Recalls(q.events) <==> c in Submissions(p.events))
            && (forall c <- Submissions(p.events) :: c.id >= tables.made)
            && Tended(q.tables)
  {
    hide Tended;
    hide AddLayouts;
    hide RemoveLayouts;
    hide UsesAre;
    hide MainsAre;
    hide Layouts;
    hide Submissions;
    var start := Progress(tables, []);
    var roles := GroupFiled(tables, ls);
    GroupsTend(start, ls);
    var p := AddLayouts(start, ls);
    var again := Progress(p.tables, []);
    assert roles - {} == roles;
    var all := Layouts(ls);
    assert all - all == {};
    hide FiledLists;
    var gone := GroupUndone(tables, again, roles, all, ls);
    GroupsTend(again, ls);
    EverythingGone(tables, RemoveLayouts(again, ls), roles, gone, all);
  }

  function GivenOf(cs: seq<SolverConstraint>): set<Posted> {
    set c | c in cs :: Given(c)
  }

  lemma {:induction false} WithdrawEnd(s: Solver, kept: seq<Posted>, rest: seq<Posted>, cs: seq<SolverConstraint>)
    returns (left: seq<Posted>)
    requires s.constraints == kept + rest && forall c <- cs :: Given(c) !in kept
    ensures WithdrawAll(s, cs).constraints == kept + left && WithdrawAll(s, cs).infos == s.infos
    ensures WithdrawAll(s, cs).stands == s.stands - GivenOf(cs)
    ensures forall x <- left :: x in rest && (x.Given? ==> x.c !in cs)
    ensures (forall x <- rest :: x.Given? && x.c in cs) ==> left == []
    decreases |cs|
  {
    left := rest;
    if cs == [] {
      if rest != [] {
        assert rest[0] in rest;
      }
    } else {
      var c := cs[0];
      assert cs == [c] + cs[1..];
      assert GivenOf(cs) == {Given(c)} + GivenOf(cs[1..]);
      RemoveAppend(kept, rest, Given(c));
      RemoveIs(kept, Given(c));
      RemoveIs(rest, Given(c));
      left := WithdrawEnd(Withdraw(s, c), kept, Remove(rest, Given(c)), cs[1..]);
    }
  }

  lemma OwnsAre(vs: seq<Measured>)
    ensures forall x <- Owns(vs) :: x.Own?
  {}

  /** Withdrawing everything that was posted last, once each. */
  lemma WithdrawPosted(s: Solver, kept: seq<Posted>, posted: seq<SolverConstraint>, cs: seq<SolverConstraint>)
    requires s.constraints == kept + Gives(posted) && Distinct(cs)
    requires (forall c :: c in cs <==> c in posted) && forall c <- posted :: Given(c) !in kept
    ensures AllHeld(s, cs) && WithdrawAll(s, cs) == Solver(kept, s.stands - GivenOf(cs), s.infos)
  {
    hide AllHeld;
    hide WithdrawAll;
    hide Gives;
    GivesAre(posted);
    HeldExactly(s, cs);
    var left := WithdrawEnd(s, kept, Gives(posted), cs);
    assert kept + [] == kept;
  }

  /** A group of layouts that is added and removed again leaves the solver with its old
      constraints and the edit constraints it has made itself, which nothing ever recalls.
      Single calls leave the old constraints alone. */
  lemma AddedAndRemoved(o: Oracle, depth: nat, solver: Solver, calls: seq<Call>, tables: Tables, ls: seq<Layout>)
    requires depth > 0 && Tended(tables) && Distinct(ls)
    requires forall c :: Given(c) in solver.constraints ==> c.id < tables.made
    ensures var p := AddLayouts(Progress(tables, []), ls); var q := RemoveLayouts(Progress(p.tables, []), ls);
            var s := State(solver, [], calls);
            var flushed, single := Flushed(o, Play(o, depth, s, p.events)).solver, Play(o, 0, s, p.events).solver;
            && AllHeld(flushed, Recalls(q.events))
            && WithdrawAll(flushed, Recalls(q.events)).constraints ==
                 solver.constraints + Owns(Unmet(solver.infos.Keys, p.events))
            && AllHeld(single, Recalls(q.events))
            && WithdrawAll(single, Recalls(q.events)).constraints == solver.constraints
  {
    hide AddLayouts;
    hide RemoveLayouts;
    hide Play;
    hide Flushed;
    hide Unmet;
    hide Owns;
    hide Gives;
    hide Tended;
    hide Submissions;
    hide Recalls;
    hide AllHeld;
    hide WithdrawAll;
    hide Distinct;
    hide EditsOf;
    hide Prepared;
    var p, s := AddLayouts(Progress(tables, []), ls), State(solver, [], calls);
    var q := RemoveLayouts(Progress(p.tables, []), ls);
    GroupedNone(tables);
    PreparedLayouts(tables.made, Progress(tables, []), ls);
    SameConstraints(o, depth, s, p.events);
    RecallsAreSubmissions(tables, ls);
    var own := Owns(Unmet(solver.infos.Keys, p.events));
    OwnsAre(Unmet(solver.infos.Keys, p.events));
    var flushed, single := Flushed(o, Play(o, depth, s, p.events)).solver, Play(o, 0, s, p.events).solver;
    WithdrawPosted(flushed, solver.constraints + own, Submissions(p.events), Recalls(q.events));
    WithdrawPosted(single, solver.constraints, Submissions(p.events), Recalls(q.events));
  }

  /** Single calls leave the old edit constraints where they stand.  What the solver remembers of
      the new ones outlives them: every variable suggested is left with an info whose constraint
      is gone, and another suggestion for it will move nothing. */
  lemma InfosOutlive(o: Oracle, depth: nat, solver: Solver, calls: seq<Call>, tables: Tables, ls: seq<Layout>)
    requires depth > 0 && Tended(tables) && Distinct(ls) && Known(solver, tables.made)
    ensures var p := AddLayouts(Progress(tables, []), ls); var q := RemoveLayouts(Progress(p.tables, []), ls);
            var s := State(solver, [], calls);
            var flushed, single := Flushed(o, Play(o, depth, s, p.events)).solver, Play(o, 0, s, p.events).solver;
            var group, again := WithdrawAll(flushed, Recalls(q.events)), WithdrawAll(single, Recalls(q.events));
            && again.stands == solver.stands
            && (forall v <- EditsOf(Submissions(p.events)) ::
                 && v in again.infos && again.infos[v].of !in again.stands
                 && v in group.infos && group.infos[v].of !in group.stands)
  {
    hide AddLayouts;
    hide RemoveLayouts;
    hide Play;
    hide Flushed;
    hide Tended;
    hide Submissions;
    hide Recalls;
    hide AllHeld;
    hide WithdrawAll;
    hide Distinct;
    hide Prepared;
    hide SingleStands;
    hide Refreshed;
    hide Remembered;
    var p, s := AddLayouts(Progress(tables, []), ls), State(solver, [], calls);
    var q := RemoveLayouts(Progress(p.tables, []), ls);
    var cs := Recalls(q.events);
    RecallsAreSubmissions(tables, ls);
    GroupedNone(tables);
    PreparedLayouts(tables.made, Progress(tables, []), ls);
    ResolvedIsSubmitted(p.events);
    hide EditsOf;
    PlaySingly(o, s, p.events);
    SingleKeys(o, calls, solver.stands, p.events);
    var grouped := Play(o, depth, s, p.events);
    PlayGrouped(o, depth, s, p.events);
    assert [] + Submissions(p.events) == Submissions(p.events);
    FlushedIs(o, grouped);
    InfosAre(o, grouped.calls, grouped.solver.infos, solver.infos, p.events);
    var flushed, single := Flushed(o, grouped).solver, Play(o, 0, s, p.events).solver;
    var left := WithdrawEnd(flushed, [], flushed.constraints, cs);
    left := WithdrawEnd(single, [], single.constraints, cs);
    assert single.stands - GivenOf(cs) == solver.stands;
  }

  // ---- a layout that is added, removed and added again

  /** A view with an intrinsic width, and a layout for it. */
  const WIDE := View(0, true, false)
  const WIDTH := Measured(WIDE, Width)
  const PLACED := Layout(0, WIDE, Leading, None, OtherAttribute)

  function Plain(id: nat): Event {
    Submit(SolverConstraint(id, None))
  }

  lemma PlacedEvents(t: Tables)
    requires WIDE !in t.internals
    ensures var p, m := AddLayout(Progress(t, []), PLACED), t.made;
            && p.events == [Plain(m + 1), Plain(m + 2), Submit(SolverConstraint(m + 3, Some(WIDTH))), Resolve(WIDTH),
                            Plain(m + 4), Plain(m + 5), Plain(m + 6), Plain(m)]
            && p.tables.made == m + 7
  {
    var p := AddLayout(Progress(t, []), PLACED);
  }

  lemma PlacedAndRemoved(t: Tables)
    requires Tended(t) && WIDE !in t.internals
    ensures var q := RemoveLayout(Progress(AddLayout(Progress(t, []), PLACED).tables, []), PLACED);
            Tended(q.tables) && WIDE !in q.tables.internals && q.tables.made == t.made + 7
  {
    hide AddLayout;
    hide RemoveLayout;
    hide RemoveView;
    hide Freed;
    var p := AddLayout(Progress(t, []), PLACED);
    PlacedEvents(t);
    AddTables(Progress(t, []), PLACED);
    AddTends(Progress(t, []), PLACED);
    var again := Progress(p.tables, []);
    RemoveTends(again, PLACED);
    FreedTables(again, PLACED);
    RemoveViewTables(Freed(again, PLACED), WIDE);
    RemoveKeepsMaps(again, PLACED);
    assert Listing(t.used, WIDE) == [];
    assert RemoveFirst([PLACED], PLACED) == [];
  }

  lemma OneLayout(p: Progress, l: Layout)
    ensures AddLayouts(p, [l]) == AddLayout(p, l) && RemoveLayouts(p, [l]) == RemoveLayout(p, l)
  {
    assert [l][..0] == [];
  }

  /** The group leaves the new width constraint at what the width reports, single calls bring it
      to the intrinsic width, as long as no error variable is basic. */
  ghost predicate LeftBehind(o: Oracle, calls: seq<Call>, m: nat, group: Solver, single: Solver) {
    var c := SolverConstraint(m + 3, Some(WIDTH));
    && group.constraints == single.constraints && Given(c) in group.constraints
    && Given(c) in group.stands && group.stands[Given(c)] == o.value(calls, WIDTH)
    && Given(c) in single.stands
    && (!o.basic(calls + Singles(o, [Plain(m + 1), Plain(m + 2), Submit(c)]), WIDTH) ==>
         single.stands[Given(c)] == o.size(WIDTH))
  }

  /** The layout is added and removed by single calls, and then added again.  In a group its new
      width constraint is left at what the width has fallen to: the suggestion meets the info of
      the old one, which is gone. */
  lemma ReaddedStaysBehind(o: Oracle, depth: nat, s: State, t: Tables)
    requires depth > 0 && s.pending == [] && Tended(t) && Known(s.solver, t.made) && WIDE !in t.internals
    ensures var p := AddLayouts(Progress(t, []), [PLACED]); var q := RemoveLayouts(Progress(p.tables, []), [PLACED]);
            var left := Play(o, 0, Play(o, 0, s, p.events), q.events);
            var again := AddLayouts(Progress(q.tables, []), [PLACED]).events;
            LeftBehind(o, left.calls, t.made + 7, Flushed(o, Play(o, depth, left, again)).solver,
                       Play(o, 0, left, again).solver)
  {
    hide AddLayout;
    hide RemoveLayout;
    hide LeftBehind;
    hide Play;
    hide Flushed;
    hide Known;
    hide Submissions;
    var start := Progress(t, []);
    OneLayout(start, PLACED);
    var p := AddLayouts(start, [PLACED]);
    OneLayout(Progress(p.tables, []), PLACED);
    var q := RemoveLayouts(Progress(p.tables, []), [PLACED]);
    OneLayout(Progress(q.tables, []), PLACED);
    hide AddLayouts;
    hide RemoveLayouts;
    PlacedEvents(t);
    PlacedAndRemoved(t);
    PlacedEvents(q.tables);
    var left := Play(o, 0, Play(o, 0, s, p.events), q.events);
    RemovedIsLeft(o, depth, s, t, PLACED);
    SubmittedIs(p.events, 2);
    var c := SolverConstraint(t.made + 3, Some(WIDTH));
    assert c in Submissions(p.events);
    assert WIDTH in EditsOf(Submissions(p.events));
    GroupedNone(q.tables);
    PreparedLayouts(q.tables.made, Progress(q.tables, []), [PLACED]);
    ReaddedDiffers(o, depth, left, AddLayouts(Progress(q.tables, []), [PLACED]).events, t.made + 7);
  }

  lemma RemovedIsLeft(o: Oracle, depth: nat, s: State, t: Tables, l: Layout)
    requires depth > 0 && s.pending == [] && Tended(t) && Known(s.solver, t.made)
    ensures var p := AddLayouts(Progress(t, []), [l]); var q := RemoveLayouts(Progress(p.tables, []), [l]);
            var left := Play(o, 0, Play(o, 0, s, p.events), q.events);
            && left.pending == [] && Known(left.solver, p.tables.made)
            && forall v <- EditsOf(Submissions(p.events)) ::
                 v in left.solver.infos && left.solver.infos[v].of !in left.solver.stands
  {
    var p := AddLayouts(Progress(t, []), [l]);
    var q := RemoveLayouts(Progress(p.tables, []), [l]);
    OneLayout(Progress(p.tables, []), l);
    RemoveLayoutOnly(Progress(p.tables, []), l);
    hide AddLayouts;
    hide RemoveLayouts;
    hide RemoveLayout;
    hide Play;
    hide WithdrawAll;
    hide Known;
    hide Submissions;
    InfosOutlive(o, depth, s.solver, s.calls, t, [l]);
    PlayRecalls(o, 0, Play(o, 0, s, p.events), q.events);
    GroupAgainstSingle(o, depth, s.solver, s.calls, t, [l]);
    NoSubmissions(q.events);
    PlayKnows(o, 0, Play(o, 0, s, p.events), q.events, p.tables.made);
  }

  lemma {:induction false} NoSubmissions(events: seq<Event>)
    requires OnlyRecalls(events)
    ensures Submissions(events) == []
    decreases |events|
  {
    if events != [] {
      assert events[|events| - 1] in events;
      NoSubmissions(events[..|events| - 1]);
    }
  }

  lemma {:induction false} SubmissionIsEvent(events: seq<Event>, c: SolverConstraint)
    requires c in Submissions(events)
    ensures Submit(c) in events
    decreases |events|
  {
    if !events[|events| - 1].Submit? || events[|events| - 1].c != c {
      SubmissionIsEvent(events[..|events| - 1], c);
    }
  }

  lemma ReaddedDiffers(o: Oracle, depth: nat, s: State, events: seq<Event>, m: nat)
    requires depth > 0 && s.pending == [] && Known(s.solver, m)
    requires Prepared(events) && forall c <- Submissions(events) :: c.id >= m
    requires WIDTH in s.solver.infos && s.solver.infos[WIDTH].of !in s.solver.stands
    requires events == [Plain(m + 1), Plain(m + 2), Submit(SolverConstraint(m + 3, Some(WIDTH))), Resolve(WIDTH),
                        Plain(m + 4), Plain(m + 5), Plain(m + 6), Plain(m)]
    ensures LeftBehind(o, s.calls, m, Flushed(o, Play(o, depth, s, events)).solver, Play(o, 0, s, events).solver)
  {
    hide Play;
    hide Flushed;
    hide Known;
    hide Prepared;
    hide Submissions;
    var c := SolverConstraint(m + 3, Some(WIDTH));
    forall d <- Submissions(events) ensures d.edits.None? || d.edits == Some(WIDTH) {
      SubmissionIsEvent(events, d);
    }
    SubmittedIs(events, 2);
    SameConstraints(o, depth, s, events);
    NewOnesStand(o, depth, s, events, m, 2);
    GivesAre(Submissions(events));
    PlacedCalls(o, s.calls, m);
    assert events[..2] == [Plain(m + 1), Plain(m + 2)];
  }

  lemma PlacedCalls(o: Oracle, calls: seq<Call>, m: nat)
    ensures var plain, c := [Plain(m + 1), Plain(m + 2)], SolverConstraint(m + 3, Some(WIDTH));
            && calls + Suggestions(o, plain) == calls
            && calls + Singles(o, plain) + [Entered(Given(c)), Solved]
              == calls + Singles(o, [Plain(m + 1), Plain(m + 2), Submit(c)])
  {
    var plain, c := [Plain(m + 1), Plain(m + 2)], SolverConstraint(m + 3, Some(WIDTH));
    assert plain[..1] == [Plain(m + 1)] && [Plain(m + 1)][..0] == [];
    assert Suggestions(o, [Plain(m + 1)]) == [];
    assert Suggestions(o, plain) == [];
    var events := [Plain(m + 1), Plain(m + 2), Submit(c)];
    assert events[..2] == plain;
    assert Singles(o, events) == Singles(o, plain) + [Entered(Given(c)), Solved];
  }

  /** Removing a layout again makes the solver raise: the maps keep their entry for it. */
  lemma RemovedTwiceRaises(o: Oracle, s: State, tables: Tables, l: Layout)
    requires l in tables.byLayout
    ensures var q := RemoveLayout(Progress(tables, []), l);
            !Held(o, 0, Play(o, 0, s, q.events), RemoveLayout(Progress(q.tables, []), l).events)
  {
    hide RemoveLayout;
    hide RemoveView;
    hide Freed;
    hide Play;
    hide Recalls;
    var p := Progress(tables, []);
    var q, c := RemoveLayout(p, l), tables.byLayout[l];
    RemoveKeepsMaps(p, l);
    FreedTables(p, l);
    RemoveViewTables(Freed(p, l), l.first);
    if l.second.Some? {
      RemoveViewTables(RemoveView(Freed(p, l), l.first), l.second.value);
    }
    assert c in Recalls(p.events) + [c];
    assert c in Recalls(q.events);
    RemoveLayoutOnly(p, l);
    PlayRecalls(o, 0, s, q.events);
    var t, solver := Play(o, 0, s, q.events), s.solver;
    assert [] + solver.constraints == solver.constraints;
    var left := WithdrawEnd(solver, [], solver.constraints, Recalls(q.events));
    assert [] + left == left;
    var again := Progress(q.tables, []);
    RemovalSteps(o, 0, t, again, l);
    RecallOfMissing(o, t, c);
  }

  lemma RecallOfMissing(o: Oracle, s: State, c: SolverConstraint)
    requires Given(c) !in s.solver.constraints
    ensures !Held(o, 0, s, [] + [Recall(c)])
  {
    PlaySnoc(o, 0, s, [], Recall(c));
    PlayNone(o, 0, s);
  }
}
