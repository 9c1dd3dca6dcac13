/** The key binding tables of Source/GSKeyBindingTable.m.  Key names come parsed, as
    `parseKey:intoCharacter:andModifiers:` leaves them (Source/NSInputManager.m). */
module KeyBindings {
  import opened Options

  datatype Modifier = Shift | Control | Alternate | NumericPad | Function

  datatype Stroke = Stroke(character: char, modifiers: set<Modifier>)

  /** Shift counts for function keys only, and the mark of a function key is not stored. */
  function Normalised(s: Stroke): Stroke {
    Stroke(s.character,
           s.modifiers * if Function in s.modifiers then {Shift, Alternate, Control, NumericPad}
                         else {Alternate, Control, NumericPad})
  }

  datatype Action = OneSelector(name: string) | ManySelectors(names: seq<string>) | Prebuilt(id: nat)

  /** What a key may be bound to; `Unknown` is an object of no class the method knows. */
  datatype Value = Name(name: string) | Names(names: seq<string>) | Special(id: nat) | Unknown
    | Dictionary(entries: seq<Entry>)

  /** A key is a string or an array of strings; `None` is a key that does not parse. */
  datatype Entry = Entry(keys: seq<Option<Stroke>>, value: Value)

  function ActionOf(value: Value): Option<Action> {
    match value
    case Name(name) => if name == "" then None else Some(OneSelector(name))
    case Names(names) => Some(ManySelectors(names))
    case Special(id) => Some(Prebuilt(id))
    case Unknown => None
    case Dictionary(_) => None
  }

  datatype Table = Nil | Table(bindings: seq<Binding>)

  datatype Binding = Binding(stroke: Stroke, action: Option<Action>, table: Table)

  // ---- loading, on values

  /** The number of key names in a value and below: what loading works off. */
  function NamesBelow(value: Value): nat {
    if value.Dictionary? then NamesIn(value.entries) else 0
  }

  function NamesIn(entries: seq<Entry>): nat {
    if entries == [] then 0 else |entries[0].keys| + NamesBelow(entries[0].value) + NamesIn(entries[1..])
  }

  function Find(bindings: seq<Binding>, s: Stroke): (i: int)
    ensures -1 <= i < |bindings|
    ensures i >= 0 ==> bindings[i].stroke == s
    ensures forall j :: 0 <= j < (if i < 0 then |bindings| else i) ==> bindings[j].stroke != s
  {
    if bindings == [] then -1
    else if bindings[0].stroke == s then 0
    else var i := Find(bindings[1..], s); if i < 0 then -1 else i + 1
  }

  function Below(bindings: seq<Binding>, s: Stroke): seq<Binding> {
    var i := Find(bindings, s);
    if i >= 0 && bindings[i].table.Table? then bindings[i].table.bindings else []
  }

  function Put(bindings: seq<Binding>, b: Binding): seq<Binding> {
    var i := Find(bindings, b.stroke);
    if i < 0 then bindings + [b] else bindings[i := b]
  }

  function Bind(bindings: seq<Binding>, keys: seq<Option<Stroke>>, value: Value): seq<Binding>
    decreases |keys| + NamesBelow(value), 0, 0
  {
    if keys == [] || keys[0].None? then bindings
    else
      var s := Normalised(keys[0].value);
      if |keys| > 1 then Put(bindings, Binding(s, None, Table(Bind(Below(bindings, s), keys[1..], value))))
      else if value.Dictionary? then Put(bindings, Binding(s, None, Table(Load(Below(bindings, s), value.entries))))
      else Put(bindings, Binding(s, ActionOf(value), Nil))
  }

  function Load(bindings: seq<Binding>, entries: seq<Entry>): seq<Binding>
    decreases NamesIn(entries), 1, |entries|
  {
    if entries == [] then bindings
    else Load(Bind(bindings, entries[0].keys, entries[0].value), entries[1..])
  }

  /** The temporary dictionaries `bindKey:toAction:` builds for an array of keys. */
  function Nested(keys: seq<Option<Stroke>>, value: Value): Value {
    if keys == [] then value else Dictionary([Entry([keys[0]], Nested(keys[1..], value))])
  }

  lemma {:induction false} NestedNames(keys: seq<Option<Stroke>>, value: Value)
    ensures NamesBelow(Nested(keys, value)) == |keys| + NamesBelow(value)
    decreases |keys|
  {
    if keys != [] {
      NestedNames(keys[1..], value);
      var e := Entry([keys[0]], Nested(keys[1..], value));
      assert [e][1..] == [] && NamesIn([e]) == 1 + NamesBelow(e.value) + NamesIn([]);
    }
  }

  /** Binding the first key to the temporary dictionaries is binding the whole array. */
  lemma {:induction false} NestedBinds(bindings: seq<Binding>, key: Option<Stroke>, keys: seq<Option<Stroke>>,
                                       value: Value)
    ensures Bind(bindings, [key], Nested(keys, value)) == Bind(bindings, [key] + keys, value)
    decreases |keys|
  {
    if keys == [] {
      assert [key] + keys == [key];
    } else if key.Some? {
      var below := Below(bindings, Normalised(key.value));
      assert ([key] + keys)[1..] == keys && keys == [keys[0]] + keys[1..];
      NestedBinds(below, keys[0], keys[1..], value);
      LoadOne(below, Entry([keys[0]], Nested(keys[1..], value)));
    }
  }

  lemma LoadOne(bindings: seq<Binding>, e: Entry)
    ensures Load(bindings, [e]) == Bind(bindings, e.keys, e.value)
  {
    assert [e][1..] == [];
  }

  function StrokesOf(bindings: seq<Binding>): set<Stroke> {
    set b | b in bindings :: b.stroke
  }

  class KeyBindingTable {
    var bindings: seq<Binding>

    constructor (bindings: seq<Binding>)
      ensures this.bindings == bindings
    {
      this.bindings := bindings;
    }

    /** `loadBindingsFromDictionary:`, in the order the dictionary enumerates its keys. */
    method LoadBindingsFromDictionary(entries: seq<Entry>)
      modifies this
      ensures bindings == Load(old(bindings), entries)
      decreases NamesIn(entries), 1
    {
      for i := 0 to |entries|
        invariant Load(bindings, entries[i..]) == Load(old(bindings), entries)
        invariant NamesIn(entries[i..]) <= NamesIn(entries)
      {
        assert entries[i..][1..] == entries[i + 1..];
        BindKey(entries[i].keys, entries[i].value);
      }
    }

    /** `bindKey:toAction:` */
    method BindKey(keys: seq<Option<Stroke>>, value: Value)
      modifies this
      ensures bindings == Bind(old(bindings), keys, value)
      decreases |keys| + NamesBelow(value), 0
    {
      if |keys| == 0 {
        return;
      }
      var action := value;
      for j := |keys| downto 1
        invariant action == Nested(keys[j..], value)
      {
        assert keys[j..][1..] == keys[j + 1..];
        action := Dictionary([Entry([keys[j]], action)]);
      }
      NestedNames(keys[1..], value);
      NestedBinds(bindings, keys[0], keys[1..], value);
      assert [keys[0]] + keys[1..] == keys;
      if keys[0].None? {
        return;
      }
      var stroke := Normalised(keys[0].value);
      var table := Nil;
      for i := 0 to |bindings|
        invariant bindings == old(bindings)
        invariant forall j :: 0 <= j < i ==> bindings[j].stroke != stroke
      {
        if bindings[i].stroke == stroke {
          assert Find(bindings, stroke) == i;
          if action.Dictionary? {
            var t := new KeyBindingTable(if bindings[i].table.Table? then bindings[i].table.bindings else []);
            t.LoadBindingsFromDictionary(action.entries);
            table := Table(t.bindings);
          }
          bindings := bindings[i := Binding(stroke, ActionOf(action), table)];
          return;
        }
      }
      if action.Dictionary? {
        var t := new KeyBindingTable([]);
        t.LoadBindingsFromDictionary(action.entries);
        table := Table(t.bindings);
      }
      bindings := bindings + [Binding(stroke, ActionOf(action), table)];
    }

    /** `lookupKeyStroke:modifiers:returningActionIn:tableIn:` */
    method LookupKeyStroke(s: Stroke) returns (found: bool, action: Option<Action>, table: Table)
      ensures (if found then Some((action, table)) else None) == Lookup(bindings, s)
      ensures forall i: nat | i < |bindings| && bindings[i].stroke == s && s !in StrokesOf(bindings[..i]) ::
                if bindings[i].action.None? && bindings[i].table.Nil? then !found
                else found && action == bindings[i].action && table == bindings[i].table
      ensures s !in StrokesOf(bindings) ==> !found
    {
      action, table := None, Nil;
      for i := 0 to |bindings|
        invariant forall j :: 0 <= j < i ==> bindings[j].stroke != s
      {
        if bindings[i].stroke == s {
          assert Find(bindings, s) == i;
          if bindings[i].action.None? && bindings[i].table.Nil? {
            return false, action, table;
          }
          return true, bindings[i].action, bindings[i].table;
        }
      }
      return false, action, table;
    }
  }

  function Lookup(bindings: seq<Binding>, s: Stroke): Option<(Option<Action>, Table)> {
    var i := Find(bindings, s);
    if i < 0 || (bindings[i].action.None? && bindings[i].table.Nil?) then None
    else Some((bindings[i].action, bindings[i].table))
  }

  /** Following the returned tables stroke by stroke. */
  function Walk(bindings: seq<Binding>, strokes: seq<Stroke>): Option<Action>
    decreases |strokes|
  {
    if strokes == [] then None
    else
      var found := Lookup(bindings, strokes[0]);
      if found.None? then None
      else if |strokes| == 1 then found.value.0
      else if found.value.1.Nil? then None
      else Walk(found.value.1.bindings, strokes[1..])
  }

  // ---- the flat map

  type KeyMap = seq<Stroke> -> Option<Action>

  /** An edit of a flat map: bind a sequence, or make room below it. */
  datatype Edit = Assign(path: seq<Stroke>, action: Option<Action>) | Open(path: seq<Stroke>)

  /** A sequence that is assigned displaces its prefixes and its extensions; one that is
      opened displaces itself and its prefixes. */
  ghost function Apply(e: Edit, m: KeyMap): KeyMap {
    (w: seq<Stroke>) =>
      if e.Assign? && w == e.path then e.action
      else if w != [] && w <= e.path then None
      else if e.Assign? && e.path <= w then None
      else m(w)
  }

  ghost function ApplyAll(edits: seq<Edit>, m: KeyMap): KeyMap {
    if edits == [] then m else ApplyAll(edits[1..], Apply(edits[0], m))
  }

  function Under(s: Stroke, edits: seq<Edit>): seq<Edit> {
    if edits == [] then []
    else [edits[0].(path := [s] + edits[0].path)] + Under(s, edits[1..])
  }

  /** The edits one entry of a binding dictionary stands for. */
  function Edits(keys: seq<Option<Stroke>>, value: Value): seq<Edit>
    decreases |keys| + NamesBelow(value), 0, 0
  {
    if keys == [] || keys[0].None? then []
    else
      var s := Normalised(keys[0].value);
      if |keys| > 1 then [Open([s])] + Under(s, Edits(keys[1..], value))
      else if value.Dictionary? then [Open([s])] + Under(s, AllEdits(value.entries))
      else [Assign([s], ActionOf(value))]
  }

  function AllEdits(entries: seq<Entry>): seq<Edit>
    decreases NamesIn(entries), 1, |entries|
  {
    if entries == [] then [] else Edits(entries[0].keys, entries[0].value) + AllEdits(entries[1..])
  }

  ghost predicate Agree(m: KeyMap, n: KeyMap) {
    forall w: seq<Stroke> :: w != [] ==> m(w) == n(w)
  }

  ghost function MapOf(bindings: seq<Binding>): KeyMap {
    (w: seq<Stroke>) => Walk(bindings, w)
  }

  lemma FindPut(bindings: seq<Binding>, b: Binding, s: Stroke)
    ensures var i := Find(Put(bindings, b), s);
            if s == b.stroke then i >= 0 && Put(bindings, b)[i] == b
            else Lookup(Put(bindings, b), s) == Lookup(bindings, s)
  {
    var after := Put(bindings, b);
    var i, j := Find(bindings, s), Find(after, s);
    if s == b.stroke {
      var k := if i < 0 then |bindings| else i;
      assert after[k] == b;
    } else if i >= 0 {
      assert after[i] == bindings[i];
    }
  }

  lemma {:induction false} ApplyAgrees(edits: seq<Edit>, m: KeyMap, n: KeyMap)
    requires Agree(m, n)
    ensures Agree(ApplyAll(edits, m), ApplyAll(edits, n))
    decreases |edits|
  {
    if edits != [] {
      ApplyAgrees(edits[1..], Apply(edits[0], m), Apply(edits[0], n));
    }
  }

  lemma {:induction false} ApplyAppend(a: seq<Edit>, b: seq<Edit>, m: KeyMap)
    ensures ApplyAll(a + b, m) == ApplyAll(b, ApplyAll(a, m))
    decreases |a|
  {
    if a == [] {
      assert a + b == b;
    } else {
      assert (a + b)[1..] == a[1..] + b;
      ApplyAppend(a[1..], b, Apply(a[0], m));
    }
  }

  /** What edits below a stroke do to the map, seen from that stroke. */
  ghost function Seen(s: Stroke, m: KeyMap): KeyMap {
    (w: seq<Stroke>) => m([s] + w)
  }

  lemma ApplyUnder(s: Stroke, e: Edit, m: KeyMap)
    requires e.path != []
    ensures var after := Apply(e.(path := [s] + e.path), m);
            && Agree(Seen(s, after), Apply(e, Seen(s, m)))
            && (m([s]) == None ==> after([s]) == None)
            && forall w: seq<Stroke> :: w != [] && w[0] != s ==> after(w) == m(w)
  {
    var f := e.(path := [s] + e.path);
    var after := Apply(f, m);
    forall w: seq<Stroke> | w != [] ensures Seen(s, after)(w) == Apply(e, Seen(s, m))(w) {
      PrefixUnder(s, w, e.path);
      PrefixUnder(s, e.path, w);
    }
    assert f.path[0] == s;
  }

  lemma PrefixUnder(s: Stroke, a: seq<Stroke>, b: seq<Stroke>)
    ensures [s] + a <= [s] + b <==> a <= b
    ensures [s] + a == [s] + b <==> a == b
  {
    assert ([s] + a)[1..] == a && ([s] + b)[1..] == b;
    if a <= b {
      assert [s] + b == ([s] + a) + b[|a|..];
    }
    if [s] + a <= [s] + b {
      assert b[..|a|] == ([s] + b)[..|a| + 1][1..];
    }
  }

  lemma {:induction false} ApplyAllUnder(s: Stroke, edits: seq<Edit>, m: KeyMap, n: KeyMap)
    requires forall e <- edits :: e.path != []
    requires Agree(Seen(s, m), n) && m([s]) == None
    ensures var after := ApplyAll(Under(s, edits), m);
            && Agree(Seen(s, after), ApplyAll(edits, n))
            && after([s]) == None
            && forall w: seq<Stroke> :: w != [] && w[0] != s ==> after(w) == m(w)
    decreases |edits|
  {
    if edits != [] {
      var e := edits[0];
      ApplyUnder(s, e, m);
      ApplyAgrees([e], Seen(s, m), n);
      assert [e][1..] == [];
      assert Under(s, edits)[1..] == Under(s, edits[1..]);
      ApplyAllUnder(s, edits[1..], Apply(e.(path := [s] + e.path), m), Apply(e, n));
    }
  }

  lemma WalkBelow(bindings: seq<Binding>, s: Stroke, w: seq<Stroke>)
    requires w != []
    ensures Walk(bindings, [s] + w) == Walk(Below(bindings, s), w)
  {
    assert ([s] + w)[1..] == w;
  }

  /** The table after a stroke is bound to a table, or to an action. */
  lemma WalkPut(bindings: seq<Binding>, b: Binding)
    requires b.action.None? || b.table.Nil?
    ensures var after := Put(bindings, b);
            && Walk(after, [b.stroke]) == b.action
            && (forall w: seq<Stroke> :: w != [] && w[0] != b.stroke ==> Walk(after, w) == Walk(bindings, w))
            && Agree(Seen(b.stroke, MapOf(after)), MapOf(if b.table.Table? then b.table.bindings else []))
  {
    var after := Put(bindings, b);
    FindPut(bindings, b, b.stroke);
    forall w: seq<Stroke> | w != [] && w[0] != b.stroke ensures Walk(after, w) == Walk(bindings, w) {
      FindPut(bindings, b, w[0]);
    }
    forall w: seq<Stroke> | w != []
      ensures Walk(after, [b.stroke] + w) == Walk(if b.table.Table? then b.table.bindings else [], w)
    {
      WalkBelow(after, b.stroke, w);
    }
  }

  lemma UnderPaths(s: Stroke, edits: seq<Edit>)
    ensures forall e <- Under(s, edits) :: e.path != []
    decreases |edits|
  {
    if edits != [] {
      UnderPaths(s, edits[1..]);
    }
  }

  lemma EditsPaths(keys: seq<Option<Stroke>>, value: Value)
    ensures forall e <- Edits(keys, value) :: e.path != []
  {
    if keys != [] && keys[0].Some? {
      var s := Normalised(keys[0].value);
      if |keys| > 1 {
        UnderPaths(s, Edits(keys[1..], value));
      } else if value.Dictionary? {
        UnderPaths(s, AllEdits(value.entries));
      }
    }
  }

  lemma {:induction false} AllEditsPaths(entries: seq<Entry>)
    ensures forall e <- AllEdits(entries) :: e.path != []
    decreases |entries|
  {
    if entries != [] {
      EditsPaths(entries[0].keys, entries[0].value);
      AllEditsPaths(entries[1..]);
    }
  }

  /** Binding a stroke to a table whose map is edited. */
  lemma TableMeans(bindings: seq<Binding>, s: Stroke, below: seq<Binding>, edits: seq<Edit>)
    requires forall e <- edits :: e.path != []
    requires Agree(MapOf(below), ApplyAll(edits, MapOf(Below(bindings, s))))
    ensures Agree(MapOf(Put(bindings, Binding(s, None, Table(below)))),
                  ApplyAll([Open([s])] + Under(s, edits), MapOf(bindings)))
  {
    var b := Binding(s, None, Table(below));
    var after, cleared := Put(bindings, b), Apply(Open([s]), MapOf(bindings));
    WalkPut(bindings, b);
    assert ([Open([s])] + Under(s, edits))[1..] == Under(s, edits);
    forall w: seq<Stroke> | w != [] ensures Seen(s, cleared)(w) == MapOf(Below(bindings, s))(w) {
      WalkBelow(bindings, s, w);
    }
    ApplyAllUnder(s, edits, cleared, MapOf(Below(bindings, s)));
    var edited := ApplyAll(Under(s, edits), cleared);
    forall w: seq<Stroke> | w != [] ensures MapOf(after)(w) == edited(w) {
      if w[0] == s {
        var tail := w[1..];
        assert w == [s] + tail;
        if tail == [] {
          assert w == [s];
        } else {
          assert Seen(s, MapOf(after))(tail) == MapOf(after)(w) && Seen(s, edited)(tail) == edited(w);
          assert MapOf(below)(tail) == ApplyAll(edits, MapOf(Below(bindings, s)))(tail);
        }
      }
    }
  }

  /** Walking the tables after a binding gives what the flat map gives after its edits. */
  lemma {:induction false} BindMeans(bindings: seq<Binding>, keys: seq<Option<Stroke>>, value: Value)
    ensures Agree(MapOf(Bind(bindings, keys, value)), ApplyAll(Edits(keys, value), MapOf(bindings)))
    decreases |keys| + NamesBelow(value), 0, 0
  {
    if keys != [] && keys[0].Some? {
      var s := Normalised(keys[0].value);
      var below := Below(bindings, s);
      if |keys| > 1 {
        BindMeans(below, keys[1..], value);
        EditsPaths(keys[1..], value);
        TableMeans(bindings, s, Bind(below, keys[1..], value), Edits(keys[1..], value));
      } else if value.Dictionary? {
        LoadMeans(below, value.entries);
        AllEditsPaths(value.entries);
        TableMeans(bindings, s, Load(below, value.entries), AllEdits(value.entries));
      } else {
        AssignMeans(bindings, s, ActionOf(value));
      }
    }
  }

  lemma AssignMeans(bindings: seq<Binding>, s: Stroke, a: Option<Action>)
    ensures Agree(MapOf(Put(bindings, Binding(s, a, Nil))), ApplyAll([Assign([s], a)], MapOf(bindings)))
  {
    var after, edited := Put(bindings, Binding(s, a, Nil)), Apply(Assign([s], a), MapOf(bindings));
    WalkPut(bindings, Binding(s, a, Nil));
    assert [Assign([s], a)][1..] == [];
    forall w: seq<Stroke> | w != [] ensures MapOf(after)(w) == edited(w) {
      if w[0] == s {
        assert w == [s] + w[1..];
        if w[1..] != [] {
          assert Seen(s, MapOf(after))(w[1..]) == MapOf(after)(w);
        }
      }
    }
  }

  /** Loading a dictionary, however deep, edits the flat map entry by entry: what a sequence
      of strokes does never depends on how the tables are nested. */
  lemma {:induction false} LoadMeans(bindings: seq<Binding>, entries: seq<Entry>)
    ensures Agree(MapOf(Load(bindings, entries)), ApplyAll(AllEdits(entries), MapOf(bindings)))
    decreases NamesIn(entries), 1, |entries|
  {
    if entries != [] {
      var e := entries[0];
      BindMeans(bindings, e.keys, e.value);
      LoadMeans(Bind(bindings, e.keys, e.value), entries[1..]);
      ApplyAppend(Edits(e.keys, e.value), AllEdits(entries[1..]), MapOf(bindings));
      ApplyAgrees(AllEdits(entries[1..]), MapOf(Bind(bindings, e.keys, e.value)),
        ApplyAll(Edits(e.keys, e.value), MapOf(bindings)));
    }
  }

  // ---- which stroke a key binds

  /** `t` is the stroke that is stored for the key `s`: the same character, Alternate, Control and
      the number pad as in the key, Shift only where the key is a function key, and never the mark
      of a function key. */
  predicate StoredFor(t: Stroke, s: Stroke) {
    && t.character == s.character
    && (Alternate in t.modifiers <==> Alternate in s.modifiers)
    && (Control in t.modifiers <==> Control in s.modifiers)
    && (NumericPad in t.modifiers <==> NumericPad in s.modifiers)
    && (Shift in t.modifiers <==> Shift in s.modifiers && Function in s.modifiers)
    && Function !in t.modifiers
  }

  /** There is exactly one such stroke. */
  lemma StoredForOne(s: Stroke, t: Stroke)
    ensures StoredFor(t, s) <==> t == Normalised(s)
  {
    if StoredFor(t, s) {
      forall m: Modifier ensures m in t.modifiers <==> m in Normalised(s).modifiers {
        match m
        case Shift => case Control => case Alternate => case NumericPad => case Function =>
      }
      assert t.modifiers == Normalised(s).modifiers;
    }
  }

  /** Binding a key changes what one stroke does, and no other.  A name makes it that selector, a
      list of names those selectors, a prebuilt action that action; the empty name and an object
      of an unknown class disable it.  Nothing lies below the stroke then. */
  lemma KeyBindsStroke(bindings: seq<Binding>, s: Stroke, value: Value, w: seq<Stroke>)
    requires w != [] && !value.Dictionary?
    ensures var after := Bind(bindings, [Some(s)], value);
            && (!StoredFor(w[0], s) ==> Walk(after, w) == Walk(bindings, w))
            && (StoredFor(w[0], s) && |w| > 1 ==> Walk(after, w) == None)
            && (StoredFor(w[0], s) && |w| == 1 ==>
                 match value
                 case Name("") => Walk(after, w) == None
                 case Name(name) => Walk(after, w) == Some(OneSelector(name))
                 case Names(names) => Walk(after, w) == Some(ManySelectors(names))
                 case Special(id) => Walk(after, w) == Some(Prebuilt(id))
                 case Unknown => Walk(after, w) == None)
  {
    StoredForOne(s, w[0]);
    WalkStored(bindings, Binding(Normalised(s), ActionOf(value), Nil), w);
    WalkNothing(w[1..]);
  }

  /** The same for an array of keys: the sequence of the strokes stored for them does what the last
      one is bound to, and sequences that start otherwise do what they did. */
  lemma {:induction false} KeysBindSequence(bindings: seq<Binding>, keys: seq<Stroke>, value: Value, w: seq<Stroke>)
    requires keys != [] && w != [] && !value.Dictionary?
    ensures var after := Bind(bindings, AsKeys(keys), value);
            && (!StoredFor(w[0], keys[0]) ==> Walk(after, w) == Walk(bindings, w))
            && (|w| == |keys| && (forall i | 0 <= i < |w| :: StoredFor(w[i], keys[i])) ==>
                 Walk(after, w) == Walk(Bind([], [Some(keys[|keys| - 1])], value), [w[|w| - 1]]))
            && (|w| < |keys| && (forall i | 0 <= i < |w| :: StoredFor(w[i], keys[i])) ==> Walk(after, w) == None)
    decreases |keys|
  {
    var s, all := Normalised(keys[0]), AsKeys(keys);
    StoredForOne(keys[0], w[0]);
    if |keys| == 1 {
      assert all == [Some(keys[0])];
      KeyBindsStroke(bindings, keys[0], value, w);
      KeyBindsStroke([], keys[0], value, [w[|w| - 1]]);
    } else {
      assert all[1..] == AsKeys(keys[1..]);
      var below := Below(bindings, s);
      WalkStored(bindings, Binding(s, None, Table(Bind(below, AsKeys(keys[1..]), value))), w);
      if |w| > 1 {
        KeysBindSequence(below, keys[1..], value, w[1..]);
      }
    }
  }

  function AsKeys(keys: seq<Stroke>): seq<Option<Stroke>> {
    seq(|keys|, i requires 0 <= i < |keys| => Some(keys[i]))
  }

  // ---- dictionaries without clashes

  function FirstStroke(e: Entry): Option<Stroke> {
    if e.keys == [] || e.keys[0].None? then None else Some(Normalised(e.keys[0].value))
  }

  /** No two entries of a level start with the same stroke. */
  predicate Distinct(entries: seq<Entry>)
    decreases NamesIn(entries), 1, |entries|
  {
    entries == [] ||
    (&& (FirstStroke(entries[0]).Some? ==> forall e <- entries[1..] :: FirstStroke(e) != FirstStroke(entries[0]))
     && DistinctBelow(entries[0].keys, entries[0].value)
     && Distinct(entries[1..]))
  }

  predicate DistinctBelow(keys: seq<Option<Stroke>>, value: Value)
    decreases |keys| + NamesBelow(value), 0, 0
  {
    keys != [] && value.Dictionary? ==> Distinct(value.entries)
  }

  /** Reading the action of a stroke sequence off the dictionary itself. */
  function Read(keys: seq<Option<Stroke>>, value: Value, w: seq<Stroke>): Option<Action>
    decreases |keys| + NamesBelow(value), 0, 0
  {
    if keys == [] || keys[0].None? || w == [] || Normalised(keys[0].value) != w[0] then None
    else if |keys| > 1 then Read(keys[1..], value, w[1..])
    else if value.Dictionary? then ReadAny(value.entries, w[1..])
    else if |w| == 1 then ActionOf(value) else None
  }

  function ReadAny(entries: seq<Entry>, w: seq<Stroke>): Option<Action>
    decreases NamesIn(entries), 1, |entries|
  {
    if entries == [] || w == [] then None
    else if FirstStroke(entries[0]) == Some(w[0]) then Read(entries[0].keys, entries[0].value, w)
    else ReadAny(entries[1..], w)
  }

  ghost predicate Unbound(bindings: seq<Binding>, s: Stroke) {
    forall b <- bindings :: b.stroke != s
  }


  /** A binding as `Put` stores it. */
  function Stored(bindings: seq<Binding>, keys: seq<Option<Stroke>>, value: Value): Binding
    requires keys != [] && keys[0].Some?
  {
    var s := Normalised(keys[0].value);
    var below := Below(bindings, s);
    if |keys| > 1 then Binding(s, None, Table(Bind(below, keys[1..], value)))
    else if value.Dictionary? then Binding(s, None, Table(Load(below, value.entries)))
    else Binding(s, ActionOf(value), Nil)
  }

  /** One binding at a stroke not bound so far. */
  lemma {:induction false} ReadBound(bindings: seq<Binding>, keys: seq<Option<Stroke>>, value: Value, w: seq<Stroke>)
    requires keys != [] && keys[0].Some? && w != [] && DistinctBelow(keys, value)
    requires Unbound(bindings, Normalised(keys[0].value))
    ensures Walk(Bind(bindings, keys, value), w) ==
      if Normalised(keys[0].value) == w[0] then Read(keys, value, w) else Walk(bindings, w)
    decreases |keys| + NamesBelow(value), 0, 1
  {
    var s, b := Normalised(keys[0].value), Stored(bindings, keys, value);
    assert Find(bindings, s) == -1 && Below(bindings, s) == [];
    assert Bind(bindings, keys, value) == Put(bindings, b);
    WalkStored(bindings, b, w);
    if s == w[0] && |w| > 1 {
      if |keys| > 1 {
        hide Walk;
        if keys[1].Some? {
          ReadBound([], keys[1..], value, w[1..]);
        }
        WalkNothing(w[1..]);
      } else if value.Dictionary? {
        hide Walk;
        LoadDistinct([], value.entries, w[1..]);
        WalkNothing(w[1..]);
        if !Starts(value.entries, w[1]) {
          ReadNone(value.entries, w[1..]);
        }
      }
    }
  }

  lemma WalkNothing(w: seq<Stroke>)
    ensures Walk([], w) == None
  {}

  lemma WalkStored(bindings: seq<Binding>, b: Binding, w: seq<Stroke>)
    requires w != [] && (b.action.None? || b.table.Nil?)
    ensures Walk(Put(bindings, b), w) ==
      if w[0] != b.stroke then Walk(bindings, w)
      else if |w| == 1 then b.action
      else Walk(if b.table.Table? then b.table.bindings else [], w[1..])
  {
    WalkPut(bindings, b);
    assert w == [w[0]] + w[1..];
    if w[0] == b.stroke && |w| > 1 {
      assert Seen(b.stroke, MapOf(Put(bindings, b)))(w[1..]) == Walk(Put(bindings, b), w);
    }
  }

  predicate Starts(entries: seq<Entry>, s: Stroke) {
    exists e <- entries :: FirstStroke(e) == Some(s)
  }

  lemma {:induction false} ReadNone(entries: seq<Entry>, w: seq<Stroke>)
    requires w != [] && !Starts(entries, w[0])
    ensures ReadAny(entries, w) == None
    decreases |entries|
  {
    if entries != [] {
      assert entries[0] in entries;
      ReadNone(entries[1..], w);
    }
  }

  /** A dictionary without clashes, loaded over bindings it does not touch, is read as it is
      written, whatever the order its keys are enumerated in. */
  lemma {:induction false} LoadDistinct(bindings: seq<Binding>, entries: seq<Entry>, w: seq<Stroke>)
    requires w != [] && Distinct(entries)
    requires forall e <- entries :: FirstStroke(e).Some? ==> Unbound(bindings, FirstStroke(e).value)
    ensures Walk(Load(bindings, entries), w) ==
      if Starts(entries, w[0]) then ReadAny(entries, w) else Walk(bindings, w)
    decreases NamesIn(entries), 1, |entries|
  {
    if entries != [] {
      var e, rest := entries[0], entries[1..];
      var more := Bind(bindings, e.keys, e.value);
      assert entries == [e] + rest;
      if FirstStroke(e).Some? {
        ReadBound(bindings, e.keys, e.value, w);
        NewStroke(bindings, e.keys, e.value);
        assert forall f <- rest :: FirstStroke(f).Some? ==> Unbound(more, FirstStroke(f).value);
      }
      LoadDistinct(more, rest, w);
      if FirstStroke(e) == Some(w[0]) {
        assert !Starts(rest, w[0]);
      }
    }
  }

  lemma NewStroke(bindings: seq<Binding>, keys: seq<Option<Stroke>>, value: Value)
    requires keys != [] && keys[0].Some?
    ensures forall b <- Bind(bindings, keys, value) :: b in bindings || b.stroke == Normalised(keys[0].value)
  {}
}
