/** Sections and their items as values, and what the snapshot operations do to them. */
module Arrangements {
  import opened Options
  import opened Sequences

  /** Section and item identifiers are objects compared by equality; one is made by the
      source itself. */
  datatype Id = DefaultSection | Id(n: nat)

  type Items = map<Id, seq<Id>>

  function WithoutAll(s: seq<Id>, xs: seq<Id>): seq<Id>
    decreases xs
  {
    if xs == [] then s else WithoutAll(Remove(s, xs[0]), xs[1..])
  }

  /** The members of `xs` that `s` does not have, each once, in order. */
  function NewOnes(s: seq<Id>, xs: seq<Id>): seq<Id>
    decreases xs
  {
    if xs == [] then []
    else if xs[0] in s then NewOnes(s, xs[1..])
    else [xs[0]] + NewOnes(s + [xs[0]], xs[1..])
  }

  /** All items, section by section. */
  function Flat(sections: seq<Id>, items: Items): seq<Id>
    requires forall s <- sections :: s in items
  {
    if sections == [] then [] else items[sections[0]] + Flat(sections[1..], items)
  }

  ghost predicate Matching(sections: seq<Id>, items: Items) {
    Distinct(sections) && forall s :: s in items <==> s in sections
  }

  /** New sections start out empty. */
  function WithEmpty(items: Items, sections: seq<Id>): Items
    decreases sections
  {
    if sections == [] then items else WithEmpty(items[sections[0] := []], sections[1..])
  }

  lemma {:induction false} FlatAppend(a: seq<Id>, b: seq<Id>, items: Items)
    requires forall s <- a + b :: s in items
    ensures Flat(a + b, items) == Flat(a, items) + Flat(b, items)
    decreases |a|
  {
    if a == [] {
      assert a + b == b;
    } else {
      assert (a + b)[1..] == a[1..] + b;
      FlatAppend(a[1..], b, items);
    }
  }

  lemma {:induction false} FlatSame(sections: seq<Id>, m: Items, n: Items)
    requires forall s <- sections :: s in m && s in n && m[s] == n[s]
    ensures Flat(sections, m) == Flat(sections, n)
    decreases |sections|
  {
    if sections != [] {
      FlatSame(sections[1..], m, n);
    }
  }

  lemma {:induction false} WithEmptyIs(items: Items, sections: seq<Id>)
    ensures forall s :: s in WithEmpty(items, sections) <==> s in items || s in sections
    ensures forall s <- WithEmpty(items, sections) ::
      WithEmpty(items, sections)[s] == if s in sections then [] else items[s]
    decreases |sections|
  {
    if sections != [] {
      WithEmptyIs(items[sections[0] := []], sections[1..]);
      assert sections == [sections[0]] + sections[1..];
    }
  }

  lemma {:induction false} NewOnesAre(s: seq<Id>, xs: seq<Id>)
    ensures forall x :: x in NewOnes(s, xs) <==> x in xs && x !in s
    ensures Distinct(NewOnes(s, xs))
    decreases |xs|
  {
    if xs != [] {
      assert xs == [xs[0]] + xs[1..];
      if xs[0] in s {
        NewOnesAre(s, xs[1..]);
      } else {
        NewOnesAre(s + [xs[0]], xs[1..]);
        assert xs[0] !in NewOnes(s + [xs[0]], xs[1..]);
      }
    }
  }

  lemma {:induction false} EmptySections(sections: seq<Id>, items: Items)
    requires forall s <- sections :: s in items && items[s] == []
    ensures Flat(sections, items) == []
    decreases |sections|
  {
    if sections != [] {
      EmptySections(sections[1..], items);
    }
  }

  /** Inserting new sections anywhere keeps the sections and the map matching and leaves the
      items as they were. */
  lemma InsertKeeps(a: seq<Id>, b: seq<Id>, items: Items, xs: seq<Id>)
    requires Matching(a + b, items)
    ensures var block := NewOnes(a + b, xs);
            && Matching(a + block + b, WithEmpty(items, block))
            && Flat(a + block + b, WithEmpty(items, block)) == Flat(a + b, items)
  {
    var block := NewOnes(a + b, xs);
    NewOnesAre(a + b, xs);
    WithEmptyIs(items, block);
    InsertMatches(a, block, b, items, WithEmpty(items, block));
    hide Distinct;
    hide NewOnes;
    hide WithEmpty;
    hide Flat;
    FlatAppend(a, b, items);
    InsertFlat(a, block, b, items, WithEmpty(items, block));
  }

  lemma InsertMatches(a: seq<Id>, block: seq<Id>, b: seq<Id>, items: Items, more: Items)
    requires Matching(a + b, items) && Distinct(block) && forall x <- block :: x !in a + b
    requires forall s :: s in more <==> s in items || s in block
    ensures Matching(a + block + b, more)
  {
    InsertDistinct(a, block, b);
    hide Distinct;
  }

  lemma InsertFlat(a: seq<Id>, block: seq<Id>, b: seq<Id>, items: Items, more: Items)
    requires forall s <- a + b :: s in items && s in more && more[s] == items[s]
    requires forall s <- block :: s in more && more[s] == []
    ensures Flat(a + block + b, more) == Flat(a, items) + Flat(b, items)
  {
    FlatAppend(a + block, b, more);
    FlatAppend(a, block, more);
    FlatSame(a, items, more);
    FlatSame(b, items, more);
    EmptySections(block, more);
  }

  lemma InsertDistinct(a: seq<Id>, block: seq<Id>, b: seq<Id>)
    requires Distinct(a + b) && Distinct(block) && forall x <- block :: x !in a + b
    ensures Distinct(a + block + b)
  {
    var all := a + block + b;
    forall i, j | 0 <= i < j < |all| ensures all[i] != all[j] {
      var m, n := |a|, |a| + |block|;
      assert i < m ==> all[i] == (a + b)[i] && (a + b)[i] in a + b;
      assert m <= i < n ==> all[i] == block[i - m] && block[i - m] in block;
      assert i >= n ==> all[i] == (a + b)[i - |block|];
      assert j < m ==> all[j] == (a + b)[j];
      assert m <= j < n ==> all[j] == block[j - m] && block[j - m] in block;
      assert j >= n ==> all[j] == (a + b)[j - |block|] && (a + b)[j - |block|] in a + b;
    }
  }

  lemma DropMatches(sections: seq<Id>, items: Items, x: Id)
    requires Matching(sections, items)
    ensures Matching(Remove(sections, x), items - {x})
  {
    RemoveIs(sections, x);
  }

  // ---- one item in the flattened list

  /** Where `x` first occurs: the section's index and the place in it. */
  function Locate(sections: seq<Id>, items: Items, x: Id): (place: Option<(nat, nat)>)
    requires forall s <- sections :: s in items
    ensures place.Some? ==>
      place.value.0 < |sections| && place.value.1 < |items[sections[place.value.0]]|
      && items[sections[place.value.0]][place.value.1] == x
  {
    if sections == [] then None
    else
      var i := IndexOf(items[sections[0]], x);
      if i >= 0 then Some((0, i))
      else
        var rest := Locate(sections[1..], items, x);
        if rest.None? then None else Some((rest.value.0 + 1, rest.value.1))
  }

  /** The same, starting from some section. */
  function LocateFrom(sections: seq<Id>, items: Items, x: Id, i: nat): Option<(nat, nat)>
    requires (forall s <- sections :: s in items) && i <= |sections|
  {
    var rest := Locate(sections[i..], items, x);
    if rest.None? then None else var n: nat := rest.value.0 + i; Some((n, rest.value.1))
  }

  lemma LocateNext(sections: seq<Id>, items: Items, x: Id, i: nat)
    requires (forall s <- sections :: s in items) && i < |sections|
    ensures var k := IndexOf(items[sections[i]], x);
            LocateFrom(sections, items, x, i) == if k >= 0 then Some((i, k)) else LocateFrom(sections, items, x, i + 1)
  {
    assert sections[i..][1..] == sections[i + 1..];
  }

  lemma LocateNone(items: Items, x: Id, none: seq<Id>)
    requires none == []
    ensures Locate(none, items, x) == None
  {}

  /** The place in the flattened list. */
  function Offset(sections: seq<Id>, items: Items, section: nat, item: nat): nat
    requires (forall s <- sections :: s in items) && section <= |sections|
  {
    |Flat(sections[..section], items)| + item
  }

  lemma {:induction false} LocateIsFirst(sections: seq<Id>, items: Items, x: Id)
    requires forall s <- sections :: s in items
    ensures var place, flat := Locate(sections, items, x), Flat(sections, items);
            && (place.None? <==> x !in flat)
            && (place.Some? ==> Offset(sections, items, place.value.0, place.value.1) == IndexOf(flat, x))
    decreases |sections|
  {
    hide IndexOf;
    if sections != [] {
      var first := items[sections[0]];
      var rest := Locate(sections[1..], items, x);
      LocateIsFirst(sections[1..], items, x);
      IndexAppend(first, Flat(sections[1..], items), x);
      if rest.Some? {
        OffsetCons(sections, items, rest.value.0);
      }
    }
  }

  lemma OffsetCons(sections: seq<Id>, items: Items, n: nat)
    requires (forall s <- sections :: s in items) && n < |sections| - 1
    ensures Flat(sections[..n + 1], items) == items[sections[0]] + Flat(sections[1..][..n], items)
  {
    assert sections[..n + 1][1..] == sections[1..][..n];
  }

  lemma IndexAppend(a: seq<Id>, b: seq<Id>, x: Id)
    ensures IndexOf(a + b, x) ==
      if x in a then IndexOf(a, x) else if x in b then |a| + IndexOf(b, x) else -1
  {
    var k := IndexOf(a + b, x);
    if x in a {
      var i := IndexOf(a, x);
      FirstIs(a + b, x, i);
    } else if x in b {
      var j := IndexOf(b, x);
      assert (a + b)[..|a| + j] == a + b[..j];
      FirstIs(a + b, x, |a| + j);
    }
  }

  lemma FirstIs(s: seq<Id>, x: Id, i: nat)
    requires i < |s| && s[i] == x && x !in s[..i]
    ensures IndexOf(s, x) == i
  {
    var k := IndexOf(s, x);
    assert x in s;
    SliceHas(s, i, k);
    SliceHas(s, k, i);
  }

  lemma SliceHas(s: seq<Id>, n: int, k: int)
    ensures 0 <= k < n <= |s| ==> s[k] in s[..n]
  {
    if 0 <= k < n <= |s| {
      assert s[..n][k] == s[k];
    }
  }

  /** Changing one section's items changes the flattened list there and nowhere else. */
  lemma FlatSplice(a: seq<Id>, s: Id, b: seq<Id>, items: Items, xs: seq<Id>)
    requires Matching(a + [s] + b, items)
    ensures Matching(a + [s] + b, items[s := xs])
    ensures Flat(a + [s] + b, items[s := xs]) == Flat(a, items) + xs + Flat(b, items)
  {
    MiddleIsUnique(a, s, b);
    hide Distinct;
    assert s in a + [s] + b;
    FlatAppend(a + [s], b, items[s := xs]);
    FlatAppend(a, [s], items[s := xs]);
    assert [s][1..] == [];
    FlatSame(a, items, items[s := xs]);
    FlatSame(b, items, items[s := xs]);
  }

  lemma MiddleIsUnique(a: seq<Id>, s: Id, b: seq<Id>)
    requires Distinct(a + [s] + b)
    ensures s !in a && s !in b
  {
    var all := a + [s] + b;
    assert all[|a|] == s;
    forall i | 0 <= i < |a| ensures a[i] != s {
      assert all[i] == a[i];
    }
    forall i | 0 <= i < |b| ensures b[i] != s {
      assert all[|a| + 1 + i] == b[i];
    }
  }

  lemma NothingInserted(flat: seq<Id>, none: seq<Id>)
    requires none == []
    ensures flat + none == flat && forall k {:trigger flat[..k]} :: 0 <= k <= |flat| ==>
      flat[..k] + none + flat[k..] == flat
  {}

  function Spliced(xs: seq<Id>, at: nat, drop: nat, ids: seq<Id>): seq<Id>
    requires at + drop <= |xs|
  {
    xs[..at] + ids + xs[at + drop..]
  }

  lemma RemovedAt(s: seq<Id>, x: Id)
    requires x in s
    ensures var k := IndexOf(s, x); s[..k] + [] + s[k + 1..] == RemoveFirst(s, x)
  {}

  function RemoveFirsts(s: seq<Id>, xs: seq<Id>): seq<Id>
    decreases xs
  {
    if xs == [] then s else RemoveFirsts(RemoveFirst(s, xs[0]), xs[1..])
  }

  /** A splice in one section is a splice of the flattened list. */
  lemma SpliceAt(sections: seq<Id>, items: Items, section: nat, at: nat, drop: nat, ids: seq<Id>)
    requires Matching(sections, items) && section < |sections| && at + drop <= |items[sections[section]]|
    ensures var s := sections[section]; var after := items[s := Spliced(items[s], at, drop, ids)];
            var flat, k := Flat(sections, items), Offset(sections, items, section, at);
            && Matching(sections, after) && k + drop <= |flat|
            && Flat(sections, after) == flat[..k] + ids + flat[k + drop..]
  {
    var s, xs := sections[section], items[sections[section]];
    SpliceWhole(sections, items, section, xs);
    SpliceWhole(sections, items, section, Spliced(xs, at, drop, ids));
    assert items[s := xs] == items;
    hide Matching;
    hide Flat;
    SplicedParts(Flat(sections[..section], items), xs, Flat(sections[section + 1..], items), at, drop, ids);
  }

  lemma SpliceWhole(sections: seq<Id>, items: Items, section: nat, xs: seq<Id>)
    requires Matching(sections, items) && section < |sections|
    ensures var s := sections[section];
            && Matching(sections, items[s := xs])
            && Flat(sections, items[s := xs]) ==
                 Flat(sections[..section], items) + xs + Flat(sections[section + 1..], items)
  {
    hide Flat;
    var a, s, b := sections[..section], sections[section], sections[section + 1..];
    assert sections == a + [s] + b;
    FlatSplice(a, s, b, items, xs);
  }

  lemma SplicedParts(a: seq<Id>, xs: seq<Id>, b: seq<Id>, at: nat, drop: nat, ids: seq<Id>)
    requires at + drop <= |xs|
    ensures var flat, k := a + xs + b, |a| + at;
            a + Spliced(xs, at, drop, ids) + b == flat[..k] + ids + flat[k + drop..]
  {
    var flat, k := a + xs + b, |a| + at;
    assert flat[..k] == a + xs[..at];
    assert flat[k + drop..] == xs[at + drop..] + b;
  }

  lemma AppendAtEnd(sections: seq<Id>, items: Items, ids: seq<Id>)
    requires Matching(sections, items) && sections != []
    ensures var s := sections[|sections| - 1]; var after := items[s := items[s] + ids];
            && sections + NewOnes(sections, [s]) == sections
            && Matching(sections, after) && Flat(sections, after) == Flat(sections, items) + ids
  {
    hide Distinct;
    hide Flat;
    hide NewOnes;
    var n := |sections| - 1;
    var s := sections[n];
    EnsureKeeps(sections, items, s);
    SpliceAt(sections, items, n, |items[s]|, 0, ids);
    OffsetAtEnd(sections, items, n);
    assert Spliced(items[s], |items[s]|, 0, ids) == items[s] + ids;
  }

  lemma OffsetAtEnd(sections: seq<Id>, items: Items, n: nat)
    requires Matching(sections, items) && n + 1 == |sections|
    ensures Offset(sections, items, n, |items[sections[n]]|) == |Flat(sections, items)|
  {
    assert sections == sections[..n] + [sections[n]];
    FlatAppend(sections[..n], [sections[n]], items);
    assert [sections[n]][1..] == [];
  }

  /** Fresh, distinct items put anywhere keep all items distinct, and so does taking away a
      section. */
  lemma ItemsStayDistinct(flat: seq<Id>, k: nat, ids: seq<Id>)
    requires Distinct(flat) && Distinct(ids) && k <= |flat| && forall x <- ids :: x !in flat
    ensures Distinct(flat[..k] + ids + flat[k..])
  {
    assert flat[..k] + flat[k..] == flat;
    InsertDistinct(flat[..k], ids, flat[k..]);
  }

  lemma {:induction false} FewerSectionsDistinct(sections: seq<Id>, items: Items, x: Id)
    requires (forall s <- sections :: s in items) && Distinct(Flat(sections, items))
    ensures forall s <- Remove(sections, x) :: s in items
    ensures Distinct(Flat(Remove(sections, x), items))
    ensures forall y <- Flat(Remove(sections, x), items) :: y in Flat(sections, items)
    decreases |sections|
  {
    RemoveIs(sections, x);
    if sections != [] {
      var first, rest := items[sections[0]], Flat(sections[1..], items);
      var fewer := Remove(sections[1..], x);
      DistinctParts(first, rest);
      FewerSectionsDistinct(sections[1..], items, x);
      if sections[0] == x {
        assert Remove(sections, x) == fewer;
      } else {
        assert Remove(sections, x) == [sections[0]] + fewer && ([sections[0]] + fewer)[1..] == fewer;
        DistinctJoin(first, Flat(fewer, items));
      }
    }
  }

  lemma DistinctParts(a: seq<Id>, b: seq<Id>)
    requires Distinct(a + b)
    ensures Distinct(a) && Distinct(b) && forall x <- a :: x !in b
  {
    assert forall i :: 0 <= i < |a| ==> (a + b)[i] == a[i];
    assert forall i :: 0 <= i < |b| ==> (a + b)[|a| + i] == b[i];
  }

  lemma DistinctJoin(a: seq<Id>, b: seq<Id>)
    requires Distinct(a) && Distinct(b) && forall x <- a :: x !in b
    ensures Distinct(a + b)
  {
    var all := a + b;
    forall i, j | 0 <= i < j < |all| ensures all[i] != all[j] {
      assert i < |a| ==> all[i] == a[i] && a[i] in a;
      assert i >= |a| ==> all[i] == b[i - |a|];
      assert j < |a| ==> all[j] == a[j];
      assert j >= |a| ==> all[j] == b[j - |a|] && b[j - |a|] in b;
    }
  }

  lemma NewOnesHead(s: seq<Id>, ids: seq<Id>, i: nat)
    requires i < |ids|
    ensures NewOnes(s, ids[i..]) ==
      if ids[i] in s then NewOnes(s, ids[i + 1..]) else [ids[i]] + NewOnes(s + [ids[i]], ids[i + 1..])
  {
    assert ids[i..][1..] == ids[i + 1..];
  }

  lemma WithEmptyNone(items: Items)
    ensures WithEmpty(items, []) == items
  {}

  lemma {:induction false} WithEmptySnoc(items: Items, sections: seq<Id>, s: Id)
    ensures WithEmpty(items, sections + [s]) == WithEmpty(items, sections)[s := []]
    decreases |sections|
  {
    if sections == [] {
      assert [s][1..] == [] && sections + [s] == [s];
    } else {
      assert (sections + [s])[1..] == sections[1..] + [s];
      WithEmptySnoc(items[sections[0] := []], sections[1..], s);
    }
  }

  /** Taking a section out and putting it back elsewhere. */
  lemma MoveKeeps(sections: seq<Id>, items: Items, from: nat, to: nat)
    requires Matching(sections, items) && from < |sections| && to < |sections|
    ensures var s := sections[from]; var rest := TakeOut(sections, from); var after := PutAt(rest, s, to);
            && |rest| + 1 == |sections| == |after| && Matching(after, items) && Remove(after, s) == Remove(sections, s)
  {
    hide Distinct;
    hide Remove;
    TakenOut(sections, from);
    var rest := TakeOut(sections, from);
    hide TakeOut;
    assert rest[..to] + rest[to..] == rest;
    PutBack(rest[..to], sections[from], rest[to..]);
    assert PutAt(rest, sections[from], to) == rest[..to] + [sections[from]] + rest[to..];
  }

  lemma TakenOut(sections: seq<Id>, from: nat)
    requires Distinct(sections) && from < |sections|
    ensures var s, rest := sections[from], sections[..from] + sections[from + 1..];
            && Distinct(rest) && s !in rest && Remove(sections, s) == rest
            && forall x :: x in sections <==> x in rest || x == s
  {
    var s := sections[from];
    var a, c := sections[..from], sections[from + 1..];
    assert sections == a + [s] + c;
    MiddleIsUnique(a, s, c);
    WithoutMiddle(a, s, c);
    RemoveIs(sections, s);
  }

  lemma PutBack(a: seq<Id>, s: Id, c: seq<Id>)
    requires Distinct(a + c) && s !in a + c
    ensures Distinct(a + [s] + c) && Remove(a + [s] + c, s) == a + c
    ensures forall x :: x in a + [s] + c <==> x in a + c || x == s
  {
    WithoutMiddle(a, s, c);
    SingleDistinct(s);
    InsertDistinct(a, [s], c);
  }

  function TakeOut(s: seq<Id>, i: nat): (r: seq<Id>)
    requires i < |s|
    ensures |r| == |s| - 1
  {
    s[..i] + s[i + 1..]
  }

  function PutAt(s: seq<Id>, x: Id, i: nat): (r: seq<Id>)
    requires i <= |s|
    ensures |r| == |s| + 1
  {
    s[..i] + [x] + s[i..]
  }

  /** Where the section lands, and where the other one is then. */
  lemma MoveLands(sections: seq<Id>, from: nat, other: nat)
    requires from < |sections| && other < |sections|
    ensures var s, rest := sections[from], TakeOut(sections, from);
            if from == other then PutAt(rest, s, other) == sections
            else
              var at := if from < other then other - 1 else other;
              && PutAt(rest, s, at)[at] == s && PutAt(rest, s, at)[at + 1] == sections[other]
              && PutAt(rest, s, at + 1)[at] == sections[other] && PutAt(rest, s, at + 1)[at + 1] == s
  {}

  lemma SlipsBack(sections: seq<Id>, k: nat)
    requires k + 1 < |sections|
    ensures PutAt(TakeOut(sections, k), sections[k], k + 1) == sections[k := sections[k + 1]][k + 1 := sections[k]]
  {}

  lemma SingleDistinct(s: Id)
    ensures Distinct([s])
  {}

  lemma WithoutMiddle(a: seq<Id>, s: Id, c: seq<Id>)
    requires s !in a && s !in c
    ensures Remove(a + [s] + c, s) == a + c
  {
    WithoutSingle(s);
    hide Distinct;
    hide Remove;
    RemoveAppend(a + [s], c, s);
    RemoveAppend(a, [s], s);
    RemoveIs(a, s);
    RemoveIs(c, s);
    assert a + [] == a;
  }

  lemma WithoutSingle(s: Id)
    ensures Remove([s], s) == []
  {
    assert [s][1..] == [];
  }

  lemma LastOnce(sections: seq<Id>, items: Items, i: nat)
    requires Matching(sections, items) && i < |sections|
    ensures sections[i] in items
    ensures i == |sections| - 1 ==> TakeOut(sections, i) == sections[..i] && sections[i] !in sections[..i]
    ensures sections[|sections| - 1] == sections[i] ==> i == |sections| - 1
  {}

  lemma EnsureKeeps(sections: seq<Id>, items: Items, section: Id)
    requires Matching(sections, items)
    ensures NewOnes(sections, [section]) == if section in sections then [] else [section]
    ensures Matching(sections + NewOnes(sections, [section]), WithEmpty(items, NewOnes(sections, [section])))
    ensures section in items <==> section in sections
    ensures WithEmpty(items, [section]) == items[section := []]
  {
    assert [section][1..] == [];
    assert sections + [] == sections;
    InsertKeeps(sections, [], items, [section]);
    assert sections + NewOnes(sections, [section]) + [] == sections + NewOnes(sections, [section]);
  }

  lemma NewOnesStep(sections: seq<Id>, items: Items, ids: seq<Id>, i: nat)
    requires i < |ids|
    ensures var first := NewOnes(sections, [ids[i]]); var rest := NewOnes(sections + first, ids[i + 1..]);
            && NewOnes(sections, ids[i..]) == first + rest
            && WithEmpty(items, first + rest) == WithEmpty(WithEmpty(items, first), rest)
  {
    assert ids[i..][1..] == ids[i + 1..];
    OneNewOne(sections, items, ids[i]);
    var first := NewOnes(sections, [ids[i]]);
    var rest := NewOnes(sections + first, ids[i + 1..]);
    if ids[i] in sections {
      assert first + rest == rest;
    } else {
      WithEmptyJoin(items, ids[i], rest);
    }
  }

  lemma OneNewOne(sections: seq<Id>, items: Items, id: Id)
    ensures NewOnes(sections, [id]) == if id in sections then [] else [id]
    ensures sections + NewOnes(sections, [id]) == if id in sections then sections else sections + [id]
    ensures WithEmpty(items, []) == items && WithEmpty(items, [id]) == items[id := []]
  {
    assert [id][1..] == [];
    assert sections + [] == sections;
  }

  lemma WithEmptyJoin(items: Items, id: Id, rest: seq<Id>)
    ensures WithEmpty(items, [id] + rest) == WithEmpty(WithEmpty(items, [id]), rest)
  {
    assert ([id] + rest)[1..] == rest && [id][1..] == [];
  }

  lemma NewOnesNone(sections: seq<Id>, items: Items, none: seq<Id>)
    requires none == []
    ensures NewOnes(sections, none) == [] && WithEmpty(items, []) == items && sections + [] == sections
  {}

  lemma AppendedKeeps(sections: seq<Id>, items: Items, ids: seq<Id>)
    requires Matching(sections, items)
    ensures var block := NewOnes(sections, ids);
            && Matching(sections + block, WithEmpty(items, block))
            && Flat(sections + block, WithEmpty(items, block)) == Flat(sections, items)
  {
    assert sections + [] == sections;
    InsertKeeps(sections, [], items, ids);
    assert sections + NewOnes(sections, ids) + [] == sections + NewOnes(sections, ids);
  }

  // ---- operations

  datatype State = State(sections: seq<Id>, items: Items) {
    ghost predicate Valid() { Matching(sections, items) }

    function All(): seq<Id>
      requires Valid()
    {
      Flat(sections, items)
    }
  }

  /** The operations of a snapshot, but for the two queries. */
  datatype Operation =
    | AppendSections(ids: seq<Id>)
    | InsertSectionsBefore(ids: seq<Id>, section: Id)
    | InsertSectionsAfter(ids: seq<Id>, section: Id)
    | DeleteSections(ids: seq<Id>)
    | MoveSectionBefore(section: Id, other: Id)
    | MoveSectionAfter(section: Id, other: Id)
    | AppendItems(ids: seq<Id>)
    | AppendItemsInto(ids: seq<Id>, into: Option<Id>)
    | InsertItemsBefore(ids: seq<Id>, item: Id)
    | InsertItemsAfter(ids: seq<Id>, item: Id)
    | DeleteItems(ids: seq<Id>)

  /** Moving the last section after itself raises. */
  predicate Raises(op: Operation, st: State) {
    && op.MoveSectionAfter? && op.section == op.other && op.section in st.sections
    && op.section == st.sections[|st.sections| - 1]
  }

  function WithSections(st: State, at: nat, ids: seq<Id>): State
    requires at <= |st.sections|
  {
    var block := NewOnes(st.sections, ids);
    State(st.sections[..at] + block + st.sections[at..], WithEmpty(st.items, block))
  }

  function Relocated(sections: seq<Id>, s: Id, other: Id, after: nat): seq<Id>
    requires after <= 1
  {
    var from, to := IndexOf(sections, s), IndexOf(sections, other);
    if from < 0 || to < 0 then sections
    else
      var at := (if from < to then to - 1 else to) + after;
      if at >= |sections| then TakeOut(sections, from) else PutAt(TakeOut(sections, from), s, at)
  }

  function Into(st: State, s: Id, ids: seq<Id>): State {
    State(st.sections + NewOnes(st.sections, [s]),
          st.items[s := (if s in st.items then st.items[s] else []) + ids])
  }

  function AtEnd(st: State, ids: seq<Id>): State {
    Into(st, if st.sections == [] then DefaultSection else st.sections[|st.sections| - 1], ids)
  }

  function InPlace(st: State, x: Id, after: nat, drop: nat, ids: seq<Id>): State
    requires (forall s <- st.sections :: s in st.items) && after + drop <= 1
  {
    var place := Locate(st.sections, st.items, x);
    if place.None? then st
    else
      var s := st.sections[place.value.0];
      State(st.sections, st.items[s := Spliced(st.items[s], place.value.1 + after, drop, ids)])
  }

  function Inserted(st: State, x: Id, after: nat, ids: seq<Id>): State
    requires (forall s <- st.sections :: s in st.items) && after <= 1
  {
    if ids == [] then st
    else if Locate(st.sections, st.items, x).None? then AtEnd(st, ids)
    else InPlace(st, x, after, 0, ids)
  }

  function Deleted(st: State, ids: seq<Id>): State
    requires forall s <- st.sections :: s in st.items
    decreases ids
  {
    if ids == [] then st else Deleted(InPlace(st, ids[0], 0, 1, []), ids[1..])
  }

  /** What an operation does to a snapshot. */
  function Applied(op: Operation, st: State): State
    requires st.Valid()
  {
    match op
    case AppendSections(ids) => WithSections(st, |st.sections|, ids)
    case InsertSectionsBefore(ids, s) =>
      var k := IndexOf(st.sections, s); WithSections(st, if k < 0 then |st.sections| else k, ids)
    case InsertSectionsAfter(ids, s) =>
      var k := IndexOf(st.sections, s); WithSections(st, if k < 0 then |st.sections| else k + 1, ids)
    case DeleteSections(ids) => State(WithoutAll(st.sections, ids), st.items - set x | x in ids)
    case MoveSectionBefore(s, other) => State(Relocated(st.sections, s, other, 0), st.items)
    case MoveSectionAfter(s, other) => State(Relocated(st.sections, s, other, 1), st.items)
    case AppendItems(ids) => AtEnd(st, ids)
    case AppendItemsInto(ids, into) => Into(st, if into.Some? then into.value else DefaultSection, ids)
    case InsertItemsBefore(ids, x) => Inserted(st, x, 0, ids)
    case InsertItemsAfter(ids, x) => Inserted(st, x, 1, ids)
    case DeleteItems(ids) => Deleted(st, ids)
  }

  /** The items an operation brings in. */
  function Brings(op: Operation): seq<Id> {
    match op
    case AppendItems(ids) => ids
    case AppendItemsInto(ids, _) => ids
    case InsertItemsBefore(ids, _) => ids
    case InsertItemsAfter(ids, _) => ids
    case _ => []
  }

  /** The identifiers brought in are distinct and new. */
  ghost predicate BringsFresh(op: Operation, st: State)
    requires st.Valid()
  {
    Distinct(Brings(op)) && forall x <- Brings(op) :: x !in st.All()
  }

  // ---- all items distinct

  /** No section repeats an item, and no two sections share one. */
  ghost predicate Apart(items: Items) {
    && (forall s <- items :: Distinct(items[s]))
    && (forall s <- items, t <- items :: s != t ==> forall x <- items[s] :: x !in items[t])
  }

  lemma {:induction false} FlatHas(sections: seq<Id>, items: Items, x: Id)
    requires forall s <- sections :: s in items
    ensures x in Flat(sections, items) <==> exists s <- sections :: x in items[s]
    decreases |sections|
  {
    if sections != [] {
      FlatHas(sections[1..], items, x);
      assert sections == [sections[0]] + sections[1..];
    }
  }

  lemma {:induction false} FlatDistinctIs(sections: seq<Id>, items: Items)
    requires Distinct(sections) && forall s <- sections :: s in items
    ensures Distinct(Flat(sections, items)) <==>
      && (forall s <- sections :: Distinct(items[s]))
      && (forall s <- sections, t <- sections :: s != t ==> forall x <- items[s] :: x !in items[t])
    decreases |sections|
  {
    if sections != [] {
      var s, rest := sections[0], sections[1..];
      assert sections == [s] + rest;
      FlatDistinctIs(rest, items);
      forall x ensures x in Flat(rest, items) <==> exists t <- rest :: x in items[t] {
        FlatHas(rest, items, x);
      }
      if Distinct(Flat(sections, items)) {
        DistinctParts(items[s], Flat(rest, items));
      }
      if Distinct(items[s]) && Distinct(Flat(rest, items)) && forall x <- items[s] :: x !in Flat(rest, items) {
        DistinctJoin(items[s], Flat(rest, items));
      }
    }
  }

  /** The flattened list repeats nothing exactly when the sections are apart. */
  lemma DistinctIsApart(st: State)
    requires st.Valid()
    ensures Distinct(st.All()) <==> Apart(st.items)
    ensures forall x :: x in st.All() <==> exists s <- st.items :: x in st.items[s]
  {
    FlatDistinctIs(st.sections, st.items);
    forall x ensures x in st.All() <==> exists s <- st.items :: x in st.items[s] {
      FlatHas(st.sections, st.items, x);
    }
  }

  ghost predicate FreshFor(items: Items, ids: seq<Id>) {
    Distinct(ids) && forall x <- ids, s <- items :: x !in items[s]
  }

  lemma FreshIs(op: Operation, st: State)
    requires st.Valid() && BringsFresh(op, st)
    ensures FreshFor(st.items, Brings(op))
  {
    DistinctIsApart(st);
  }

  /** New content of one section, made of its own items and of fresh ones. */
  lemma ApartUpdate(items: Items, s: Id, xs: seq<Id>, ids: seq<Id>)
    requires Apart(items) && FreshFor(items, ids) && Distinct(xs)
    requires forall x <- xs :: x in ids || (s in items && x in items[s])
    ensures Apart(items[s := xs])
  {}

  lemma SplicedDistinct(xs: seq<Id>, at: nat, drop: nat, ids: seq<Id>)
    requires at + drop <= |xs| && Distinct(xs) && Distinct(ids) && forall x <- ids :: x !in xs
    ensures Distinct(Spliced(xs, at, drop, ids))
    ensures forall x <- Spliced(xs, at, drop, ids) :: x in ids || x in xs
  {
    var a, c := xs[..at], xs[at + drop..];
    assert forall x <- a :: x !in c;
    DistinctJoin(a, ids);
    DistinctJoin(a + ids, c);
  }

  lemma WithSectionsKeeps(st: State, at: nat, ids: seq<Id>)
    requires st.Valid() && at <= |st.sections|
    ensures var after := WithSections(st, at, ids);
            && after.Valid() && after.All() == st.All()
            && (Apart(st.items) ==> Apart(after.items))
  {
    assert st.sections[..at] + st.sections[at..] == st.sections;
    InsertKeeps(st.sections[..at], st.sections[at..], st.items, ids);
    hide Matching;
    hide Apart;
    DistinctIsApart(st);
    DistinctIsApart(WithSections(st, at, ids));
  }

  lemma {:induction false} DropAll(sections: seq<Id>, items: Items, ids: seq<Id>)
    requires Matching(sections, items)
    ensures Matching(WithoutAll(sections, ids), items - set x | x in ids)
    decreases |ids|
  {
    hide Matching;
    if ids == [] {
      assert items - (set x | x in ids) == items;
    } else {
      DropMatches(sections, items, ids[0]);
      DropAll(Remove(sections, ids[0]), items - {ids[0]}, ids[1..]);
      assert items - {ids[0]} - (set x | x in ids[1..]) == items - (set x | x in ids) by {
        assert ids == [ids[0]] + ids[1..];
        assert (set x | x in ids) == {ids[0]} + (set x | x in ids[1..]);
      }
    }
  }

  lemma RelocatedIs(sections: seq<Id>, s: Id, other: Id, after: nat)
    requires after <= 1
    ensures var from, to := IndexOf(sections, s), IndexOf(sections, other);
            && (from < 0 || to < 0 ==> Relocated(sections, s, other, after) == sections)
            && (from >= 0 && to >= 0 ==>
                  var at := (if from < to then to - 1 else to) + after;
                  Relocated(sections, s, other, after) ==
                    if at >= |sections| then TakeOut(sections, from) else PutAt(TakeOut(sections, from), s, at))
  {
    hide IndexOf;
    hide TakeOut;
    hide PutAt;
  }

  lemma InsertedIs(st: State, x: Id, after: nat, ids: seq<Id>)
    requires st.Valid() && after <= 1
    ensures forall s <- st.sections :: s in st.items
    ensures var place := Locate(st.sections, st.items, x);
            && (ids == [] ==> Inserted(st, x, after, ids) == st)
            && (ids != [] && place.None? ==> Inserted(st, x, after, ids) == AtEnd(st, ids))
            && (ids != [] && place.Some? ==>
                  var s := st.sections[place.value.0];
                  Inserted(st, x, after, ids) ==
                    State(st.sections, st.items[s := Spliced(st.items[s], place.value.1 + after, 0, ids)]))
  {
    hide AtEnd;
    hide Spliced;
    hide Distinct;
  }

  lemma RelocatedKeeps(st: State, s: Id, other: Id, after: nat)
    requires st.Valid() && after <= 1
    requires !(after == 1 && Raises(MoveSectionAfter(s, other), st))
    ensures Matching(Relocated(st.sections, s, other, after), st.items)
  {
    hide Distinct;
    hide TakeOut;
    hide PutAt;
    var from, to := IndexOf(st.sections, s), IndexOf(st.sections, other);
    if from >= 0 && to >= 0 {
      var at := (if from < to then to - 1 else to) + after;
      assert at < |st.sections| by {
        if from == to {
          assert s == other;
        }
      }
      MoveKeeps(st.sections, st.items, from, at);
    }
  }

  lemma IntoKeeps(st: State, s: Id, ids: seq<Id>)
    requires st.Valid()
    ensures Into(st, s, ids).Valid()
    ensures Apart(st.items) && FreshFor(st.items, ids) ==> Apart(Into(st, s, ids).items)
  {
    EnsureKeeps(st.sections, st.items, s);
    var xs := (if s in st.items then st.items[s] else []) + ids;
    if Apart(st.items) && FreshFor(st.items, ids) {
      DistinctJoin(if s in st.items then st.items[s] else [], ids);
      ApartUpdate(st.items, s, xs, ids);
    }
  }

  lemma InPlaceKeeps(st: State, x: Id, after: nat, drop: nat, ids: seq<Id>)
    requires st.Valid() && after + drop <= 1
    ensures InPlace(st, x, after, drop, ids).Valid()
    ensures Apart(st.items) && FreshFor(st.items, ids) ==> Apart(InPlace(st, x, after, drop, ids).items)
  {
    hide Distinct;
    hide Spliced;
    var place := Locate(st.sections, st.items, x);
    if place.Some? && Apart(st.items) && FreshFor(st.items, ids) {
      var s := st.sections[place.value.0];
      SplicedDistinct(st.items[s], place.value.1 + after, drop, ids);
      ApartUpdate(st.items, s, Spliced(st.items[s], place.value.1 + after, drop, ids), ids);
    }
  }

  lemma {:induction false} DeletedKeeps(st: State, ids: seq<Id>)
    requires st.Valid()
    ensures Deleted(st, ids).Valid()
    ensures Apart(st.items) ==> Apart(Deleted(st, ids).items)
    decreases |ids|
  {
    hide Matching;
    hide Apart;
    ValidIs(st);
    if ids != [] {
      InPlaceKeeps(st, ids[0], 0, 1, []);
      NoneFresh(st.items);
      DeletedKeeps(InPlace(st, ids[0], 0, 1, []), ids[1..]);
    }
  }

  lemma ValidIs(st: State)
    requires st.Valid()
    ensures forall s <- st.sections :: s in st.items
  {}

  lemma NoneFresh(items: Items)
    ensures FreshFor(items, [])
  {}

  /** One operation keeps sections and map matching, and all items distinct when it brings in
      fresh ones. */
  lemma StepKeeps(op: Operation, st: State)
    requires st.Valid() && !Raises(op, st)
    ensures Applied(op, st).Valid()
    ensures Distinct(st.All()) && BringsFresh(op, st) ==> Distinct(Applied(op, st).All())
  {
    hide Matching;
    hide Apart;
    hide FreshFor;
    hide Distinct;
    ValidIs(st);
    DistinctIsApart(st);
    StepValid(op, st);
    DistinctIsApart(Applied(op, st));
    if BringsFresh(op, st) {
      FreshIs(op, st);
    }
  }

  lemma StepValid(op: Operation, st: State)
    requires st.Valid() && !Raises(op, st)
    ensures Applied(op, st).Valid()
    ensures Apart(st.items) && FreshFor(st.items, Brings(op)) ==> Apart(Applied(op, st).items)
  {
    hide Apart;
    hide FreshFor;
    hide Matching;
    hide Into;
    hide InPlace;
    hide WithSections;
    hide WithoutAll;
    hide Relocated;
    hide Deleted;
    ValidIs(st);
    match op {
      case AppendSections(ids) => WithSectionsKeeps(st, |st.sections|, ids);
      case InsertSectionsBefore(ids, s) =>
        var k := IndexOf(st.sections, s); WithSectionsKeeps(st, if k < 0 then |st.sections| else k, ids);
      case InsertSectionsAfter(ids, s) =>
        var k := IndexOf(st.sections, s); WithSectionsKeeps(st, if k < 0 then |st.sections| else k + 1, ids);
      case DeleteSections(ids) =>
        DropAll(st.sections, st.items, ids);
        FewerApart(st.items, set x | x in ids);
      case MoveSectionBefore(s, other) => RelocatedKeeps(st, s, other, 0);
      case MoveSectionAfter(s, other) => RelocatedKeeps(st, s, other, 1);
      case AppendItems(ids) =>
        IntoKeeps(st, if st.sections == [] then DefaultSection else st.sections[|st.sections| - 1], ids);
      case AppendItemsInto(ids, into) => IntoKeeps(st, if into.Some? then into.value else DefaultSection, ids);
      case InsertItemsBefore(ids, x) =>
        InPlaceKeeps(st, x, 0, 0, ids);
        IntoKeeps(st, if st.sections == [] then DefaultSection else st.sections[|st.sections| - 1], ids);
      case InsertItemsAfter(ids, x) =>
        InPlaceKeeps(st, x, 1, 0, ids);
        IntoKeeps(st, if st.sections == [] then DefaultSection else st.sections[|st.sections| - 1], ids);
      case DeleteItems(ids) => DeletedKeeps(st, ids);
    }
  }

  lemma FewerApart(items: Items, gone: set<Id>)
    ensures Apart(items) ==> Apart(items - gone)
  {}

  /** Where inserted items land in the flattened list. */
  lemma InsertedFlat(st: State, x: Id, after: nat, ids: seq<Id>)
    requires st.Valid() && after <= 1
    ensures Inserted(st, x, after, ids).Valid()
    ensures var flat, k := st.All(), IndexOf(st.All(), x);
            Inserted(st, x, after, ids).All() ==
              if k < 0 then flat + ids else flat[..k + after] + ids + flat[k + after..]
    ensures x in st.All() ==> Inserted(st, x, after, ids).sections == st.sections
  {
    hide Spliced;
    hide Distinct;
    hide Matching;
    hide Flat;
    hide AtEnd;
    hide InPlace;
    if ids == [] {
      NothingInserted(st.All(), ids);
    } else {
      InPlaceFlat(st, x, after, ids);
      AtEndFlat(st, ids);
    }
  }

  /** The last section, or the default one if there was none, has taken the items. */
  ghost predicate TookAtEnd(was: State, now: State, ids: seq<Id>) {
    if was.sections == [] then now.sections == [DefaultSection] && now.items == was.items[DefaultSection := ids]
    else
      var last := was.sections[|was.sections| - 1];
      && now.sections == was.sections && last in was.items
      && now.items == was.items[last := was.items[last] + ids]
  }

  lemma AtEndIs(st: State, ids: seq<Id>)
    requires st.Valid()
    ensures TookAtEnd(st, AtEnd(st, ids), ids)
  {
    hide Distinct;
    hide NewOnes;
    if st.sections == [] {
      EnsureKeeps(st.sections, st.items, DefaultSection);
      assert [] + ids == ids;
    } else {
      var last := st.sections[|st.sections| - 1];
      EnsureKeeps(st.sections, st.items, last);
      assert last in st.sections && st.sections + [] == st.sections;
    }
  }

  lemma InsertedMissing(st: State, x: Id, after: nat, ids: seq<Id>)
    requires st.Valid() && after <= 1 && x !in st.All()
    ensures forall s <- st.sections :: s in st.items
    ensures var now := Inserted(st, x, after, ids); if ids == [] then now == st else TookAtEnd(st, now, ids)
  {
    hide Inserted;
    hide Locate;
    hide AtEnd;
    hide TookAtEnd;
    LocateHolds(st.sections, st.items, x);
    FlatHas(st.sections, st.items, x);
    InsertedIs(st, x, after, ids);
    AtEndIs(st, ids);
  }

  /** Section `i` is the first one that has the item. */
  ghost predicate HoldsFirst(sections: seq<Id>, items: Items, x: Id, i: nat)
    requires (forall s <- sections :: s in items) && i < |sections|
  {
    x in items[sections[i]] && forall j | 0 <= j < i :: x !in items[sections[j]]
  }

  lemma {:induction false} LocateHolds(sections: seq<Id>, items: Items, x: Id)
    requires forall s <- sections :: s in items
    ensures var place := Locate(sections, items, x);
            && (place.None? <==> forall s <- sections :: x !in items[s])
            && (place.Some? ==>
                 && HoldsFirst(sections, items, x, place.value.0)
                 && place.value.1 == IndexOf(items[sections[place.value.0]], x))
    decreases |sections|
  {
    if sections != [] {
      assert sections == [sections[0]] + sections[1..];
      LocateHolds(sections[1..], items, x);
    }
  }

  /** Section `i` has taken the new items beside the item if it is the first one that has that,
      and is as it was otherwise. */
  ghost predicate TookBeside(was: State, now: State, x: Id, after: nat, ids: seq<Id>, i: nat)
    requires (forall s <- was.sections :: s in was.items) && i < |was.sections| && after <= 1
  {
    var s := was.sections[i];
    && s in now.items
    && now.items[s] ==
         if HoldsFirst(was.sections, was.items, x, i) then
           var k := IndexOf(was.items[s], x); was.items[s][..k + after] + ids + was.items[s][k + after..]
         else was.items[s]
  }

  lemma InsertedSections(st: State, x: Id, after: nat, ids: seq<Id>)
    requires st.Valid() && after <= 1 && x in st.All()
    ensures forall s <- st.sections :: s in st.items
    ensures forall i: nat | i < |st.sections| :: TookBeside(st, Inserted(st, x, after, ids), x, after, ids, i)
  {
    hide Inserted;
    hide TookBeside;
    hide Flat;
    FlatHas(st.sections, st.items, x);
    forall i: nat | i < |st.sections| ensures TookBeside(st, Inserted(st, x, after, ids), x, after, ids, i) {
      InsertedSection(st, x, after, ids, i);
    }
  }

  lemma InsertedSection(st: State, x: Id, after: nat, ids: seq<Id>, i: nat)
    requires st.Valid() && after <= 1 && i < |st.sections| && exists s <- st.sections :: x in st.items[s]
    ensures TookBeside(st, Inserted(st, x, after, ids), x, after, ids, i)
  {
    hide Inserted;
    hide Locate;
    hide IndexOf;
    LocateHolds(st.sections, st.items, x);
    InsertedIs(st, x, after, ids);
    var place := Locate(st.sections, st.items, x).value;
    var xs := st.items[st.sections[i]];
    if i == place.0 {
      if ids == [] {
        assert xs[..place.1 + after] + [] + xs[place.1 + after..] == xs;
      }
    } else {
      assert st.sections[i] != st.sections[place.0];
      assert !HoldsFirst(st.sections, st.items, x, i);
    }
  }

  /** Deleting an item takes it out of the first section that has it, where it first occurs. */
  lemma DeletedSection(st: State, x: Id, i: nat)
    requires st.Valid() && i < |st.sections|
    ensures forall s <- st.sections :: s in st.items
    ensures var s := st.sections[i]; var now := Deleted(st, [x]);
            && now.sections == st.sections && s in now.items
            && now.items[s] ==
                 if HoldsFirst(st.sections, st.items, x, i) then RemoveFirst(st.items[s], x) else st.items[s]
  {
    hide Locate;
    hide Spliced;
    LocateHolds(st.sections, st.items, x);
    assert [x][1..] == [];
    var place := Locate(st.sections, st.items, x);
    if place.Some? {
      var s := st.sections[place.value.0];
      SplicedOut(st.items[s], x);
      if i != place.value.0 {
        assert st.sections[i] != s;
      }
    }
  }

  lemma SplicedOut(xs: seq<Id>, x: Id)
    requires x in xs
    ensures Spliced(xs, IndexOf(xs, x), 1, []) == RemoveFirst(xs, x)
  {
    RemovedAt(xs, x);
  }

  lemma InPlaceFlat(st: State, x: Id, after: nat, ids: seq<Id>)
    requires st.Valid() && after <= 1
    ensures forall s <- st.sections :: s in st.items
    ensures Locate(st.sections, st.items, x).None? <==> x !in st.All()
    ensures x in st.All() ==>
      InPlace(st, x, after, 0, ids).sections == st.sections
    ensures x in st.All() ==>
      var flat, k := st.All(), IndexOf(st.All(), x);
      InPlace(st, x, after, 0, ids).Valid()
        && InPlace(st, x, after, 0, ids).All() == flat[..k + after] + ids + flat[k + after..]
  {
    hide Spliced;
    hide Distinct;
    hide Flat;
    hide Matching;
    ValidIs(st);
    LocateIsFirst(st.sections, st.items, x);
    var place := Locate(st.sections, st.items, x);
    if place.Some? {
      SpliceAt(st.sections, st.items, place.value.0, place.value.1 + after, 0, ids);
    }
  }

  lemma OneSection(s: Id, items: Items)
    requires s in items
    ensures Flat([s], items) == items[s]
  {
    assert [s][1..] == [] && items[s] + [] == items[s];
  }

  lemma AtEndFlat(st: State, ids: seq<Id>)
    requires st.Valid()
    ensures AtEnd(st, ids).Valid() && AtEnd(st, ids).All() == st.All() + ids
  {
    if st.sections == [] {
      IntoKeeps(st, DefaultSection, ids);
      EnsureKeeps(st.sections, st.items, DefaultSection);
      var after := AtEnd(st, ids);
      assert after.sections == [DefaultSection] && after.items[DefaultSection] == ids;
      OneSection(DefaultSection, after.items);
      assert [] + ids == ids;
    } else {
      AppendAtEnd(st.sections, st.items, ids);
    }
  }

  // ---- runs

  /** The snapshot after a list of operations. */
  function Ran(ops: seq<Operation>, st: State): State
    requires st.Valid() && Runs(ops, st)
  {
    if ops == [] then st else Ran(ops[1..], Applied(ops[0], st))
  }

  /** No operation raises. */
  ghost predicate Runs(ops: seq<Operation>, st: State) {
    ops == [] ||
    (st.Valid() && !Raises(ops[0], st) && Applied(ops[0], st).Valid() && Runs(ops[1..], Applied(ops[0], st)))
  }

  /** Every operation brings in identifiers that are new when it runs. */
  ghost predicate AllFresh(ops: seq<Operation>, st: State)
    requires st.Valid() && Runs(ops, st)
  {
    ops == [] || (BringsFresh(ops[0], st) && AllFresh(ops[1..], Applied(ops[0], st)))
  }

  /** Over any run the listed sections are exactly the keys of the map, each listed once, and
      with fresh identifiers all items stay distinct. */
  lemma {:induction false} RunKeeps(ops: seq<Operation>, st: State)
    requires st.Valid() && Runs(ops, st)
    ensures var after := Ran(ops, st);
            && after.Valid()
            && (Distinct(st.All()) && AllFresh(ops, st) ==> Distinct(after.All()))
    decreases |ops|
  {
    hide Matching;
    hide Applied;
    hide Distinct;
    hide BringsFresh;
    if ops != [] {
      StepKeeps(ops[0], st);
      RunKeeps(ops[1..], Applied(ops[0], st));
    }
  }

  /** A list of operations none of which moves a section after itself always runs. */
  lemma {:induction false} RunsUnlessMovedAfterItself(ops: seq<Operation>, st: State)
    requires st.Valid() && forall op <- ops :: op.MoveSectionAfter? ==> op.section != op.other
    ensures Runs(ops, st)
    decreases |ops|
  {
    hide Matching;
    hide Applied;
    if ops != [] {
      assert ops[0] in ops && !Raises(ops[0], st);
      StepKeeps(ops[0], st);
      RunsUnlessMovedAfterItself(ops[1..], Applied(ops[0], st));
    }
  }
}
