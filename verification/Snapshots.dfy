/** Snapshots of sections and items (NSDiffableDataSourceSnapshot in
    Source/NSDiffableDataSource.m). */
module Snapshots {
  import opened Options
  import opened Sequences
  import opened Arrangements

  class Snapshot {
    var sections: seq<Id>
    var itemsBySection: Items

    ghost predicate Valid()
      reads this
    {
      Matching(sections, itemsBySection)
    }

    ghost function Now(): State
      reads this
    {
      State(sections, itemsBySection)
    }

    /** What the operation `op` leaves behind: its effect on the value, and distinct items if
        they were distinct and the ones brought in are new. */
    twostate predicate Did(op: Operation)
      requires old(Valid())
      reads this
    {
      && Valid() && Now() == Applied(op, old(Now()))
      && (Distinct(old(All())) && BringsFresh(op, old(Now())) ==> Distinct(All()))
    }

    /** `itemIdentifiers` as a value. */
    ghost function All(): seq<Id>
      reads this
      requires Valid()
    {
      Flat(sections, itemsBySection)
    }

    constructor ()
      ensures Valid() && sections == [] && All() == []
    {
      sections, itemsBySection := [], map[];
    }

    /** `copyWithZone:` */
    method Copy() returns (copy: Snapshot)
      requires Valid()
      ensures fresh(copy) && copy.Valid()
      ensures copy.sections == sections && copy.itemsBySection == itemsBySection
      ensures Valid() && sections == old(sections) && itemsBySection == old(itemsBySection)
    {
      copy := new Snapshot();
      var items: Items := map[];
      for i := 0 to |sections|
        invariant fresh(copy) && sections == old(sections) && itemsBySection == old(itemsBySection)
        invariant forall s :: s in items <==> s in sections[..i]
        invariant forall s <- items :: items[s] == itemsBySection[s]
      {
        assert sections[..i + 1] == sections[..i] + [sections[i]];
        items := items[sections[i] := itemsBySection[sections[i]]];
      }
      assert sections[..|sections|] == sections;
      copy.sections, copy.itemsBySection := sections, items;
    }

    /** `itemIdentifiers` and `numberOfItems` */
    method ItemIdentifiers() returns (result: seq<Id>, count: nat)
      requires Valid()
      ensures result == All() && count == |All()|
    {
      result, count := [], 0;
      for i := 0 to |sections|
        invariant result + Flat(sections[i..], itemsBySection) == All() && count == |result|
      {
        assert sections[i..][1..] == sections[i + 1..];
        result := result + itemsBySection[sections[i]];
        count := count + |itemsBySection[sections[i]]|;
      }
    }

    /** `_ensureSection:` for a section that is not nil. */
    method EnsureSection(section: Id)
      requires Valid()
      modifies this
      ensures Valid()
      ensures var block := NewOnes(old(sections), [section]);
              sections == old(sections) + block && itemsBySection == WithEmpty(old(itemsBySection), block)
    {
      EnsureKeeps(sections, itemsBySection, section);
      if section !in sections {
        sections := sections + [section];
      }
      if section !in itemsBySection {
        itemsBySection := itemsBySection[section := []];
      }
    }

    /** `appendSectionsWithIdentifiers:` */
    method AppendSections(ids: seq<Id>)
      requires Valid()
      modifies this
      ensures Valid() && All() == old(All())
      ensures sections == old(sections) + NewOnes(old(sections), ids)
      ensures itemsBySection == WithEmpty(old(itemsBySection), NewOnes(old(sections), ids))
      ensures Did(Operation.AppendSections(ids))
    {
      hide Matching;
      hide NewOnes;
      hide WithEmpty;
      hide Flat;
      StepKeeps(Operation.AppendSections(ids), Now());
      ghost var block := NewOnes(sections, ids);
      assert ids[0..] == ids;
      for i := 0 to |ids|
        invariant Valid()
        invariant sections + NewOnes(sections, ids[i..]) == old(sections) + block
        invariant WithEmpty(itemsBySection, NewOnes(sections, ids[i..])) == WithEmpty(old(itemsBySection), block)
      {
        NewOnesStep(sections, itemsBySection, ids, i);
        EnsureSection(ids[i]);
      }
      NewOnesNone(sections, itemsBySection, ids[|ids|..]);
      AppendedKeeps(old(sections), old(itemsBySection), ids);
    }

    /** The loop of the two methods that insert sections. */
    method InsertSections(ids: seq<Id>, index: nat)
      requires Valid() && index <= |sections|
      modifies this
      ensures Valid() && All() == old(All())
      ensures sections == old(sections)[..index] + NewOnes(old(sections), ids) + old(sections)[index..]
      ensures itemsBySection == WithEmpty(old(itemsBySection), NewOnes(old(sections), ids))
    {
      hide Matching;
      hide NewOnes;
      hide WithEmpty;
      hide Flat;
      ghost var a, c := sections[..index], sections[index..];
      ghost var done: seq<Id> := [];
      ghost var block := NewOnes(sections, ids);
      var insertionIndex := index;
      assert ids[0..] == ids && sections == a + done + c && a + c == sections;
      assert done + NewOnes(a + c + done, ids[0..]) == block by { assert a + c + done == sections; }
      WithEmptyNone(itemsBySection);
      for i := 0 to |ids|
        invariant sections == a + done + c && insertionIndex == |a| + |done|
        invariant done + NewOnes(a + c + done, ids[i..]) == block
        invariant itemsBySection == WithEmpty(old(itemsBySection), done)
      {
        NewOnesHead(a + c + done, ids, i);
        if ids[i] !in sections {
          WithEmptySnoc(old(itemsBySection), done, ids[i]);
          sections := sections[..insertionIndex] + [ids[i]] + sections[insertionIndex..];
          itemsBySection := itemsBySection[ids[i] := []];
          insertionIndex := insertionIndex + 1;
          assert a + c + (done + [ids[i]]) == (a + c + done) + [ids[i]];
          done := done + [ids[i]];
        }
      }
      NewOnesNone(a + c + done, itemsBySection, ids[|ids|..]);
      assert done + [] == done;
      assert a + c == old(sections);
      InsertKeeps(a, c, old(itemsBySection), ids);
    }

    /** `insertSectionsWithIdentifiers:beforeSectionWithIdentifier:` */
    method InsertSectionsBefore(ids: seq<Id>, section: Id)
      requires Valid()
      modifies this
      ensures Valid() && All() == old(All())
      ensures var k := IndexOf(old(sections), section); var at := if k < 0 then |old(sections)| else k;
              && sections == old(sections)[..at] + NewOnes(old(sections), ids) + old(sections)[at..]
              && itemsBySection == WithEmpty(old(itemsBySection), NewOnes(old(sections), ids))
      ensures Did(Operation.InsertSectionsBefore(ids, section))
    {
      hide Matching;
      hide Distinct;
      hide Flat;
      hide NewOnes;
      hide WithEmpty;
      StepKeeps(Operation.InsertSectionsBefore(ids, section), Now());
      var insertionIndex := IndexOf(sections, section);
      InsertSections(ids, if insertionIndex < 0 then |sections| else insertionIndex);
    }

    /** `insertSectionsWithIdentifiers:afterSectionWithIdentifier:` */
    method InsertSectionsAfter(ids: seq<Id>, section: Id)
      requires Valid()
      modifies this
      ensures Valid() && All() == old(All())
      ensures var k := IndexOf(old(sections), section); var at := if k < 0 then |old(sections)| else k + 1;
              && sections == old(sections)[..at] + NewOnes(old(sections), ids) + old(sections)[at..]
              && itemsBySection == WithEmpty(old(itemsBySection), NewOnes(old(sections), ids))
      ensures Did(Operation.InsertSectionsAfter(ids, section))
    {
      hide Matching;
      hide Distinct;
      hide Flat;
      hide NewOnes;
      hide WithEmpty;
      StepKeeps(Operation.InsertSectionsAfter(ids, section), Now());
      var index := IndexOf(sections, section);
      if index < 0 {
        AppendSections(ids);
        assert old(sections)[..|old(sections)|] == old(sections);
        return;
      }
      InsertSections(ids, index + 1);
    }

    /** `deleteSectionsWithIdentifiers:` */
    method DeleteSections(ids: seq<Id>)
      requires Valid()
      modifies this
      ensures Valid() && sections == WithoutAll(old(sections), ids)
      ensures itemsBySection == old(itemsBySection) - (set x | x in ids)
      ensures Did(Operation.DeleteSections(ids))
    {
      hide Matching;
      hide Distinct;
      hide Remove;
      StepKeeps(Operation.DeleteSections(ids), Now());
      for i := 0 to |ids|
        invariant Valid() && WithoutAll(sections, ids[i..]) == WithoutAll(old(sections), ids)
        invariant itemsBySection == old(itemsBySection) - (set x | x in ids[..i])
      {
        assert ids[i..][1..] == ids[i + 1..] && ids[..i + 1] == ids[..i] + [ids[i]];
        DropMatches(sections, itemsBySection, ids[i]);
        sections := Remove(sections, ids[i]);
        itemsBySection := itemsBySection - {ids[i]};
      }
      assert ids[..|ids|] == ids;
    }

    /** `moveSectionWithIdentifier:beforeSectionWithIdentifier:`: the section ends up right
        before the other, and the rest keep their order. */
    method MoveSectionBefore(s: Id, other: Id)
      requires Valid()
      modifies this`sections
      ensures Valid()
      ensures s !in old(sections) || other !in old(sections) || s == other ==> sections == old(sections)
      ensures s in old(sections) && other in old(sections) && s != other ==>
        && Remove(sections, s) == Remove(old(sections), s)
        && |sections| == |old(sections)|
        && exists i :: 0 < i < |sections| && sections[i - 1] == s && sections[i] == other
      ensures Did(Operation.MoveSectionBefore(s, other))
    {
      hide Matching;
      hide Distinct;
      hide Remove;
      hide TakeOut;
      hide PutAt;
      StepKeeps(Operation.MoveSectionBefore(s, other), Now());
      var fromIndex, toIndex := IndexOf(sections, s), IndexOf(sections, other);
      if fromIndex < 0 || toIndex < 0 {
        return;
      }
      MoveKeeps(sections, itemsBySection, fromIndex, if fromIndex < toIndex then toIndex - 1 else toIndex);
      MoveLands(sections, fromIndex, toIndex);
      var rest := TakeOut(sections, fromIndex);
      if fromIndex < toIndex {
        toIndex := toIndex - 1;
      }
      sections := PutAt(rest, s, toIndex);
    }

    /** `moveSectionWithIdentifier:afterSectionWithIdentifier:`.  It does what it says exactly
        for two different sections.  Moved after itself a section slips one place back, and
        the last one is lost from the list when the insertion raises, while its items stay. */
    method MoveSectionAfter(s: Id, other: Id) returns (raised: bool)
      requires Valid()
      modifies this`sections
      ensures raised <==> s == other && s in old(sections) && s == old(sections)[|old(sections)| - 1]
      ensures !raised ==> Valid()
      ensures s !in old(sections) || other !in old(sections) ==> sections == old(sections)
      ensures s in old(sections) && other in old(sections) && s != other ==>
        && Remove(sections, s) == Remove(old(sections), s)
        && |sections| == |old(sections)|
        && exists i :: 0 < i < |sections| && sections[i - 1] == other && sections[i] == s
      ensures s in old(sections) && s == other && !raised ==>
        var k := IndexOf(old(sections), s);
        k + 1 < |old(sections)| && sections == old(sections)[k := old(sections)[k + 1]][k + 1 := s]
      ensures raised ==>
        sections == old(sections)[..|old(sections)| - 1] && s in itemsBySection && s !in sections
      ensures !raised ==> Did(Operation.MoveSectionAfter(s, other))
    {
      hide Matching;
      hide Distinct;
      hide Remove;
      hide TakeOut;
      hide PutAt;
      hide IndexOf;
      if !Raises(Operation.MoveSectionAfter(s, other), Now()) {
        StepKeeps(Operation.MoveSectionAfter(s, other), Now());
      }
      RelocatedIs(sections, s, other, 1);
      hide Relocated;
      var fromIndex, toIndex := IndexOf(sections, s), IndexOf(sections, other);
      if fromIndex < 0 || toIndex < 0 {
        return false;
      }
      LastOnce(sections, itemsBySection, fromIndex);
      MoveLands(sections, fromIndex, toIndex);
      var rest := TakeOut(sections, fromIndex);
      ghost var before := sections;
      if fromIndex < toIndex {
        toIndex := toIndex - 1;
      }
      if toIndex + 1 > |rest| {
        sections := rest;
        return true;
      }
      MoveKeeps(sections, itemsBySection, fromIndex, toIndex + 1);
      if fromIndex == toIndex {
        SlipsBack(sections, fromIndex);
      }
      sections := PutAt(rest, s, toIndex + 1);
      return false;
    }

    /** `appendItemsWithIdentifiers:intoSectionWithIdentifier:`; no section is the default one. */
    method AppendItemsInto(ids: seq<Id>, section: Option<Id>)
      requires Valid()
      modifies this
      ensures Valid()
      ensures var s := if section.Some? then section.value else DefaultSection;
              var before := if s in old(itemsBySection) then old(itemsBySection)[s] else [];
              && sections == old(sections) + NewOnes(old(sections), [s])
              && itemsBySection == old(itemsBySection)[s := before + ids]
      ensures Did(Operation.AppendItemsInto(ids, section))
    {
      hide Distinct;
      hide BringsFresh;
      hide Flat;
      StepKeeps(Operation.AppendItemsInto(ids, section), Now());
      var s := if section.Some? then section.value else DefaultSection;
      EnsureKeeps(sections, itemsBySection, s);
      EnsureSection(s);
      itemsBySection := itemsBySection[s := itemsBySection[s] + ids];
    }

    /** `appendItemsWithIdentifiers:`: the items go to the end. */
    method AppendItems(ids: seq<Id>)
      requires Valid()
      modifies this
      ensures Valid() && All() == old(All()) + ids
      ensures sections == if old(sections) == [] then [DefaultSection] else old(sections)
      ensures TookAtEnd(old(Now()), Now(), ids)
      ensures Did(Operation.AppendItems(ids))
    {
      hide Matching;
      hide Distinct;
      hide Flat;
      hide WithEmpty;
      hide NewOnes;
      hide TookAtEnd;
      StepKeeps(Operation.AppendItems(ids), Now());
      AtEndIs(Now(), ids);
      if |sections| == 0 {
        EnsureKeeps(sections, itemsBySection, DefaultSection);
        AppendSections([DefaultSection]);
      }
      var section := sections[|sections| - 1];
      WellFormed();
      AppendAtEnd(sections, itemsBySection, ids);
      AppendItemsInto(ids, Some(section));
      assert Now() == AtEnd(old(Now()), ids);
    }

    /** `_findItemIdentifier:inSection:index:` */
    method FindItem(x: Id) returns (place: Option<(nat, nat)>)
      requires Valid()
      ensures place == Locate(sections, itemsBySection, x)
    {
      hide Distinct;
      hide Locate;
      assert sections[0..] == sections;
      for sectionIndex := 0 to |sections|
        invariant Locate(sections, itemsBySection, x) == LocateFrom(sections, itemsBySection, x, sectionIndex)
      {
        LocateNext(sections, itemsBySection, x, sectionIndex);
        var itemIndex := IndexOf(itemsBySection[sections[sectionIndex]], x);
        if itemIndex >= 0 {
          return Some((sectionIndex, itemIndex));
        }
      }
      LocateNone(itemsBySection, x, sections[|sections|..]);
      return None;
    }

    /** `insertItemsWithIdentifiers:beforeItemWithIdentifier:`: right before the item's first
        occurrence, or at the end. */
    method InsertItemsBefore(ids: seq<Id>, before: Id)
      requires Valid()
      modifies this
      ensures Valid()
      ensures var flat, k := old(All()), IndexOf(old(All()), before);
              All() == if k < 0 then flat + ids else flat[..k] + ids + flat[k..]
      ensures before in old(All()) ==> sections == old(sections)
      ensures before in old(All()) ==>
        forall i: nat | i < |sections| :: TookBeside(old(Now()), Now(), before, 0, ids, i)
      ensures before !in old(All()) ==> if ids == [] then Now() == old(Now()) else TookAtEnd(old(Now()), Now(), ids)
      ensures Did(Operation.InsertItemsBefore(ids, before))
    {
      hide Inserted;
      hide BringsFresh;
      hide Matching;
      hide Distinct;
      hide Flat;
      hide IndexOf;
      StepKeeps(Operation.InsertItemsBefore(ids, before), Now());
      InsertedFlat(Now(), before, 0, ids);
      if before in All() {
        InsertedSections(Now(), before, 0, ids);
      } else {
        InsertedMissing(Now(), before, 0, ids);
      }
      hide TookBeside;
      hide TookAtEnd;
      InsertBeside(ids, before, 0);
    }

    /** `insertItemsWithIdentifiers:afterItemWithIdentifier:` */
    method InsertItemsAfter(ids: seq<Id>, after: Id)
      requires Valid()
      modifies this
      ensures Valid()
      ensures var flat, k := old(All()), IndexOf(old(All()), after);
              All() == if k < 0 then flat + ids else flat[..k + 1] + ids + flat[k + 1..]
      ensures after in old(All()) ==> sections == old(sections)
      ensures after in old(All()) ==>
        forall i: nat | i < |sections| :: TookBeside(old(Now()), Now(), after, 1, ids, i)
      ensures after !in old(All()) ==> if ids == [] then Now() == old(Now()) else TookAtEnd(old(Now()), Now(), ids)
      ensures Did(Operation.InsertItemsAfter(ids, after))
    {
      hide Inserted;
      hide BringsFresh;
      hide Matching;
      hide Distinct;
      hide Flat;
      hide IndexOf;
      StepKeeps(Operation.InsertItemsAfter(ids, after), Now());
      InsertedFlat(Now(), after, 1, ids);
      if after in All() {
        InsertedSections(Now(), after, 1, ids);
      } else {
        InsertedMissing(Now(), after, 1, ids);
      }
      hide TookBeside;
      hide TookAtEnd;
      InsertBeside(ids, after, 1);
    }

    /** What the two have in common. */
    method InsertBeside(ids: seq<Id>, x: Id, after: nat)
      requires Valid() && after <= 1
      modifies this
      ensures Valid() && Now() == Inserted(old(Now()), x, after, ids)
    {
      hide Spliced;
      hide AtEnd;
      hide BringsFresh;
      hide Matching;
      hide Distinct;
      hide Flat;
      hide IndexOf;
      InsertedIs(Now(), x, after, ids);
      InsertedFlat(Now(), x, after, ids);
      hide Inserted;
      if |ids| == 0 {
        return;
      }
      var place := FindItem(x);
      if place.None? {
        AppendItems(ids);
      } else {
        PlaceIs(place.value);
        Splice(place.value.0, place.value.1 + after, 0, ids);
      }
    }

    /** Replace `drop` items of a section from `at` on by `ids`. */
    method Splice(section: nat, at: nat, drop: nat, ids: seq<Id>)
      requires section < |sections| && sections[section] in itemsBySection
      requires at + drop <= |itemsBySection[sections[section]]|
      modifies this`itemsBySection
      ensures var s := sections[section];
              itemsBySection == old(itemsBySection)[s := Spliced(old(itemsBySection)[s], at, drop, ids)]
    {
      var s := sections[section];
      itemsBySection := itemsBySection[s := Spliced(itemsBySection[s], at, drop, ids)];
    }

    /** `deleteItemsWithIdentifiers:`: the first occurrence of each. */
    method DeleteItems(ids: seq<Id>)
      requires Valid()
      modifies this`itemsBySection
      ensures Valid() && All() == RemoveFirsts(old(All()), ids)
      ensures Did(Operation.DeleteItems(ids))
    {
      hide RemoveFirst;
      StepKeeps(Operation.DeleteItems(ids), Now());
      for i := 0 to |ids|
        invariant Valid() && RemoveFirsts(All(), ids[i..]) == RemoveFirsts(old(All()), ids)
        invariant Deleted(Now(), ids[i..]) == Deleted(old(Now()), ids)
      {
        assert ids[i..][1..] == ids[i + 1..];
        DeleteItem(ids[i]);
      }
    }

    method DeleteItem(x: Id)
      requires Valid()
      modifies this`itemsBySection
      ensures Valid() && All() == RemoveFirst(old(All()), x)
      ensures Now() == InPlace(old(Now()), x, 0, 1, [])
    {
      hide Distinct;
      hide Matching;
      hide Spliced;
      WellFormed();
      LocateIsFirst(sections, itemsBySection, x);
      var place := FindItem(x);
      if place.Some? {
        ghost var flat := All();
        SpliceAt(sections, itemsBySection, place.value.0, place.value.1, 1, []);
        Splice(place.value.0, place.value.1, 1, []);
        RemovedAt(flat, x);
      }
    }

    lemma PlaceIs(place: (nat, nat))
      requires Valid() && exists x :: Locate(sections, itemsBySection, x) == Some(place)
      ensures place.0 < |sections| && sections[place.0] in itemsBySection
        && place.1 < |itemsBySection[sections[place.0]]|
    {}

    lemma WellFormed()
      requires Valid()
      ensures forall s <- sections :: s in itemsBySection
    {}
  }
}
