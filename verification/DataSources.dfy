/** The data sources of Source/NSDiffableDataSource.m: a snapshot and the index from item
    identifiers to index paths. */
module DataSources {
  import opened Options
  import opened Sequences
  import opened Arrangements
  import opened Snapshots

  type Path = (nat, nat)

  type Paths = map<Id, Path>

  predicate InRange(sections: seq<Id>, items: Items, p: Path)
    requires forall s <- sections :: s in items
  {
    p.0 < |sections| && p.1 < |items[sections[p.0]]|
  }

  function ItemAt(sections: seq<Id>, items: Items, p: Path): Id
    requires (forall s <- sections :: s in items) && InRange(sections, items, p)
  {
    items[sections[p.0]][p.1]
  }

  predicate Precedes(p: Path, q: Path) {
    p.0 < q.0 || (p.0 == q.0 && p.1 < q.1)
  }

  /** The index covers the paths before `end`, and gives the last path of each item. */
  ghost predicate IndexedTo(paths: Paths, sections: seq<Id>, items: Items, end: Path)
    requires forall s <- sections :: s in items
  {
    && (forall x <- paths ::
          InRange(sections, items, paths[x]) && Precedes(paths[x], end) && ItemAt(sections, items, paths[x]) == x)
    && (forall p: Path | InRange(sections, items, p) && Precedes(p, end) ::
          ItemAt(sections, items, p) in paths && !Precedes(paths[ItemAt(sections, items, p)], p))
  }

  /** Item identifiers occur once each. */
  ghost predicate Unique(sections: seq<Id>, items: Items)
    requires forall s <- sections :: s in items
  {
    forall p: Path, q: Path | InRange(sections, items, p) && InRange(sections, items, q) ::
      ItemAt(sections, items, p) == ItemAt(sections, items, q) ==> p == q
  }

  class DataSource {
    var snapshot: Snapshot
    var identifierToIndexPath: Paths

    ghost predicate Valid()
      reads this, snapshot
    {
      && snapshot.Valid()
      && IndexedTo(identifierToIndexPath, snapshot.sections, snapshot.itemsBySection, (|snapshot.sections|, 0))
    }

    constructor ()
      ensures Valid() && fresh(snapshot) && snapshot.sections == []
    {
      snapshot := new Snapshot();
      identifierToIndexPath := map[];
    }

    /** `_rebuildIndexLookup` */
    method RebuildIndexLookup()
      requires snapshot.Valid()
      modifies this`identifierToIndexPath
      ensures Valid()
    {
      identifierToIndexPath := map[];
      var sections, items := snapshot.sections, snapshot.itemsBySection;
      for i := 0 to |sections|
        invariant IndexedTo(identifierToIndexPath, sections, items, (i, 0))
      {
        var inSection := items[sections[i]];
        for j := 0 to |inSection|
          invariant IndexedTo(identifierToIndexPath, sections, items, (i, j))
        {
          identifierToIndexPath := identifierToIndexPath[inSection[j] := (i, j)];
        }
        SectionDone(identifierToIndexPath, sections, items, i);
      }
    }

    /** `applySnapshot:animatingDifferences:`.  The source makes a new, empty snapshot; the one
        it is given plays no part, so it is installed exactly when it has no section. */
    method ApplySnapshot(given: Snapshot)
      modifies this
      ensures Valid() && fresh(snapshot)
      ensures snapshot.sections == [] && snapshot.itemsBySection == map[] && identifierToIndexPath == map[]
      ensures old(given.Valid()) ==> (snapshot.Now() == old(given.Now()) <==> old(given.sections) == [])
    {
      snapshot := new Snapshot();
      RebuildIndexLookup();
      assert snapshot.itemsBySection == map[];
    }

    /** `indexPathForItemIdentifier:` */
    method IndexPathForItem(x: Id) returns (path: Option<Path>)
      requires Valid()
      ensures path.Some? <==> x in snapshot.All()
      ensures path.Some? ==>
        && InRange(snapshot.sections, snapshot.itemsBySection, path.value)
        && ItemAt(snapshot.sections, snapshot.itemsBySection, path.value) == x
        && forall p: Path | InRange(snapshot.sections, snapshot.itemsBySection, p)
                              && ItemAt(snapshot.sections, snapshot.itemsBySection, p) == x ::
             p.0 < path.value.0 || (p.0 == path.value.0 && p.1 <= path.value.1)
    {
      ItemsHavePaths(snapshot.sections, snapshot.itemsBySection, x);
      path := if x in identifierToIndexPath then Some(identifierToIndexPath[x]) else None;
    }

    /** `itemIdentifierForIndexPath:`; a path shorter than two counts as the first item's. */
    method ItemForIndexPath(path: seq<nat>) returns (item: Option<Id>)
      requires Valid()
      ensures var p := if |path| >= 2 then (path[0], path[1]) else (0, 0);
              item == if InRange(snapshot.sections, snapshot.itemsBySection, p)
                      then Some(ItemAt(snapshot.sections, snapshot.itemsBySection, p)) else None
    {
      var sectionIndex, itemIndex := 0, 0;
      if |path| >= 2 {
        sectionIndex, itemIndex := path[0], path[1];
      }
      if sectionIndex >= |snapshot.sections| {
        return None;
      }
      var items := snapshot.itemsBySection[snapshot.sections[sectionIndex]];
      if itemIndex >= |items| {
        return None;
      }
      item := Some(items[itemIndex]);
    }

    /** `itemIdentifierForRow:` of the table view's data source.  A negative row is taken for
        one of the first section and raises. */
    method ItemForRow(row: int) returns (raised: bool, item: Option<Id>)
      requires Valid()
      ensures raised <==> row < 0 && snapshot.sections != []
      ensures !raised ==> item == if 0 <= row < |snapshot.All()| then Some(snapshot.All()[row]) else None
    {
      var runningTotal := 0;
      var sections, items := snapshot.sections, snapshot.itemsBySection;
      ghost var done: seq<Id> := [];
      assert sections[0..] == sections;
      for i := 0 to |sections|
        invariant i > 0 ==> runningTotal <= row
        invariant |done| == runningTotal && done + Flat(sections[i..], items) == snapshot.All()
      {
        FlatFrom(sections, items, i);
        done := done + items[sections[i]];
        var nextTotal := runningTotal + |items[sections[i]]|;
        if row < nextTotal {
          var localIndex := row - runningTotal;
          if localIndex < 0 {
            return true, None;
          }
          return false, Some(items[sections[i]][localIndex]);
        }
        runningTotal := nextTotal;
      }
      return false, None;
    }
  }

  lemma SectionDone(paths: Paths, sections: seq<Id>, items: Items, i: nat)
    requires (forall s <- sections :: s in items) && i < |sections|
    requires IndexedTo(paths, sections, items, (i, |items[sections[i]]|))
    ensures IndexedTo(paths, sections, items, (i + 1, 0))
  {
    forall p: Path | InRange(sections, items, p)
      ensures Precedes(p, (i + 1, 0)) <==> Precedes(p, (i, |items[sections[i]]|))
    {
    }
  }

  lemma FlatFrom(sections: seq<Id>, items: Items, i: nat)
    requires (forall s <- sections :: s in items) && i < |sections|
    ensures Flat(sections[i..], items) == items[sections[i]] + Flat(sections[i + 1..], items)
  {
    assert sections[i..][1..] == sections[i + 1..];
  }

  lemma {:induction false} ItemsHavePaths(sections: seq<Id>, items: Items, x: Id)
    requires forall s <- sections :: s in items
    ensures x in Flat(sections, items) <==>
            exists p: Path :: InRange(sections, items, p) && ItemAt(sections, items, p) == x
    decreases |sections|
  {
    LocateIsFirst(sections, items, x);
    if p: Path :| InRange(sections, items, p) && ItemAt(sections, items, p) == x {
      var a, s, b := sections[..p.0], sections[p.0], sections[p.0 + 1..];
      assert sections == a + ([s] + b);
      FlatAppend(a, [s] + b, items);
      assert ([s] + b)[1..] == b;
    }
    if x in Flat(sections, items) {
      var place := Locate(sections, items, x);
      assert InRange(sections, items, place.value) && ItemAt(sections, items, place.value) == x;
    }
  }

  /** The index and the lookup by path undo each other exactly when no identifier occurs
      twice.  Going from an identifier to its path and back always works.  This is about any
      snapshot; `applySnapshot:`, the only writer of a data source's snapshot, installs none
      but empty ones. */
  lemma IndexIsInverse(paths: Paths, sections: seq<Id>, items: Items)
    requires (forall s <- sections :: s in items) && IndexedTo(paths, sections, items, (|sections|, 0))
    ensures forall x <- paths :: InRange(sections, items, paths[x]) && ItemAt(sections, items, paths[x]) == x
    ensures (forall p: Path | InRange(sections, items, p) ::
               ItemAt(sections, items, p) in paths && paths[ItemAt(sections, items, p)] == p)
            <==> Unique(sections, items)
  {
    forall p: Path | InRange(sections, items, p) ensures ItemAt(sections, items, p) in paths {
      assert Precedes(p, (|sections|, 0));
    }
  }

  /** Identifiers occur once each exactly when the flattened list has no repetition. */
  lemma {:induction false} UniqueIsDistinct(sections: seq<Id>, items: Items)
    requires forall s <- sections :: s in items
    ensures Distinct(Flat(sections, items)) <==> Unique(sections, items)
    decreases |sections|
  {
    if sections != [] {
      var first, rest := items[sections[0]], sections[1..];
      UniqueIsDistinct(rest, items);
      UniqueCons(sections, items);
      if Distinct(first + Flat(rest, items)) {
        DistinctParts(first, Flat(rest, items));
      }
      if Distinct(first) && Distinct(Flat(rest, items)) && forall x <- first :: x !in Flat(rest, items) {
        DistinctJoin(first, Flat(rest, items));
      }
    }
  }

  lemma UniqueCons(sections: seq<Id>, items: Items)
    requires (forall s <- sections :: s in items) && sections != []
    ensures var first, rest := items[sections[0]], sections[1..];
            Unique(sections, items) <==>
            Distinct(first) && Unique(rest, items) && forall x <- first :: x !in Flat(rest, items)
  {
    if Unique(sections, items) {
      UniqueParts(sections, items);
    }
    var first, rest := items[sections[0]], sections[1..];
    if Distinct(first) && Unique(rest, items) && forall x <- first :: x !in Flat(rest, items) {
      UniqueJoin(sections, items);
    }
  }

  lemma LaterPath(sections: seq<Id>, items: Items, p: Path)
    requires (forall s <- sections :: s in items) && sections != [] && InRange(sections[1..], items, p)
    ensures InRange(sections, items, (p.0 + 1, p.1))
    ensures ItemAt(sections, items, (p.0 + 1, p.1)) == ItemAt(sections[1..], items, p)
  {}

  lemma UniqueParts(sections: seq<Id>, items: Items)
    requires (forall s <- sections :: s in items) && sections != [] && Unique(sections, items)
    ensures var first, rest := items[sections[0]], sections[1..];
            Distinct(first) && Unique(rest, items) && forall x <- first :: x !in Flat(rest, items)
  {
    var first, rest := items[sections[0]], sections[1..];
    forall i, j | 0 <= i < j < |first| ensures first[i] != first[j] {
      assert ItemAt(sections, items, (0, i)) == first[i] && ItemAt(sections, items, (0, j)) == first[j];
    }
    forall p: Path, q: Path | InRange(rest, items, p) && InRange(rest, items, q)
      && ItemAt(rest, items, p) == ItemAt(rest, items, q)
      ensures p == q
    {
      LaterPath(sections, items, p);
      LaterPath(sections, items, q);
    }
    forall i: nat, p: Path | i < |first| && InRange(rest, items, p) ensures first[i] != ItemAt(rest, items, p) {
      LaterPath(sections, items, p);
      assert ItemAt(sections, items, (0, i)) == first[i];
    }
    forall x | x in first ensures x !in Flat(rest, items) {
      ItemsHavePaths(rest, items, x);
    }
  }

  lemma UniqueJoin(sections: seq<Id>, items: Items)
    requires (forall s <- sections :: s in items) && sections != []
    requires Distinct(items[sections[0]]) && Unique(sections[1..], items)
    requires forall x <- items[sections[0]] :: x !in Flat(sections[1..], items)
    ensures Unique(sections, items)
  {
    var rest := sections[1..];
    forall p: Path, q: Path | InRange(sections, items, p) && InRange(sections, items, q)
      && ItemAt(sections, items, p) == ItemAt(sections, items, q)
      ensures p == q
    {
      ItemsHavePaths(rest, items, ItemAt(sections, items, p));
      if p.0 > 0 {
        assert InRange(rest, items, (p.0 - 1, p.1))
          && ItemAt(rest, items, (p.0 - 1, p.1)) == ItemAt(sections, items, p);
      }
      if q.0 > 0 {
        assert InRange(rest, items, (q.0 - 1, q.1))
          && ItemAt(rest, items, (q.0 - 1, q.1)) == ItemAt(sections, items, q);
      }
    }
  }
}
