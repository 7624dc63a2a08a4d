/**
  Listings of versions of a bucket, page by page: which entries the database is asked for,
  exactly when a page misses nothing after its marker, and why the pages that follow one
  another make up the whole listing.
 */
module VersionPages {
  import opened Strings
  import opened Keys
  import opened Paging
  import opened VersionListing
  import opened VersionsDelimiter
  import MasterListing
  import L = ListingPages

  /** The range of raw keys asked for: like for current versions, but from the first
      version of the marker's key, or past the last one. */
  function GenMDParamsV0(scope: Scope, start: Marker): L.Range {
    var r := L.GenMDParamsV0(scope, start.key);
    if r.gt == None then r
    else if start.versionId != [] then L.Range(None, Some(start.key + [VID_SEP]), r.lt)
    else L.Range(Some(start.key + Inc([VID_SEP])), None, r.lt)
  }

  /** The entries whose keys are to be kept, in order. */
  function Filter(b: seq<Entry>, keep: Str -> bool): (r: seq<Entry>)
    ensures |r| <= |b|
    ensures forall e :: e in r <==> e in b && keep(e.key)
  {
    if b == [] then [] else (if keep(b[0].key) then [b[0]] else []) + Filter(b[1..], keep)
  }

  /** What the database returns for a range. */
  function Select(b: seq<Entry>, r: L.Range): seq<Entry> {
    Filter(b, k => L.InRange(k, r))
  }

  /** The whole listing of a bucket under a prefix. */
  function AllItems(b: seq<Entry>, scope: Scope): seq<Item> {
    Items(Steps(Flow(None, Filter(b, k => StartsWith(MasterOf(k), scope.prefix))), None, scope))
  }

  /** The items that come after a marker; an empty key is no marker. */
  predicate IsAfter(item: Item, start: Marker) {
    || start.key == []
    || Lt(start.key, ItemKey(item))
    || (start.versionId != [] && item.VersionItem? && item.key == start.key && Lt(start.versionId, item.versionId))
  }

  function ItemsAfter(items: seq<Item>, start: Marker): (r: seq<Item>)
    ensures |r| <= |items|
    ensures forall item :: item in r <==> item in items && IsAfter(item, start)
  {
    if items == [] then []
    else (if IsAfter(items[0], start) then [items[0]] else []) + ItemsAfter(items[1..], start)
  }

  /**
    The entries that the range of a marker leaves out without need: with a version id
    marker the master entry of its key, without one the entry right after all versions of
    the key, because the range starts beyond it and not at it.
   */
  predicate IsOverlooked(e: Entry, scope: Scope, start: Marker) {
    && L.GenMDParamsV0(scope, start.key).gt.Some?
    && e.key == if start.versionId != [] then start.key else start.key + Inc([VID_SEP])
  }

  /** An overlooked entry does no harm if another entry stands for the same item. */
  ghost predicate NothingOverlooked(b: seq<Entry>, scope: Scope, start: Marker) {
    forall e :: e in b && IsOverlooked(e, scope, start)
                && IsListable(EventOf(e)) && StartsWith(MasterOf(e.key), scope.prefix)
                && IsAfter(ItemOf(EventOf(e), scope), start) ==>
      exists d :: d in b && !IsOverlooked(d, scope, start) && StartsWith(MasterOf(d.key), scope.prefix)
                  && IsListable(EventOf(d)) && ItemOf(EventOf(d), scope) == ItemOf(EventOf(e), scope)
  }

  // ---------------------------------------------------------------------------
  // Parts of a bucket

  lemma {:induction false} FilterIsSorted(b: seq<Entry>, keep: Str -> bool)
    requires SortedEntries(b)
    ensures SortedEntries(Filter(b, keep))
  {
    hide Lt;
    if b != [] {
      FilterIsSorted(b[1..], keep);
      LaterEntries(b);
      var rest := Filter(b[1..], keep);
      assert forall i :: 0 <= i < |rest| ==> rest[i] in rest;
    }
  }

  lemma FilterIsBucket(b: seq<Entry>, keep: Str -> bool)
    requires IsBucket(b)
    ensures IsBucket(Filter(b, keep))
  {
    hide Lt;
    hide MasterIsNewest;
    hide EventOf;
    hide IsNullEntry;
    hide Position;
    hide MasterOf;
    FilterIsSorted(b, keep);
  }

  ghost predicate HasItem(item: Item, b: seq<Entry>, keep: Str -> bool, s: Skipping, scope: Scope) {
    exists e :: e in b && keep(e.key) && !Skips(s, EventOf(e))
                && IsListable(EventOf(e)) && ItemOf(EventOf(e), scope) == item
  }

  /** The events of a listing that starts past some events are those of the entries left. */
  lemma EventsOfPart(b: seq<Entry>, keep: Str -> bool, s: Skipping)
    requires IsBucket(b)
    requires s.UpTo? ==> !IsVersionKey(s.key) && forall e :: e in b && keep(e.key) ==> Lt(s.key, e.key)
    requires !s.Under?
    ensures var events, rest := Flow(None, Filter(b, keep)), Drop(Flow(None, Filter(b, keep)), s);
            && SortedEvents(rest) && AreVersions(rest)
            && (forall v :: v in events <==> exists e :: e in Filter(b, keep) && EventOf(e) == v)
            && (forall v :: v in rest <==> v in events && !Skips(s, v))
  {
    hide Lt;
    hide Flow;
    hide EventOf;
    hide Position;
    hide MasterIsNewest;
    hide IsVersionKey;
    hide IsNullEntry;
    var part := Filter(b, keep);
    FilterIsBucket(b, keep);
    BucketFlow(part);
    var events := Flow(None, part);
    if s.UpTo? {
      forall v | v in events
        ensures Lt(s.key, Position(v))
      {
        var e :| e in part && EventOf(e) == v;
        EventIsLater(e);
        Transitive(s.key, e.key, Position(v));
      }
      DropUpTo(events, s.key, s.versionId);
    }
  }

  /** The items of a listing that starts past some events are those of the entries left. */
  lemma ItemsOfPart(b: seq<Entry>, keep: Str -> bool, s: Skipping, scope: Scope)
    requires IsBucket(b)
    requires s.UpTo? ==> !IsVersionKey(s.key) && forall e :: e in b && keep(e.key) ==> Lt(s.key, e.key)
    requires !s.Under?
    ensures var items := Items(Steps(Drop(Flow(None, Filter(b, keep)), s), None, scope));
            && SortedItems(items)
            && forall item :: item in items <==> HasItem(item, b, keep, s, scope)
  {
    hide Lt;
    hide Flow;
    hide EventOf;
    hide ItemOf;
    hide IsListable;
    hide Position;
    hide MasterIsNewest;
    hide IsVersionKey;
    hide IsNullEntry;
    hide Items;
    hide Steps;
    hide Skips;
    hide Drop;
    EventsOfPart(b, keep, s);
    var events := Flow(None, Filter(b, keep));
    var rest := Drop(events, s);
    StepsAreDistinct(rest, None, scope);
    var items := Items(Steps(rest, None, scope));
    forall item
      ensures item in items <==> HasItem(item, b, keep, s, scope)
    {
      ItemOfEntry(item, b, keep, s, scope, events, rest);
    }
  }

  lemma ItemOfEntry(item: Item, b: seq<Entry>, keep: Str -> bool, s: Skipping, scope: Scope,
                    events: seq<Event>, rest: seq<Event>)
    requires forall v :: v in events <==> exists e :: e in Filter(b, keep) && EventOf(e) == v
    requires forall v :: v in rest <==> v in events && !Skips(s, v)
    ensures IsItemOf(item, rest, None, scope) <==> HasItem(item, b, keep, s, scope)
  {
    hide Lt;
    hide EventOf;
    hide ItemOf;
    hide IsListable;
    hide Skips;
    if IsItemOf(item, rest, None, scope) {
      var v :| v in rest && IsListable(v) && !IsAgain(v, None) && ItemOf(v, scope) == item;
      var e :| e in Filter(b, keep) && EventOf(e) == v;
    }
    if HasItem(item, b, keep, s, scope) {
      var e :| e in b && keep(e.key) && !Skips(s, EventOf(e))
               && IsListable(EventOf(e)) && ItemOf(EventOf(e), scope) == item;
      assert e in Filter(b, keep);
      assert EventOf(e) in rest;
    }
  }

  // ---------------------------------------------------------------------------
  // Ranges and markers

  lemma NoDifferenceToMaster(k: Str, bound: Str)
    requires !IsVersionKey(bound)
    ensures Lt(k, bound) <==> Lt(MasterOf(k), bound)
    ensures Lt(bound, k) <==> Lt(bound, MasterOf(k)) || (bound == MasterOf(k) && IsVersionKey(k))
  {
    hide Lt;
    var m := MasterOf(k);
    if IsVersionKey(k) {
      MasterIsBefore(k);
    } else {
      assert k[..|k|] == k;
    }
    Ordered();
    if Lt(m, bound) && Le(bound, k) {
      BetweenVersions(m, bound, k);
    }
  }

  /** Which raw keys come after all the versions of a key, and the next possible key. */
  lemma PastVersions(k: Str, m0: Str)
    requires !IsVersionKey(m0)
    ensures Lt(m0 + [1], k) <==> Lt(m0, MasterOf(k)) && k != m0 + [1]
    ensures MasterOf(m0 + [1]) == m0 + [1] && Lt(m0, m0 + [1])
  {
    hide Lt;
    assert Inc(m0 + [0]) == m0 + [1];
    NoSeparator(m0);
    NoSeparator(m0 + [1]);
    PrefixIsRange(k, m0 + [0]);
    NextString(m0, k);
    NextString(m0, m0 + [1]);
    PrefixIsRange(m0 + [0], m0 + [0]);
    NoDifferenceToMaster(k, m0);
    assert (m0 + [1])[..|m0+[1]|] == m0 + [1];
    if IsVersionKey(k) {
      VersionStartsWith(k);
    }
    if StartsWith(k, m0 + [0]) {
      StartsWithVersion(k, m0);
    }
    Ordered();
  }

  /** Whether an entry belongs to the part of the bucket after a marker. */
  predicate Belongs(e: Entry, scope: Scope, start: Marker) {
    StartsWith(MasterOf(e.key), scope.prefix) && IsAfter(ItemOf(EventOf(e), scope), start)
  }

  /** Whether a listing from a marker reads an entry and does not pass over it. */
  predicate IsRead(e: Entry, scope: Scope, start: Marker) {
    L.InRange(e.key, GenMDParamsV0(scope, start)) && !Skips(StartOf(start), EventOf(e))
  }

  lemma ItemKeyIs(e: Entry, scope: Scope)
    ensures ItemKey(ItemOf(EventOf(e), scope)) == L.ItemKeyOf(MasterOf(e.key), scope)
  {
  }

  /** Where the range starts by the marker's key: after it, the key under no common prefix. */
  lemma MarkerRange(scope: Scope, start: Marker)
    requires L.IsPlain(scope, start.key)
    ensures var r := L.GenMDParamsV0(scope, start.key);
            && (r.lt.Some? ==> !IsVersionKey(r.lt.value))
            && (r.gte.Some? ==> !IsVersionKey(r.gte.value))
            && (r.gt.Some? ==>
                  && start.key != [] && r == L.Range(Some(start.key), None, r.lt)
                  && CommonPrefixOf(start.key, scope.prefix, scope.delimiter) == None
                  && (StartsWith(start.key, scope.prefix) <==> !L.Above(start.key, r)))
            && (r.gt.None? && start.key != [] ==> r.gte.Some? && Lt(start.key, r.gte.value))
  {
    hide Lt;
    L.BoundsArePlain(scope, start.key);
    L.InPrefix(start.key, scope);
    var p := CommonPrefixOf(start.key, scope.prefix, scope.delimiter);
    if start.key != [] && p.Some? {
      L.AfterGroupedMarker(start.key, scope, start.key);
    }
    Ordered();
  }

  /** A range that does not start by the marker's key starts past it. */
  lemma ReadPastMarker(e: Entry, scope: Scope, start: Marker)
    requires L.IsPlain(scope, start.key) && L.GenMDParamsV0(scope, start.key).gt.None?
    requires start.versionId != [] ==> start.key != []
    ensures IsRead(e, scope, start) <==> Belongs(e, scope, start)
  {
    hide Lt;
    hide L.GenMDParamsV0;
    hide ItemOf;
    var m, r := MasterOf(e.key), L.GenMDParamsV0(scope, start.key);
    MarkerRange(scope, start);
    if r.lt.Some? {
      NoDifferenceToMaster(e.key, r.lt.value);
    }
    if r.gte.Some? {
      NoDifferenceToMaster(e.key, r.gte.value);
    }
    L.RangeIsAfterMarker(m, scope, start.key);
    ItemKeyIs(e, scope);
    L.ItemKeyBounds(m, scope);
    assert L.InRange(e.key, r) <==> L.InRange(m, r);
    if r.gte.Some? {
      Transitive(start.key, r.gte.value, m);
      StrictTotalOrder(start.key, m, m);
    }
    SameKeyIsContent(e, scope, start.key);
    if start.key != [] && m == start.key {
      assert !L.InRange(m, r);
    }
    if start.key != [] {
      OutOfRangeAtMarker(scope, start);
    }
  }

  lemma SameKeyIsContent(e: Entry, scope: Scope, k: Str)
    ensures ItemOf(EventOf(e), scope).VersionItem? ==>
              ItemOf(EventOf(e), scope).key == MasterOf(e.key)
              && CommonPrefixOf(MasterOf(e.key), scope.prefix, scope.delimiter) == None
  {
  }

  /** A marker's key past which the range starts is not under the prefix, or grouped. */
  lemma OutOfRangeAtMarker(scope: Scope, start: Marker)
    requires L.IsPlain(scope, start.key) && L.GenMDParamsV0(scope, start.key).gt.None? && start.key != []
    ensures StartsWith(start.key, scope.prefix) ==>
              CommonPrefixOf(start.key, scope.prefix, scope.delimiter).Some?
  {
    hide Lt;
    if StartsWith(start.key, scope.prefix) {
      PrefixIsLe(start.key, scope.prefix);
    }
  }

  /** A range that starts by a version id marker starts with the versions of its key. */
  lemma ReadAtVersion(e: Entry, scope: Scope, start: Marker)
    requires L.IsPlain(scope, start.key) && L.GenMDParamsV0(scope, start.key).gt.Some? && start.versionId != []
    requires IsNullEntry(e) ==> e.value.versionId.Some?
    ensures if IsOverlooked(e, scope, start) then !IsRead(e, scope, start)
            else IsRead(e, scope, start) <==> Belongs(e, scope, start)
  {
    hide Lt;
    hide L.GenMDParamsV0;
    hide CommonPrefixOf;
    var k, m, r := e.key, MasterOf(e.key), L.GenMDParamsV0(scope, start.key);
    MarkerRange(scope, start);
    if r.lt.Some? {
      NoDifferenceToMaster(k, r.lt.value);
    }
    NoDifferenceToMaster(k, start.key);
    NextString(start.key, k);
    L.RangeIsAfterMarker(m, scope, start.key);
    ItemKeyIs(e, scope);
    L.ItemKeyBounds(m, scope);
    hide L.ItemKeyOf;
    assert k[..|k|] == k;
    StrictTotalOrder(start.key, m, start.key);
    Transitive(start.key, L.ItemKeyOf(m, scope), m);
    StrictTotalOrder(start.key, start.key, start.key);
    if m == start.key && IsVersionKey(k) {
      assert ItemOf(EventOf(e), scope) == VersionItem(m, IdOf(EventOf(e)), e.value);
    }
  }

  /** A range that starts by a marker's key alone starts past the next possible key. */
  lemma ReadAfterVersions(e: Entry, scope: Scope, start: Marker)
    requires L.IsPlain(scope, start.key) && L.GenMDParamsV0(scope, start.key).gt.Some? && start.versionId == []
    ensures if IsOverlooked(e, scope, start) then !IsRead(e, scope, start)
            else IsRead(e, scope, start) <==> Belongs(e, scope, start)
  {
    hide Lt;
    hide L.GenMDParamsV0;
    hide ItemOf;
    var k, m, r := e.key, MasterOf(e.key), L.GenMDParamsV0(scope, start.key);
    MarkerRange(scope, start);
    if r.lt.Some? {
      NoDifferenceToMaster(k, r.lt.value);
    }
    assert Inc([VID_SEP]) == [1];
    PastVersions(k, start.key);
    L.RangeIsAfterMarker(m, scope, start.key);
    ItemKeyIs(e, scope);
    L.ItemKeyBounds(m, scope);
    hide L.ItemKeyOf;
    Transitive(start.key, L.ItemKeyOf(m, scope), m);
  }

  /** Except for what is overlooked, a listing reads what belongs to it. */
  lemma ReadIsWhatBelongs(e: Entry, scope: Scope, start: Marker)
    requires L.IsPlain(scope, start.key) && (start.versionId != [] ==> start.key != [])
    requires IsNullEntry(e) ==> e.value.versionId.Some?
    ensures if IsOverlooked(e, scope, start) then !IsRead(e, scope, start)
            else IsRead(e, scope, start) <==> Belongs(e, scope, start)
  {
    hide *;
    hide L.GenMDParamsV0;
    if L.GenMDParamsV0(scope, start.key).gt.None? {
      NotOverlooked(e, scope, start);
      ReadPastMarker(e, scope, start);
    } else if start.versionId != [] {
      ReadAtVersion(e, scope, start);
    } else {
      ReadAfterVersions(e, scope, start);
    }
  }

  lemma NotOverlooked(e: Entry, scope: Scope, start: Marker)
    requires L.GenMDParamsV0(scope, start.key).gt.None?
    ensures !IsOverlooked(e, scope, start)
  {
  }

  /** What a listing from a version id marker reads are the versions from its key on. */
  lemma SelectIsStream(b: seq<Entry>, scope: Scope, start: Marker)
    requires IsBucket(b) && L.IsPlain(scope, start.key) && (start.versionId != [] ==> start.key != [])
    ensures IsStream(Select(b, GenMDParamsV0(scope, start)), start)
  {
    hide Lt;
    hide L.GenMDParamsV0;
    var r := GenMDParamsV0(scope, start);
    FilterIsSorted(b, k => L.InRange(k, r));
    MarkerRange(scope, start);
    if start.versionId != [] {
      forall e | e in Select(b, r)
        ensures Le(start.key + [VID_SEP], e.key)
      {
        var base := L.GenMDParamsV0(scope, start.key);
        if base.gt.None? {
          Transitive(start.key, base.gte.value, e.key);
          NextString(start.key, e.key);
        }
      }
    }
  }

  // ---------------------------------------------------------------------------
  // One page

  lemma RestItems(a: seq<Item>)
    requires SortedItems(a) && a != []
    ensures SortedItems(a[1..])
    ensures forall item :: item in a[1..] <==> item in a && item != a[0]
  {
    hide Precedes;
    forall i | 1 <= i < |a|
      ensures a[i] != a[0]
    {
      Asymmetric(a[0], a[i]);
    }
    forall item | item in a && item != a[0]
      ensures item in a[1..]
    {
      var i :| 0 <= i < |a| && a[i] == item;
      assert a[1..][i-1] == item;
    }
  }

  lemma {:induction false} SortedItemsAreUnique(a: seq<Item>, b: seq<Item>)
    requires SortedItems(a) && SortedItems(b)
    requires forall item :: item in a <==> item in b
    ensures a == b
  {
    hide Precedes;
    assert a != [] ==> a[0] in b;
    assert b != [] ==> b[0] in a;
    if a != [] && b != [] {
      Asymmetric(a[0], b[0]);
      RestItems(a);
      RestItems(b);
      SortedItemsAreUnique(a[1..], b[1..]);
    }
  }

  lemma {:induction false} ItemsAfterSorted(items: seq<Item>, start: Marker)
    requires SortedItems(items)
    ensures SortedItems(ItemsAfter(items, start))
  {
    hide Precedes;
    hide IsAfter;
    if items != [] {
      RestItems(items);
      ItemsAfterSorted(items[1..], start);
      var rest := ItemsAfter(items[1..], start);
      assert forall i :: 0 <= i < |rest| ==> rest[i] in items[1..];
    }
  }

  /** The items of the whole listing: those of the listable entries under the prefix. */
  lemma AllItemsAre(b: seq<Entry>, scope: Scope)
    requires IsBucket(b)
    ensures SortedItems(AllItems(b, scope))
    ensures forall item :: item in AllItems(b, scope) <==>
              exists e :: e in b && StartsWith(MasterOf(e.key), scope.prefix)
                          && IsListable(EventOf(e)) && ItemOf(EventOf(e), scope) == item
  {
    hide Lt;
    hide Flow;
    hide IsBucket;
    hide SortedItems;
    hide Filter;
    hide Items;
    hide Steps;
    hide EventOf;
    hide ItemOf;
    hide IsListable;
    hide StartsWith;
    var keep := k => StartsWith(MasterOf(k), scope.prefix);
    ItemsOfPart(b, keep, Nothing, scope);
    assert Drop(Flow(None, Filter(b, keep)), Nothing) == Flow(None, Filter(b, keep));
    forall item
      ensures HasItem(item, b, keep, Nothing, scope) <==>
                exists e :: e in b && StartsWith(MasterOf(e.key), scope.prefix)
                            && IsListable(EventOf(e)) && ItemOf(EventOf(e), scope) == item
    {
    }
  }

  /** The items that a listing from a marker finds. */
  function ItemsFrom(b: seq<Entry>, scope: Scope, start: Marker): seq<Item> {
    Items(StepsFrom(Select(b, GenMDParamsV0(scope, start)), start, scope))
  }

  lemma ItemsFromAre(b: seq<Entry>, scope: Scope, start: Marker)
    requires IsBucket(b) && L.IsPlain(scope, start.key) && (start.versionId != [] ==> start.key != [])
    ensures SortedItems(ItemsFrom(b, scope, start))
    ensures forall item :: item in ItemsFrom(b, scope, start) <==>
              exists e :: e in b && IsRead(e, scope, start)
                          && IsListable(EventOf(e)) && ItemOf(EventOf(e), scope) == item
  {
    hide Lt;
    hide Flow;
    hide IsBucket;
    hide SortedItems;
    hide Items;
    hide Steps;
    hide EventOf;
    hide ItemOf;
    hide IsListable;
    hide GenMDParamsV0;
    hide L.InRange;
    var r := GenMDParamsV0(scope, start);
    var keep := k => L.InRange(k, r);
    SelectIsStream(b, scope, start);
    assert Select(b, r) == Filter(b, keep);
    if start.versionId != [] {
      forall e | e in b && keep(e.key)
        ensures Lt(start.key, e.key)
      {
        assert e in Select(b, r);
        NextString(start.key, e.key);
      }
    }
    hide Filter;
    ItemsOfPart(b, keep, StartOf(start), scope);
    forall item
      ensures HasItem(item, b, keep, StartOf(start), scope) <==>
                exists e :: e in b && IsRead(e, scope, start)
                            && IsListable(EventOf(e)) && ItemOf(EventOf(e), scope) == item
    {
    }
  }

  /**
    Listing the range asked for a marker gives the items of the whole listing that come
    after the marker exactly when nothing is overlooked: no version missed, none repeated.
   */
  lemma RangeListsItemsAfter(b: seq<Entry>, scope: Scope, start: Marker)
    requires IsBucket(b) && L.IsPlain(scope, start.key) && (start.versionId != [] ==> start.key != [])
    ensures ItemsFrom(b, scope, start) == ItemsAfter(AllItems(b, scope), start) <==> NothingOverlooked(b, scope, start)
  {
    hide Lt;
    hide ItemsFrom;
    hide AllItems;
    hide ItemsAfter;
    hide SortedItems;
    hide EventOf;
    hide ItemOf;
    hide IsListable;
    hide IsRead;
    hide IsAfter;
    hide IsOverlooked;
    hide StartsWith;
    hide MasterOf;
    var from, after := ItemsFrom(b, scope, start), ItemsAfter(AllItems(b, scope), start);
    AllItemsAre(b, scope);
    ItemsFromAre(b, scope, start);
    ItemsAfterSorted(AllItems(b, scope), start);
    forall e | e in b
      ensures if IsOverlooked(e, scope, start) then !IsRead(e, scope, start)
              else IsRead(e, scope, start) <==> Belongs(e, scope, start)
    {
      ReadIsWhatBelongs(e, scope, start);
    }
    if from == after {
      forall e | e in b && IsOverlooked(e, scope, start) && IsListable(EventOf(e)) && Belongs(e, scope, start)
        ensures exists d :: d in b && !IsOverlooked(d, scope, start) && StartsWith(MasterOf(d.key), scope.prefix)
                            && IsListable(EventOf(d)) && ItemOf(EventOf(d), scope) == ItemOf(EventOf(e), scope)
      {
        assert ItemOf(EventOf(e), scope) in from;
        var d :| d in b && IsRead(d, scope, start)
                 && IsListable(EventOf(d)) && ItemOf(EventOf(d), scope) == ItemOf(EventOf(e), scope);
      }
    }
    forall item | item in from
      ensures item in after
    {
      var d :| d in b && IsRead(d, scope, start) && IsListable(EventOf(d)) && ItemOf(EventOf(d), scope) == item;
    }
    if NothingOverlooked(b, scope, start) {
      forall item | item in after
        ensures item in from
      {
        var e :| e in b && StartsWith(MasterOf(e.key), scope.prefix)
                 && IsListable(EventOf(e)) && ItemOf(EventOf(e), scope) == item;
        if IsOverlooked(e, scope, start) {
          var d :| d in b && !IsOverlooked(d, scope, start) && StartsWith(MasterOf(d.key), scope.prefix)
                   && IsListable(EventOf(d)) && ItemOf(EventOf(d), scope) == ItemOf(EventOf(e), scope);
          assert IsRead(d, scope, start);
        }
      }
      SortedItemsAreUnique(from, after);
    }
  }

  // ---------------------------------------------------------------------------
  // All pages

  lemma ItemIsPlain(e: Entry, scope: Scope)
    requires MasterOf(e.key) != []
    requires IsNullEntry(e) ==> e.value.versionId.Some? && e.value.versionId.value != []
    ensures var item := ItemOf(EventOf(e), scope);
            && ItemKey(item) != [] && !IsVersionKey(ItemKey(item))
            && (item.VersionItem? ==> item.versionId != [])
  {
    var m := MasterOf(e.key);
    if CommonPrefixOf(m, scope.prefix, scope.delimiter).Some? {
      CommonPrefixStarts(m, scope.prefix, scope.delimiter);
      PrefixHasNoSeparator(m, CommonPrefixOf(m, scope.prefix, scope.delimiter).value);
    }
  }

  /** At the marker of a listed item, nothing is overlooked. */
  lemma PageMarkerFits(b: seq<Entry>, scope: Scope, item: Item)
    requires IsBucket(b) && L.IsPlain(scope, []) && item in AllItems(b, scope)
    ensures var next := MarkerOf(item);
            && next.key != [] && L.IsPlain(scope, next.key)
            && NothingOverlooked(b, scope, next)
  {
    hide Lt;
    hide AllItems;
    hide L.GenMDParamsV0;
    hide MasterOf;
    hide IsVersionKey;
    hide IsNullEntry;
    hide StartsWith;
    AllItemsAre(b, scope);
    var next := MarkerOf(item);
    var d :| d in b && StartsWith(MasterOf(d.key), scope.prefix)
             && IsListable(EventOf(d)) && ItemOf(EventOf(d), scope) == item;
    ItemIsPlain(d, scope);
    if item.CommonPrefix? {
      CommonPrefixStarts(MasterOf(d.key), scope.prefix, scope.delimiter);
      assert StartsWith(item.prefix, item.prefix) by {
        PrefixOfItself(item.prefix);
      }
      CommonPrefixShared(MasterOf(d.key), item.prefix, scope.prefix, scope.delimiter);
      MarkerRange(scope, next);
    } else {
      forall e | e in b && IsOverlooked(e, scope, next)
        ensures !IsListable(EventOf(e)) || !IsAfter(ItemOf(EventOf(e), scope), next)
      {
        OneEntryPerKey(b, d, e);
        OverlookedMaster(e, d, scope, item);
      }
    }
  }

  lemma OneEntryPerKey(b: seq<Entry>, d: Entry, e: Entry)
    requires SortedEntries(b) && d in b && e in b
    ensures d.key == e.key ==> d == e
  {
    hide Lt;
    var i :| 0 <= i < |b| && b[i] == d;
    var j :| 0 <= j < |b| && b[j] == e;
    StrictTotalOrder(d.key, e.key, d.key);
    StrictTotalOrder(d.key, d.key, d.key);
  }

  lemma PrefixOfItself(p: Str)
    ensures StartsWith(p, p)
  {
  }

  /** The master entry of a key does not come after a version of it. */
  lemma OverlookedMaster(e: Entry, d: Entry, scope: Scope, item: Item)
    requires MasterIsNewest(EventOf(e), EventOf(d))
    requires item.VersionItem? && ItemOf(EventOf(d), scope) == item && e.key == item.key && item.versionId != []
    requires d.key == e.key ==> d == e
    requires IsNullEntry(d) ==> d.value.versionId.Some?
    ensures !IsListable(EventOf(e)) || !IsAfter(ItemOf(EventOf(e), scope), MarkerOf(item)) || item.key == []
  {
    hide Lt;
    assert e.key == MasterOf(d.key);
    assert d.key[..|d.key|] == d.key;
    assert !IsVersionKey(e.key);
    assert e.key[..|e.key|] == e.key;
    StrictTotalOrder(item.key, item.key, item.key);
    StrictTotalOrder(item.versionId, item.versionId, item.versionId);
  }

  /** The items after the marker of a listed item are those that follow it. */
  lemma PageLeaves(items: seq<Item>, start: Marker, n: nat)
    requires SortedItems(items) && forall item :: item in items ==> ItemKey(item) != []
    requires forall item :: item in items && item.VersionItem? ==> item.versionId != []
    requires 0 < n <= |ItemsAfter(items, start)|
    ensures var rest := ItemsAfter(items, start);
            ItemsAfter(items, MarkerOf(rest[n-1])) == rest[n..]
  {
    hide Precedes;
    hide ItemsAfter;
    hide IsAfter;
    hide ItemKey;
    var rest := ItemsAfter(items, start);
    var last := rest[n-1];
    var left := ItemsAfter(items, MarkerOf(last));
    assert last in rest;
    ItemsAfterSorted(items, start);
    ItemsAfterSorted(items, MarkerOf(last));
    forall item | item in items
      ensures IsAfter(item, MarkerOf(last)) <==> Precedes(last, item)
      ensures Precedes(last, item) ==> IsAfter(item, start)
    {
      AfterMarkerOf(item, last, start);
    }
    RestAfter(rest, n);
    SortedItemsAreUnique(left, rest[n..]);
  }

  lemma RestAfter(rest: seq<Item>, n: nat)
    requires SortedItems(rest) && 0 < n <= |rest|
    ensures SortedItems(rest[n..])
    ensures forall item :: item in rest[n..] <==> item in rest && Precedes(rest[n-1], item)
  {
    hide Precedes;
    forall i | 0 <= i < |rest|
      ensures Precedes(rest[n-1], rest[i]) <==> n <= i
    {
      if i < n && Precedes(rest[n-1], rest[i]) {
        Asymmetric(rest[n-1], rest[i]);
      }
    }
    forall item | item in rest && Precedes(rest[n-1], item)
      ensures item in rest[n..]
    {
      var i :| 0 <= i < |rest| && rest[i] == item;
      assert rest[n..][i-n] == item;
    }
    forall item | item in rest[n..]
      ensures item in rest && Precedes(rest[n-1], item)
    {
      var i :| 0 <= i < |rest[n..]| && rest[n..][i] == item;
      assert rest[n+i] == item;
    }
  }

  lemma AfterMarkerOf(item: Item, last: Item, start: Marker)
    requires ItemKey(last) != [] && (last.VersionItem? ==> last.versionId != [])
    ensures IsAfter(item, MarkerOf(last)) <==> Precedes(last, item)
    ensures IsAfter(last, start) && Precedes(last, item) ==> IsAfter(item, start)
  {
    hide Lt;
    Ordered();
  }

  /** The id under which an entry is listed: the one in its key, or if there is none the one in
      its value, and "null" if there is none in the value of a master entry. */
  function ListedId(e: Entry): Str {
    if IsVersionKey(e.key) && VersionIdIn(e.key) != [] then VersionIdIn(e.key)
    else match e.value.versionId
         case Some(id) => if id == [] && !IsVersionKey(e.key) then NULL_ID else id
         case None => NULL_ID
  }

  /** An entry to list as `item`: no placeholder, no internal replay key, under the prefix. */
  predicate StandsFor(e: Entry, item: Item, scope: Scope) {
    && !e.value.isPHD && !StartsWith(MasterOf(e.key), REPLAY_PREFIX) && StartsWith(MasterOf(e.key), scope.prefix)
    && match item
       case VersionItem(k, id, value) =>
         && MasterOf(e.key) == k && ListedId(e) == id && e.value == value
         && CommonPrefixOf(k, scope.prefix, scope.delimiter) == None
       case CommonPrefix(p) => CommonPrefixOf(MasterOf(e.key), scope.prefix, scope.delimiter) == Some(p)
  }

  /** What there is to list in a bucket after a marker. */
  ghost predicate IsItemAfter(b: seq<Entry>, scope: Scope, start: Marker, item: Item) {
    IsAfter(item, start) && exists e :: e in b && StandsFor(e, item, scope)
  }

  /** What a listing from a marker finds of it: not what only overlooked entries stand for. */
  ghost predicate IsFoundAfter(b: seq<Entry>, scope: Scope, start: Marker, item: Item) {
    IsAfter(item, start) && exists e :: e in b && StandsFor(e, item, scope) && !IsOverlooked(e, scope, start)
  }

  lemma StandsForItem(e: Entry, item: Item, scope: Scope)
    ensures StandsFor(e, item, scope) <==>
              IsListable(EventOf(e)) && StartsWith(MasterOf(e.key), scope.prefix) && ItemOf(EventOf(e), scope) == item
  {
    hide CommonPrefixOf;
    hide StartsWith;
    hide MasterOf;
    ListedIdIs(e);
    hide IdOf;
    hide ListedId;
  }

  lemma ListedIdIs(e: Entry)
    ensures IdOf(EventOf(e)) == ListedId(e)
  {
  }

  lemma FoundItems(b: seq<Entry>, scope: Scope, start: Marker)
    requires IsBucket(b) && L.IsPlain(scope, start.key) && (start.versionId != [] ==> start.key != [])
    ensures forall item :: item in ItemsFrom(b, scope, start) <==> IsFoundAfter(b, scope, start, item)
  {
    hide Lt;
    hide ItemsFrom;
    hide EventOf;
    hide ItemOf;
    hide IsListable;
    hide IsRead;
    hide IsAfter;
    hide IsOverlooked;
    hide StartsWith;
    hide MasterOf;
    hide StandsFor;
    hide SortedItems;
    hide SortedEntries;
    hide IsNullEntry;
    hide MasterIsNewest;
    hide L.IsPlain;
    ItemsFromAre(b, scope, start);
    forall e, item | e in b
      ensures IsRead(e, scope, start) && IsListable(EventOf(e)) && ItemOf(EventOf(e), scope) == item
         <==> IsAfter(item, start) && StandsFor(e, item, scope) && !IsOverlooked(e, scope, start)
    {
      ReadIsWhatBelongs(e, scope, start);
      StandsForItem(e, item, scope);
    }
  }

  lemma ItemsAreThose(b: seq<Entry>, scope: Scope, start: Marker)
    requires IsBucket(b)
    ensures SortedItems(ItemsAfter(AllItems(b, scope), start))
    ensures forall item :: item in ItemsAfter(AllItems(b, scope), start) <==> IsItemAfter(b, scope, start, item)
  {
    hide Lt;
    hide AllItems;
    hide EventOf;
    hide ItemOf;
    hide IsListable;
    hide IsAfter;
    hide StartsWith;
    hide MasterOf;
    hide StandsFor;
    hide SortedItems;
    hide IsBucket;
    AllItemsAre(b, scope);
    ItemsAfterSorted(AllItems(b, scope), start);
    forall e, item | e in b
      ensures IsListable(EventOf(e)) && StartsWith(MasterOf(e.key), scope.prefix) && ItemOf(EventOf(e), scope) == item
         <==> StandsFor(e, item, scope)
    {
      StandsForItem(e, item, scope);
    }
  }

  /** With nothing overlooked, all there is to list is found. */
  lemma AllIsFound(b: seq<Entry>, scope: Scope, start: Marker)
    requires IsBucket(b) && L.IsPlain(scope, start.key) && (start.versionId != [] ==> start.key != [])
    requires NothingOverlooked(b, scope, start)
    ensures forall item :: IsFoundAfter(b, scope, start, item) <==> IsItemAfter(b, scope, start, item)
  {
    hide IsBucket;
    hide ItemsFrom;
    hide ItemsAfter;
    hide AllItems;
    hide NothingOverlooked;
    hide IsFoundAfter;
    hide IsItemAfter;
    hide L.IsPlain;
    RangeListsItemsAfter(b, scope, start);
    FoundItems(b, scope, start);
    ItemsAreThose(b, scope, start);
  }

  lemma BucketPageIsRight(b: seq<Entry>, scope: Scope, start: Marker, maxKeys: int)
    requires IsBucket(b) && L.IsPlain(scope, start.key) && (start.versionId != [] ==> start.key != [])
    ensures var steps := StepsFrom(Select(b, GenMDParamsV0(scope, start)), start, scope);
            IsPage(PageResult(steps, maxKeys, Marker(start.key, [])),
                   (iset item | IsFoundAfter(b, scope, start, item)), LastIsCopy(b, scope, start), maxKeys)
  {
    hide Lt;
    hide IsBucket;
    hide GenMDParamsV0;
    hide Select;
    hide StepsFrom;
    hide Items;
    hide IsPage;
    hide PageResult;
    hide IsFoundAfter;
    hide LastIsCopy;
    hide SortedItems;
    hide L.IsPlain;
    var steps := StepsFrom(Select(b, GenMDParamsV0(scope, start)), start, scope);
    ItemsFromAre(b, scope, start);
    FoundItems(b, scope, start);
    EndsExactly(b, scope, start);
    PageIsRight(steps, (iset item | IsFoundAfter(b, scope, start, item)), LastIsCopy(b, scope, start), maxKeys,
                start.key);
  }

  /** One page of the versions of a bucket, with any choice of jumps. */
  method ListPage(b: seq<Entry>, scope: Scope, start: Marker, maxKeys: int, jumps: seq<bool>)
    returns (result: ListingResult)
    requires IsBucket(b) && L.IsPlain(scope, start.key) && (start.versionId != [] ==> start.key != [])
    requires |jumps| >= |b|
    ensures result == PageResult(
              StepsFrom(Select(b, GenMDParamsV0(scope, start)), start, scope),
              if maxKeys == 0 then 1000 else maxKeys, Marker(start.key, []))
    ensures IsPage(result, (iset item | IsFoundAfter(b, scope, start, item)), LastIsCopy(b, scope, start),
                   if maxKeys == 0 then 1000 else maxKeys)
    ensures NothingOverlooked(b, scope, start) ==>
              forall item :: IsFoundAfter(b, scope, start, item) <==> IsItemAfter(b, scope, start, item)
  {
    hide Lt;
    hide IsBucket;
    hide GenMDParamsV0;
    hide IsPage;
    hide IsFoundAfter;
    hide IsItemAfter;
    hide LastIsCopy;
    hide NothingOverlooked;
    SelectIsStream(b, scope, start);
    var stream := Select(b, GenMDParamsV0(scope, start));
    result := ListVersions(stream, scope, start, maxKeys, jumps);
    BucketPageIsRight(b, scope, start, if maxKeys == 0 then 1000 else maxKeys);
    if NothingOverlooked(b, scope, start) {
      AllIsFound(b, scope, start);
    }
  }

  lemma {:induction false} OutputOfConcat(a: seq<Item>, b: seq<Item>)
    ensures VersionsIn(a + b) == VersionsIn(a) + VersionsIn(b)
    ensures PrefixesIn(a + b) == PrefixesIn(a) + PrefixesIn(b)
  {
    if b == [] {
      assert a + b == a;
    } else {
      var n := |b| - 1;
      OutputOfConcat(a, b[..n]);
      assert (a + b)[..|a+b|-1] == a + b[..n];
    }
  }

  /** One page on: the page and what its markers leave are what was left before. */
  lemma PageAdvances(b: seq<Entry>, scope: Scope, start: Marker, maxKeys: nat)
    requires IsBucket(b) && L.IsPlain(scope, start.key) && (start.versionId != [] ==> start.key != [])
    requires NothingOverlooked(b, scope, start) && maxKeys >= 1
    ensures var steps := StepsFrom(Select(b, GenMDParamsV0(scope, start)), start, scope);
            var r := PageResult(steps, maxKeys, Marker(start.key, []));
            var page, rest := Page(Items(steps), maxKeys), ItemsAfter(AllItems(b, scope), start);
            && r.versions == VersionsIn(page) && r.commonPrefixes == PrefixesIn(page)
            && (!r.isTruncated ==> page == rest && r.nextKeyMarker == None)
            && (r.isTruncated ==>
                  && r.nextKeyMarker.Some?
                  && var next := Marker(r.nextKeyMarker.value,
                                        if r.nextVersionIdMarker.Some? then r.nextVersionIdMarker.value else []);
                  && page + ItemsAfter(AllItems(b, scope), next) == rest
                  && |page| > 0 && next.key != [] && L.IsPlain(scope, next.key)
                  && NothingOverlooked(b, scope, next))
  {
    hide Lt;
    hide IsBucket;
    hide GenMDParamsV0;
    hide StepsFrom;
    hide AllItems;
    hide ItemsAfter;
    hide NothingOverlooked;
    hide VersionsIn;
    hide PrefixesIn;
    hide Items;
    hide SortedItems;
    hide L.IsPlain;
    hide PageResult;
    hide IsTruncated;
    hide Page;
    var steps := StepsFrom(Select(b, GenMDParamsV0(scope, start)), start, scope);
    RangeListsItemsAfter(b, scope, start);
    var rest := ItemsAfter(AllItems(b, scope), start);
    PageOf(steps, maxKeys, start);
    if IsTruncated(steps, maxKeys) {
      var last := rest[maxKeys-1];
      AllItemsArePlain(b, scope);
      AllItemsAre(b, scope);
      PageLeaves(AllItems(b, scope), start, maxKeys);
      NoMarkerIsPlain(scope, start.key);
      LastIsListed(AllItems(b, scope), start, maxKeys);
      PageMarkerFits(b, scope, last);
    }
  }

  lemma LastIsListed(items: seq<Item>, start: Marker, n: nat)
    requires 0 < n <= |ItemsAfter(items, start)|
    ensures ItemsAfter(items, start)[n-1] in items
  {
    assert ItemsAfter(items, start)[n-1] in ItemsAfter(items, start);
  }

  /** A page that calls itself truncated is full; otherwise nothing is left. */
  lemma PageOf(steps: seq<Step>, maxKeys: nat, start: Marker)
    requires maxKeys >= 1
    ensures var items, r := Items(steps), PageResult(steps, maxKeys, Marker(start.key, []));
            var page := Page(items, maxKeys);
            && r.versions == VersionsIn(page) && r.commonPrefixes == PrefixesIn(page)
            && r.isTruncated == IsTruncated(steps, maxKeys)
            && (!r.isTruncated ==> page == items && r.nextKeyMarker == None)
            && (r.isTruncated ==>
                  && |items| >= maxKeys && |page| == maxKeys && page + items[maxKeys..] == items
                  && var next := MarkerOf(items[maxKeys-1]);
                  && r.nextKeyMarker == Some(next.key)
                  && r.nextVersionIdMarker == if next.versionId != [] then Some(next.versionId) else None)
  {
    hide Items;
    hide VersionsIn;
    hide PrefixesIn;
    hide MarkerOf;
    var items := Items(steps);
    if |items| >= maxKeys {
      assert items == items[..maxKeys] + items[maxKeys..];
      assert Page(items, maxKeys)[maxKeys-1] == items[maxKeys-1];
    }
  }

  lemma NoMarkerIsPlain(scope: Scope, marker: Str)
    requires L.IsPlain(scope, marker)
    ensures L.IsPlain(scope, [])
  {
  }

  lemma AllItemsArePlain(b: seq<Entry>, scope: Scope)
    requires IsBucket(b)
    ensures forall item :: item in AllItems(b, scope) ==>
              ItemKey(item) != [] && (item.VersionItem? ==> item.versionId != [])
  {
    hide Lt;
    hide AllItems;
    AllItemsAre(b, scope);
    forall item | item in AllItems(b, scope)
      ensures ItemKey(item) != [] && (item.VersionItem? ==> item.versionId != [])
    {
      var e :| e in b && StartsWith(MasterOf(e.key), scope.prefix)
               && IsListable(EventOf(e)) && ItemOf(EventOf(e), scope) == item;
      ItemIsPlain(e, scope);
    }
  }

  /**
    All pages of the versions of a bucket, each requested with the markers of the one
    before.  Together they are the whole listing after the first marker: no version is
    missed or repeated, whatever the page size and the jumps.
   */
  method ListAllVersions(b: seq<Entry>, scope: Scope, from: Marker, maxKeys: nat, jumps: seq<bool>)
    returns (versions: seq<Item>, commonPrefixes: seq<Str>)
    requires IsBucket(b) && L.IsPlain(scope, from.key) && (from.versionId != [] ==> from.key != [])
    requires NothingOverlooked(b, scope, from) && maxKeys >= 1 && |jumps| >= |b|
    ensures versions == VersionsIn(ItemsAfter(AllItems(b, scope), from))
    ensures commonPrefixes == PrefixesIn(ItemsAfter(AllItems(b, scope), from))
    ensures forall item :: item in versions <==> item.VersionItem? && IsItemAfter(b, scope, from, item)
    ensures forall p :: p in commonPrefixes <==> IsItemAfter(b, scope, from, CommonPrefix(p))
    ensures SortedItems(versions) && AscendingPrefixes(commonPrefixes)
  {
    hide *;
    ghost var all := ItemsAfter(AllItems(b, scope), from);
    ghost var listed: seq<Item> := [];
    var start := from;
    versions, commonPrefixes := [], [];
    NoItems();
    while true
      invariant L.IsPlain(scope, start.key) && (start.versionId != [] ==> start.key != [])
      invariant NothingOverlooked(b, scope, start)
      invariant listed + ItemsAfter(AllItems(b, scope), start) == all
      invariant versions == VersionsIn(listed) && commonPrefixes == PrefixesIn(listed)
      decreases |ItemsAfter(AllItems(b, scope), start)|
    {
      var page := ListPage(b, scope, start, maxKeys, jumps);
      PageAdvances(b, scope, start, maxKeys);
      ghost var items := Page(Items(StepsFrom(Select(b, GenMDParamsV0(scope, start)), start, scope)), maxKeys);
      versions := versions + page.versions;
      commonPrefixes := commonPrefixes + page.commonPrefixes;
      OutputOfConcat(listed, items);
      listed := listed + items;
      if page.nextKeyMarker == None {
        assert listed == all;
        ItemsAreThose(b, scope, from);
        ReturnedItems(all);
        ReturnedInOrder(all);
        return;
      }
      start := Marker(page.nextKeyMarker.value,
                      if page.nextVersionIdMarker.Some? then page.nextVersionIdMarker.value else []);
    }
  }

  lemma NoItems()
    ensures VersionsIn([]) == [] && PrefixesIn([]) == []
  {
  }

  // ---------------------------------------------------------------------------
  // Where the code does less or more than it should

  /**
    An object whose key is the marker's key followed by "\x01" is missed by a listing with
    that key marker and no version id marker.
   */
  lemma NextKeyIsMissed(k: Str, value: Metadata)
    requires k != [] && !IsVersionKey(k) && !StartsWith(k + [1], REPLAY_PREFIX) && !value.isPHD
    ensures var b, scope, start := [Entry(k + [1], value)], MasterListing.Scope([], []), Marker(k, []);
            && IsBucket(b) && L.IsPlain(scope, start.key)
            && ItemsFrom(b, scope, start) != ItemsAfter(AllItems(b, scope), start)
  {
    hide Lt;
    var e := Entry(k + [1], value);
    var b, scope, start := [e], MasterListing.Scope([], []), Marker(k, []);
    PastVersions(k, k);
    NoSeparator(k);
    NoSeparator(k + [1]);
    NoSeparator([]);
    assert MasterOf(e.key) == e.key;
    assert !NothingOverlooked(b, scope, start) by {
      NextKeyIsOverlooked(k, value);
    }
    hide *;
    RangeListsItemsAfter(b, scope, start);
  }

  lemma NextKeyIsOverlooked(k: Str, value: Metadata)
    requires k != [] && !IsVersionKey(k) && !StartsWith(k + [1], REPLAY_PREFIX) && !value.isPHD
    ensures !NothingOverlooked([Entry(k + [1], value)], MasterListing.Scope([], []), Marker(k, []))
  {
    hide Lt;
    var e := Entry(k + [1], value);
    var scope, start := MasterListing.Scope([], []), Marker(k, []);
    PastVersions(k, k);
    NoSeparator([]);
    assert MasterOf(e.key) == e.key;
    assert ItemKey(ItemOf(EventOf(e), scope)) == e.key;
    assert e in [e] && IsOverlooked(e, scope, start) && IsListable(EventOf(e));
    assert IsAfter(ItemOf(EventOf(e), scope), start);
  }

  /** A page that holds all there is calls itself truncated when it ends with the version of
      a master entry that is stored under its version id, too. */
  lemma SecondCopyTruncates(k: Str, id: Str, value: Metadata)
    requires !IsVersionKey(k) && !StartsWith(k, REPLAY_PREFIX) && !value.isPHD
    requires id != [] && value.versionId == Some(id)
    ensures var b, scope := [Entry(k, value), Entry(k + [VID_SEP] + id, value)], MasterListing.Scope([], []);
            var steps := StepsFrom(b, Marker([], []), scope);
            Items(steps) == [VersionItem(k, id, value)] && IsTruncated(steps, 1)
  {
    hide Lt;
    var scope := MasterListing.Scope([], []);
    var d, e := Entry(k, value), Entry(k + [VID_SEP] + id, value);
    assert e.key[..|k|+1] == k + [VID_SEP];
    StartsWithVersion(e.key, k);
    var n := SeparatorIndex(e.key);
    assert MasterOf(e.key) == k && n == |k|;
    assert VersionIdIn(e.key) == id;
    assert d.key[..|k|] == k;
    assert EventOf(d) == Event(k, None, value) && EventOf(e) == Event(k, Some(id), value);
    assert [d, e][1..] == [e] && [e][1..] == [];
    assert Flow(None, [e]) == [EventOf(e)];
    var events := Flow(None, [d, e]);
    assert events == [EventOf(d), EventOf(e)];
    assert events[1..] == [EventOf(e)] && [EventOf(e)][1..] == [];
    var master: Master := Some((k, id));
    assert Steps([EventOf(e)], master, scope) == [Again];
    assert Steps(events, None, scope) == [Listed(VersionItem(k, id, value)), Again];
    ItemsCons(Listed(VersionItem(k, id, value)), [Again]);
    ItemsCons(Again, []);
  }

  /** An entry that a listing from a marker reads and lists. */
  predicate IsShown(e: Entry, scope: Scope, start: Marker) {
    IsRead(e, scope, start) && IsListable(EventOf(e))
  }

  /** The entry `m` is a master entry, and `e` a second copy of the version it holds. */
  predicate IsCopyOf(e: Entry, m: Entry) {
    && !IsVersionKey(m.key) && EventOf(m).key == EventOf(e).key
    && EventOf(e).versionId == Some(MasterIdOf(m.value))
  }

  /** The last version to be listed is a second copy of the one in its master entry, and they
      are not grouped. */
  ghost predicate LastIsCopy(b: seq<Entry>, scope: Scope, start: Marker) {
    exists e, m :: e in b && m in b && IsShown(e, scope, start) && IsShown(m, scope, start) && IsCopyOf(e, m)
                   && CommonPrefixOf(EventOf(e).key, scope.prefix, scope.delimiter) == None
                   && forall d :: d in b && IsShown(d, scope, start) ==>
                        EventOf(d) == EventOf(e) || Lt(Position(EventOf(d)), Position(EventOf(e)))
  }

  /** The entries that a listing from a marker reads, as events. */
  lemma EventsRead(b: seq<Entry>, scope: Scope, start: Marker)
    requires IsBucket(b) && L.IsPlain(scope, start.key) && (start.versionId != [] ==> start.key != [])
    ensures var events := Drop(Flow(None, Select(b, GenMDParamsV0(scope, start))), StartOf(start));
            && SortedEvents(events) && AreVersions(events)
            && forall v :: v in events <==> exists e :: e in b && IsRead(e, scope, start) && EventOf(e) == v
  {
    hide Lt;
    hide Flow;
    hide IsBucket;
    hide EventOf;
    hide GenMDParamsV0;
    hide L.InRange;
    hide Drop;
    hide Skips;
    hide SortedEvents;
    hide AreVersions;
    var r := GenMDParamsV0(scope, start);
    var keep := k => L.InRange(k, r);
    SelectIsStream(b, scope, start);
    assert Select(b, r) == Filter(b, keep);
    if start.versionId != [] {
      forall e | e in b && keep(e.key)
        ensures Lt(start.key, e.key)
      {
        assert e in Select(b, r);
        NextString(start.key, e.key);
      }
    }
    hide Filter;
    EventsOfPart(b, keep, StartOf(start));
    var part, events := Flow(None, Filter(b, keep)), Drop(Flow(None, Filter(b, keep)), StartOf(start));
    forall v
      ensures v in events <==> exists e :: e in b && IsRead(e, scope, start) && EventOf(e) == v
    {
      if v in events {
        var e :| e in Filter(b, keep) && EventOf(e) == v;
      }
      if e :| e in b && IsRead(e, scope, start) && EventOf(e) == v {
        assert e in Filter(b, keep);
      }
    }
  }

  /** A listing from a marker ends with a second copy exactly when the last version to be
      listed is one. */
  lemma EndsExactly(b: seq<Entry>, scope: Scope, start: Marker)
    requires IsBucket(b) && L.IsPlain(scope, start.key) && (start.versionId != [] ==> start.key != [])
    ensures var steps := StepsFrom(Select(b, GenMDParamsV0(scope, start)), start, scope);
            steps != [] && steps[|steps|-1].Again? <==> LastIsCopy(b, scope, start)
  {
    hide Lt;
    hide Flow;
    hide IsBucket;
    hide EventOf;
    hide GenMDParamsV0;
    hide Select;
    hide Drop;
    hide Steps;
    hide SortedEvents;
    hide AreVersions;
    hide Position;
    hide IsRead;
    hide EndsWithCopy;
    hide LastIsCopy;
    hide L.IsPlain;
    var events := Drop(Flow(None, Select(b, GenMDParamsV0(scope, start))), StartOf(start));
    EventsRead(b, scope, start);
    LastIsAgain(events, None, scope);
    NullsHaveIds(b);
    CopiesInBucket(b, scope, start, events);
  }

  /**
    Exactly when a page that has room for all there is calls itself truncated: when it is
    full and the last version to be listed is the second copy of one in a master entry.
   */
  lemma TruncatedExactly(b: seq<Entry>, scope: Scope, start: Marker, maxKeys: int)
    requires IsBucket(b) && L.IsPlain(scope, start.key) && (start.versionId != [] ==> start.key != [])
    requires |ItemsFrom(b, scope, start)| <= maxKeys
    ensures IsTruncated(StepsFrom(Select(b, GenMDParamsV0(scope, start)), start, scope), maxKeys)
       <==> |ItemsFrom(b, scope, start)| == maxKeys > 0 && LastIsCopy(b, scope, start)
  {
    hide IsBucket;
    hide GenMDParamsV0;
    hide Select;
    hide StepsFrom;
    hide LastIsCopy;
    hide L.IsPlain;
    EndsExactly(b, scope, start);
  }

  lemma MasterEvent(m: Entry)
    requires IsNullEntry(m) ==> m.value.versionId.Some?
    ensures EventOf(m).versionId.None? <==> !IsVersionKey(m.key)
    ensures EventOf(m).versionId.None? ==> IdOf(EventOf(m)) == MasterIdOf(m.value)
  {
  }

  lemma CopiesInBucket(b: seq<Entry>, scope: Scope, start: Marker, events: seq<Event>)
    requires forall v :: v in events <==> exists e :: e in b && IsRead(e, scope, start) && EventOf(e) == v
    requires forall m :: m in b && IsNullEntry(m) ==> m.value.versionId.Some?
    ensures EndsWithCopy(events, None, scope) <==> LastIsCopy(b, scope, start)
  {
    hide Lt;
    hide Position;
    hide IsRead;
    hide IsListable;
    hide CommonPrefixOf;
    hide EventOf;
    hide IdOf;
    hide MasterIdOf;
    hide IsVersionKey;
    hide IsNullEntry;
    forall m | m in b
      ensures EventOf(m).versionId.None? <==> !IsVersionKey(m.key)
      ensures EventOf(m).versionId.None? ==> IdOf(EventOf(m)) == MasterIdOf(m.value)
    {
      MasterEvent(m);
    }
    if EndsWithCopy(events, None, scope) {
      var v :| IsLastListable(v, events) && IsSecondCopy(v, events, None)
               && CommonPrefixOf(v.key, scope.prefix, scope.delimiter) == None;
      var w :| w in events && w.versionId.None? && IsListable(w) && w.key == v.key && IdOf(w) == v.versionId.value;
      var e :| e in b && IsRead(e, scope, start) && EventOf(e) == v;
      var m :| m in b && IsRead(m, scope, start) && EventOf(m) == w;
      forall d | d in b && IsShown(d, scope, start)
        ensures EventOf(d) == v || Lt(Position(EventOf(d)), Position(v))
      {
        assert EventOf(d) in events;
      }
      assert IsShown(e, scope, start) && IsShown(m, scope, start) && IsCopyOf(e, m);
    }
    if LastIsCopy(b, scope, start) {
      var e, m :| e in b && m in b && IsShown(e, scope, start) && IsShown(m, scope, start) && IsCopyOf(e, m)
                  && CommonPrefixOf(EventOf(e).key, scope.prefix, scope.delimiter) == None
                  && forall d :: d in b && IsShown(d, scope, start) ==>
                       EventOf(d) == EventOf(e) || Lt(Position(EventOf(d)), Position(EventOf(e)));
      assert EventOf(e) in events && EventOf(m) in events;
      forall v | v in events && IsListable(v)
        ensures v == EventOf(e) || Lt(Position(v), Position(EventOf(e)))
      {
        var d :| d in b && IsRead(d, scope, start) && EventOf(d) == v;
        assert IsShown(d, scope, start);
      }
      assert IsLastListable(EventOf(e), events);
    }
  }

  lemma NullsHaveIds(b: seq<Entry>)
    requires IsBucket(b)
    ensures forall m :: m in b && IsNullEntry(m) ==> m.value.versionId.Some?
  {
  }
}
