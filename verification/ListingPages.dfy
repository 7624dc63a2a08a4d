/**
  From buckets to pages: the range of raw keys that a listing asks the database for, and
  the pages that follow one another when each starts from the marker the last one returned.
 */
module ListingPages {
  import opened Strings
  import opened Keys
  import opened Paging
  import opened MasterListing

  /** A bucket in the v0 format: version keys come with their master key. */
  ghost predicate IsBucket(b: seq<Entry>) {
    && SortedEntries(b)
    && (forall i :: 0 <= i < |b| ==> b[i].key != [])
    && (forall i :: 0 <= i < |b| && IsVersionKey(b[i].key) ==>
          exists j :: 0 <= j < |b| && b[j].key == MasterOf(b[i].key))
  }

  /** The range parameters of a database listing. */
  datatype Range = Range(gt: Option<Str>, gte: Option<Str>, lt: Option<Str>)

  function GenMDParamsV0(scope: Scope, marker: Str): Range {
    var gte := if scope.prefix != [] then Some(scope.prefix) else None;
    var lt := if scope.prefix != [] then Some(Inc(scope.prefix)) else None;
    var commonPrefix := if marker != [] then CommonPrefixOf(marker, scope.prefix, scope.delimiter) else None;
    var gte' :=
      if commonPrefix.Some? && (gte == None || Lt(gte.value, Inc(commonPrefix.value)))
      then Some(Inc(commonPrefix.value)) else gte;
    if marker != [] && (gte' == None || Le(gte'.value, marker))
    then Range(Some(marker), None, lt)
    else Range(None, gte', lt)
  }

  predicate Below(k: Str, r: Range) {
    (r.gt.Some? && Le(k, r.gt.value)) || (r.gte.Some? && Lt(k, r.gte.value))
  }

  predicate Above(k: Str, r: Range) {
    r.lt.Some? && Le(r.lt.value, k)
  }

  predicate InRange(k: Str, r: Range) {
    !Below(k, r) && !Above(k, r)
  }

  function SeekFrom(b: seq<Entry>, r: Range): seq<Entry> {
    if b != [] && Below(b[0].key, r) then SeekFrom(b[1..], r) else b
  }

  function ReadUntil(b: seq<Entry>, r: Range): seq<Entry> {
    if b == [] || Above(b[0].key, r) then [] else [b[0]] + ReadUntil(b[1..], r)
  }

  /** What the database returns for a range. */
  function Select(b: seq<Entry>, r: Range): seq<Entry> {
    ReadUntil(SeekFrom(b, r), r)
  }

  /** Listing parameters hold no separator, and ranges can be ended after a prefix or a
      common prefix. */
  ghost predicate IsPlain(scope: Scope, marker: Str) {
    && !IsVersionKey(scope.prefix) && !IsVersionKey(scope.delimiter) && !IsVersionKey(marker)
    && (scope.prefix != [] ==> scope.prefix[|scope.prefix|-1] < 0xFFFF)
    && (scope.delimiter != [] ==> scope.delimiter[|scope.delimiter|-1] < 0xFFFF)
  }

  function ItemKeyOf(k: Str, scope: Scope): Str {
    ItemKey(ItemOf(Object(k, Value(false, false, 0)), scope))
  }

  // ---------------------------------------------------------------------------
  // The range is what it should be

  lemma ItemKeyBounds(k: Str, scope: Scope)
    ensures StartsWith(k, ItemKeyOf(k, scope)) && Le(ItemKeyOf(k, scope), k)
    ensures StartsWith(k, scope.prefix) ==> Le(scope.prefix, ItemKeyOf(k, scope))
  {
    ItemKeyIsPrefix(Object(k, Value(false, false, 0)), scope);
    if StartsWith(k, scope.prefix) {
      if CommonPrefixOf(k, scope.prefix, scope.delimiter).Some? {
        CommonPrefixStarts(k, scope.prefix, scope.delimiter);
      }
      PrefixIsLe(ItemKeyOf(k, scope), scope.prefix);
    }
  }

  lemma InPrefix(k: Str, scope: Scope)
    requires IsPlain(scope, [])
    ensures StartsWith(k, scope.prefix) <==>
              scope.prefix == [] || (Le(scope.prefix, k) && Lt(k, Inc(scope.prefix)))
  {
    hide Lt;
    if scope.prefix != [] {
      PrefixIsRange(k, scope.prefix);
    }
  }

  /** With a marker that is under no common prefix, items come after it as their keys do. */
  lemma AfterPlainMarker(k: Str, scope: Scope, marker: Str)
    requires CommonPrefixOf(marker, scope.prefix, scope.delimiter) == None
    ensures Lt(marker, k) <==> Lt(marker, ItemKeyOf(k, scope))
  {
    hide Lt;
    ItemKeyBounds(k, scope);
    var q := ItemKeyOf(k, scope);
    Transitive(marker, q, k);
    Transitive(marker, k, k);
    if Lt(marker, k) && Le(q, marker) {
      assert StartsWith(q, q);
      StartsWithBetween(q, marker, k, q);
      StrictTotalOrder(marker, k, k);
      CommonPrefixShared(k, marker, scope.prefix, scope.delimiter);
    }
  }

  /** With a marker under a common prefix, the items after it are those past the prefix. */
  lemma AfterGroupedMarker(k: Str, scope: Scope, marker: Str)
    requires IsPlain(scope, marker) && CommonPrefixOf(marker, scope.prefix, scope.delimiter).Some?
    ensures var after := Inc(CommonPrefixOf(marker, scope.prefix, scope.delimiter).value);
            && Lt(marker, after)
            && (Le(after, k) <==> Lt(marker, ItemKeyOf(k, scope)))
  {
    hide Lt;
    var c, q := CommonPrefixOf(marker, scope.prefix, scope.delimiter).value, ItemKeyOf(k, scope);
    CommonPrefixStarts(marker, scope.prefix, scope.delimiter);
    assert c[|c|-1] == c[|c|-|scope.delimiter|..][|scope.delimiter|-1];
    PrefixIsRange(marker, c);
    PrefixIsRange(k, c);
    ItemKeyBounds(k, scope);
    assert StartsWith(q, q);
    if StartsWith(k, c) {
      CommonPrefixShared(marker, k, scope.prefix, scope.delimiter);
    }
    Ordered();
    if Le(Inc(c), k) && Le(q, marker) {
      StartsWithBetween(q, marker, k, q);
      CommonPrefixShared(k, marker, scope.prefix, scope.delimiter);
    }
  }

  /**
    The range asked from the database holds exactly the keys under the listing prefix
    whose item, content or common prefix, comes after the marker.
   */
  lemma RangeIsAfterMarker(k: Str, scope: Scope, marker: Str)
    requires IsPlain(scope, marker)
    ensures InRange(k, GenMDParamsV0(scope, marker)) <==>
              StartsWith(k, scope.prefix) && (marker == [] || Lt(marker, ItemKeyOf(k, scope)))
  {
    hide Lt;
    hide ItemKeyOf;
    InPrefix(k, scope);
    ItemKeyBounds(k, scope);
    if marker != [] {
      if CommonPrefixOf(marker, scope.prefix, scope.delimiter).Some? {
        AfterGroupedMarker(k, scope, marker);
      } else {
        AfterPlainMarker(k, scope, marker);
      }
    }
    Ordered();
  }

  // ---------------------------------------------------------------------------
  // Live objects of a range

  /** Version keys directly follow their master key or another version of it. */
  lemma BucketIsWellFormed(b: seq<Entry>)
    requires IsBucket(b)
    ensures WellFormed(b, [])
  {
    hide Lt;
    forall i | 0 <= i < |b| && IsVersionKey(b[i].key)
      ensures i > 0 && MasterOf(b[i].key) == MasterOf(b[i-1].key)
    {
      VersionHasPredecessor(b, i);
    }
  }

  lemma VersionHasPredecessor(b: seq<Entry>, i: nat)
    requires IsBucket(b) && i < |b| && IsVersionKey(b[i].key)
    ensures i > 0 && MasterOf(b[i].key) == MasterOf(b[i-1].key)
  {
    hide Lt;
    var m := MasterOf(b[i].key);
    var j :| 0 <= j < |b| && b[j].key == m;
    assert i < j ==> Lt(b[i].key, b[j].key);
    MasterIsBefore(b[i].key);
    StrictTotalOrder(m, b[i].key, m);
    assert j < i;
    assert m[..|m|] == m;
    if j < i - 1 {
      assert Lt(b[j].key, b[i-1].key) && Lt(b[i-1].key, b[i].key);
      Transitive(b[i-1].key, b[i].key, b[i].key);
      BetweenVersions(m, b[i-1].key, b[i].key);
    }
  }

  lemma {:induction false} SeekIsSuffix(b: seq<Entry>, r: Range)
    ensures var n := |b| - |SeekFrom(b, r)|;
            && 0 <= n && SeekFrom(b, r) == b[n..]
            && (forall i :: 0 <= i < n ==> Below(b[i].key, r))
            && (n < |b| ==> !Below(b[n].key, r))
  {
    hide Below;
    if b != [] && Below(b[0].key, r) {
      SeekIsSuffix(b[1..], r);
    }
  }

  lemma {:induction false} ReadIsPrefix(b: seq<Entry>, r: Range)
    ensures var n := |ReadUntil(b, r)|;
            && n <= |b| && ReadUntil(b, r) == b[..n]
            && (forall i :: 0 <= i < n ==> !Above(b[i].key, r))
            && (n < |b| ==> Above(b[n].key, r))
  {
    hide Above;
    if b != [] && !Above(b[0].key, r) {
      ReadIsPrefix(b[1..], r);
    }
  }

  lemma WellFormedPart(b: seq<Entry>, marker: Str, n: nat)
    requires WellFormed(b, marker) && n <= |b|
    ensures WellFormed(b[..n], marker)
  {
    hide Lt;
  }

  lemma WellFormedRest(b: seq<Entry>, n: nat, marker: Str)
    requires WellFormed(b, []) && n <= |b|
    requires n < |b| && IsVersionKey(b[n].key) ==> marker != [] && MasterOf(b[n].key) == marker
    ensures WellFormed(b[n..], marker)
  {
    hide Lt;
    hide MasterOf;
    hide IsVersionKey;
    var s := b[n..];
    forall i | 0 < i < |s| && IsVersionKey(s[i].key)
      ensures MasterOf(s[i].key) == MasterOf(s[i-1].key)
    {
      assert s[i] == b[n+i] && s[i-1] == b[n+i-1];
    }
  }

  /** The bounds of a listing range hold no separator. */
  lemma BoundsArePlain(scope: Scope, marker: Str)
    requires IsPlain(scope, marker)
    ensures var r := GenMDParamsV0(scope, marker);
            && (r.gt.Some? ==> r.gt.value == marker && marker != [] && !IsVersionKey(marker))
            && (r.gte.Some? ==> !IsVersionKey(r.gte.value))
            && (r.lt.Some? ==> !IsVersionKey(r.lt.value))
  {
    hide Lt;
    var p := CommonPrefixOf(marker, scope.prefix, scope.delimiter);
    IncIsPlain(scope.prefix);
    if p.Some? {
      CommonPrefixStarts(marker, scope.prefix, scope.delimiter);
      assert p.value[|p.value|-1] == p.value[|p.value|-|scope.delimiter|..][|scope.delimiter|-1];
      NoSeparator(marker);
      NoSeparator(p.value);
      assert forall i :: 0 <= i < |p.value| ==> p.value[i] == marker[..|p.value|][i] == marker[i];
      IncIsPlain(p.value);
    }
  }

  lemma IncIsPlain(s: Str)
    requires !IsVersionKey(s) && (s != [] ==> s[|s|-1] < 0xFFFF)
    ensures !IsVersionKey(Inc(s))
  {
    NoSeparator(s);
    NoSeparator(Inc(s));
  }

  /** The entries a listing reads form a well-formed stream for its marker. */
  lemma SelectIsWellFormed(b: seq<Entry>, scope: Scope, marker: Str)
    requires IsBucket(b) && IsPlain(scope, marker)
    ensures WellFormed(Select(b, GenMDParamsV0(scope, marker)), marker)
  {
    hide Lt;
    hide GenMDParamsV0;
    hide SeekFrom;
    hide ReadUntil;
    hide Below;
    hide Above;
    var r := GenMDParamsV0(scope, marker);
    BucketIsWellFormed(b);
    BoundsArePlain(scope, marker);
    SeekIsSuffix(b, r);
    var s := SeekFrom(b, r);
    var n := |b| - |s|;
    if s != [] && IsVersionKey(s[0].key) {
      var m := MasterOf(s[0].key);
      VersionHasPredecessor(b, n);
      assert Below(b[n-1].key, r);
      CutBeforeVersion(b, n, r);
    }
    hide MasterOf;
    hide IsVersionKey;
    WellFormedRest(b, n, marker);
    hide SortedEntries;
    ReadIsPrefix(s, r);
    WellFormedPart(s, marker, |ReadUntil(s, r)|);
  }

  /** A range that starts among the versions of a key starts right after that key. */
  lemma CutBeforeVersion(b: seq<Entry>, n: nat, r: Range)
    requires SortedEntries(b) && 0 < n < |b| && IsVersionKey(b[n].key)
    requires MasterOf(b[n].key) == MasterOf(b[n-1].key)
    requires Below(b[n-1].key, r) && !Below(b[n].key, r)
    requires r.gt.Some? ==> !IsVersionKey(r.gt.value)
    requires r.gte.Some? ==> !IsVersionKey(r.gte.value)
    ensures r.gt == Some(MasterOf(b[n].key))
  {
    hide Lt;
    var m := MasterOf(b[n].key);
    MasterIsBefore(b[n].key);
    if IsVersionKey(b[n-1].key) {
      MasterIsBefore(b[n-1].key);
    } else {
      assert b[n-1].key[..|b[n-1].key|] == b[n-1].key;
    }
    Ordered();
    if r.gt.Some? && Lt(m, r.gt.value) && Le(r.gt.value, b[n].key) {
      BetweenVersions(m, r.gt.value, b[n].key);
    }
    if r.gte.Some? && Lt(m, r.gte.value) && Le(r.gte.value, b[n].key) {
      BetweenVersions(m, r.gte.value, b[n].key);
    }
  }

  /** Stopping before `lt` does not change what is current for the objects before it. */
  lemma {:induction false} CurrentIsRead(value: Value, m: Str, rest: seq<Entry>, r: Range)
    requires !IsVersionKey(m) && !Above(m, r) && (r.lt.Some? ==> !IsVersionKey(r.lt.value))
    ensures Current(value, m, ReadUntil(rest, r)) == Current(value, m, rest)
    decreases |rest|
  {
    hide Lt;
    if value.isPHD && !value.isDeleteMarker && rest != [] && IsVersionOf(rest[0], m) {
      assert !Above(rest[0].key, r) by {
        if r.lt.Some? && Le(r.lt.value, rest[0].key) {
          Transitive(m, r.lt.value, m);
          StrictTotalOrder(m, r.lt.value, m);
          BetweenVersions(m, r.lt.value, rest[0].key);
        }
      }
      CurrentIsRead(rest[0].value, m, rest[1..], r);
    }
  }

  lemma {:induction false} LiveIsRead(b: seq<Entry>, r: Range, o: Object)
    requires SortedEntries(b) && (r.lt.Some? ==> !IsVersionKey(r.lt.value))
    ensures o in Live(ReadUntil(b, r)) <==> o in Live(b) && !Above(o.key, r)
  {
    hide Lt;
    if b != [] {
      if Above(b[0].key, r) {
        if o in Live(b) {
          LiveIsStored(b, o);
          var i :| 0 <= i < |b| && b[i].key == o.key;
          Transitive(r.lt.value, b[0].key, o.key);
          Transitive(r.lt.value, o.key, o.key);
        }
      } else {
        LiveIsRead(b[1..], r, o);
        assert ReadUntil(b, r)[1..] == ReadUntil(b[1..], r);
        if !IsVersionKey(b[0].key) {
          CurrentIsRead(b[0].value, b[0].key, b[1..], r);
        }
      }
    }
  }

  lemma {:induction false} LiveIsSought(b: seq<Entry>, r: Range, o: Object)
    requires SortedEntries(b)
    ensures o in Live(SeekFrom(b, r)) <==> o in Live(b) && !Below(o.key, r)
  {
    hide Lt;
    if b != [] {
      if Below(b[0].key, r) {
        LiveIsSought(b[1..], r, o);
      } else if o in Live(b) {
        LiveIsStored(b, o);
        var i :| 0 <= i < |b| && b[i].key == o.key;
        if r.gt.Some? {
          Transitive(r.gt.value, b[0].key, o.key);
        }
        if r.gte.Some? {
          Transitive(r.gte.value, b[0].key, o.key);
        }
        Transitive(b[0].key, o.key, o.key);
      }
    }
  }

  /** The live objects of a range are the live objects of the bucket with keys in it. */
  lemma LiveOfRange(b: seq<Entry>, scope: Scope, marker: Str, o: Object)
    requires IsBucket(b) && IsPlain(scope, marker)
    ensures var r := GenMDParamsV0(scope, marker);
            o in Live(Select(b, r)) <==> o in Live(b) && InRange(o.key, r)
  {
    hide Lt;
    hide GenMDParamsV0;
    hide Live;
    var r := GenMDParamsV0(scope, marker);
    BoundsArePlain(scope, marker);
    SeekIsSuffix(b, r);
    LiveIsRead(SeekFrom(b, r), r, o);
    LiveIsSought(b, r, o);
  }

  // ---------------------------------------------------------------------------
  // Pages

  /** The live objects under a prefix. */
  function UnderPrefix(objects: seq<Object>, prefix: Str): (r: seq<Object>)
    ensures forall o :: o in r <==> o in objects && StartsWith(o.key, prefix)
  {
    if objects == [] then []
    else (if StartsWith(objects[0].key, prefix) then [objects[0]] else []) + UnderPrefix(objects[1..], prefix)
  }

  lemma {:induction false} UnderPrefixSorted(objects: seq<Object>, prefix: Str)
    requires SortedObjects(objects)
    ensures SortedObjects(UnderPrefix(objects, prefix))
  {
    hide Lt;
    if objects != [] {
      UnderPrefixSorted(objects[1..], prefix);
      var rest := UnderPrefix(objects[1..], prefix);
      assert forall i :: 0 <= i < |rest| ==> rest[i] in rest;
    }
  }

  /** The whole listing of a bucket. */
  function AllItems(b: seq<Entry>, scope: Scope): seq<Item> {
    Group(UnderPrefix(Live(b), scope.prefix), scope)
  }

  /** The items after a marker; the empty string is no marker. */
  function ItemsAfter(items: seq<Item>, marker: Str): (r: seq<Item>)
    ensures |r| <= |items|
    ensures forall item :: item in r <==> item in items && (marker == [] || Lt(marker, ItemKey(item)))
  {
    if items == [] then []
    else
      (if marker == [] || Lt(marker, ItemKey(items[0])) then [items[0]] else []) + ItemsAfter(items[1..], marker)
  }

  lemma {:induction false} ItemsAfterSorted(items: seq<Item>, marker: Str)
    requires SortedItems(items)
    ensures SortedItems(ItemsAfter(items, marker))
  {
    hide Lt;
    if items != [] {
      ItemsAfterSorted(items[1..], marker);
      var rest := ItemsAfter(items[1..], marker);
      assert forall i :: 0 <= i < |rest| ==> rest[i] in rest;
    }
  }

  lemma {:induction false} SortedItemsAreUnique(a: seq<Item>, b: seq<Item>)
    requires SortedItems(a) && SortedItems(b)
    requires forall item :: item in a <==> item in b
    ensures a == b
  {
    hide Lt;
    assert a != [] ==> a[0] in b;
    assert b != [] ==> b[0] in a;
    if a != [] && b != [] {
      var i :| 0 <= i < |b| && b[i] == a[0];
      var j :| 0 <= j < |a| && a[j] == b[0];
      StrictTotalOrder(ItemKey(a[0]), ItemKey(b[0]), ItemKey(a[0]));
      assert a[0] == b[0];
      RestItems(a);
      RestItems(b);
      SortedItemsAreUnique(a[1..], b[1..]);
      assert a == [a[0]] + a[1..] && b == [b[0]] + b[1..];
    }
  }

  lemma RestItems(a: seq<Item>)
    requires SortedItems(a) && a != []
    ensures SortedItems(a[1..])
    ensures forall item :: item in a[1..] <==> item in a && item != a[0]
  {
    hide Lt;
    forall i | 1 <= i < |a|
      ensures a[i] != a[0]
    {
      StrictTotalOrder(ItemKey(a[0]), ItemKey(a[i]), ItemKey(a[0]));
    }
    forall item | item in a && item != a[0]
      ensures item in a[1..]
    {
      var i :| 0 <= i < |a| && a[i] == item;
      assert a[1..][i-1] == item;
    }
  }

  lemma ItemKeyOfObject(o: Object, scope: Scope)
    ensures ItemKeyOf(o.key, scope) == ItemKey(ItemOf(o, scope))
  {
  }

  /**
    Listing the range asked for a marker gives the items of the whole listing that come
    after the marker: no item is missed, none is repeated, none is cut in two.
   */
  lemma RangeListsItemsAfter(b: seq<Entry>, scope: Scope, marker: Str)
    requires IsBucket(b) && IsPlain(scope, marker)
    ensures Group(Live(Select(b, GenMDParamsV0(scope, marker))), scope)
         == ItemsAfter(AllItems(b, scope), marker)
  {
    hide Lt;
    hide Group;
    hide Live;
    hide GenMDParamsV0;
    hide ItemOf;
    hide ItemKeyOf;
    hide Select;
    hide SortedItems;
    var r := GenMDParamsV0(scope, marker);
    var part, all := Live(Select(b, r)), UnderPrefix(Live(b), scope.prefix);
    SelectIsWellFormed(b, scope, marker);
    LiveSorted(Select(b, r));
    LiveSorted(b);
    UnderPrefixSorted(Live(b), scope.prefix);
    hide SortedObjects;
    GroupIsDistinct(part, scope);
    GroupIsDistinct(all, scope);
    ItemsAfterSorted(Group(all, scope), marker);
    forall o
      ensures o in part <==> o in all && (marker == [] || Lt(marker, ItemKey(ItemOf(o, scope))))
    {
      LiveOfRange(b, scope, marker, o);
      RangeIsAfterMarker(o.key, scope, marker);
      ItemKeyOfObject(o, scope);
    }
    SortedItemsAreUnique(Group(part, scope), ItemsAfter(Group(all, scope), marker));
  }

  /** The items of the pages listed one after another, each from the marker of the last. */
  function AllPages(items: seq<Item>, marker: Str, maxKeys: nat): seq<Item>
    requires maxKeys >= 1 && SortedItems(items) && forall item :: item in items ==> ItemKey(item) != []
    decreases |ItemsAfter(items, marker)|
  {
    var rest := ItemsAfter(items, marker);
    var page := Page(rest, maxKeys);
    if |rest| <= maxKeys then page
    else
      PageLeaves(items, marker, maxKeys);
      page + AllPages(items, NextMarker(page, marker), maxKeys)
  }

  lemma {:induction false} DropFirst(items: seq<Item>, n: nat)
    requires SortedItems(items) && 0 < n <= |items|
    requires ItemKey(items[n-1]) != []
    ensures ItemsAfter(items, ItemKey(items[n-1])) == items[n..]
  {
    hide Lt;
    hide ItemKey;
    var k := ItemKey(items[n-1]);
    ItemsAfterSorted(items, k);
    forall i | 0 <= i < |items|
      ensures Lt(k, ItemKey(items[i])) <==> n <= i
    {
      StrictTotalOrder(k, ItemKey(items[i]), k);
    }
    assert forall i :: n <= i < |items| ==> items[n..][i-n] == items[i];
    SortedItemsAreUnique(ItemsAfter(items, k), items[n..]);
  }

  lemma {:induction false} AfterLater(items: seq<Item>, marker: Str, k: Str)
    requires k != [] && (marker == [] || Le(marker, k))
    ensures ItemsAfter(ItemsAfter(items, marker), k) == ItemsAfter(items, k)
  {
    hide Lt;
    hide ItemKey;
    if items != [] {
      AfterLater(items[1..], marker, k);
      Transitive(marker, k, ItemKey(items[0]));
      var rest := ItemsAfter(items[1..], marker);
      assert ([items[0]] + rest)[1..] == rest;
      assert [] + rest == rest;
    }
  }

  /** The items after the marker of a page are those that the page left out. */
  lemma PageLeaves(items: seq<Item>, marker: Str, maxKeys: nat)
    requires maxKeys >= 1 && SortedItems(items) && forall item :: item in items ==> ItemKey(item) != []
    requires |ItemsAfter(items, marker)| > maxKeys
    ensures var rest := ItemsAfter(items, marker);
            ItemsAfter(items, NextMarker(Page(rest, maxKeys), marker)) == rest[maxKeys..]
  {
    hide Lt;
    hide SortedItems;
    hide ItemKey;
    hide ItemsAfter;
    var rest := ItemsAfter(items, marker);
    ItemsAfterSorted(items, marker);
    assert Page(rest, maxKeys)[maxKeys-1] == rest[maxKeys-1];
    var last := rest[maxKeys-1];
    assert last in rest;
    Transitive(marker, ItemKey(last), ItemKey(last));
    AfterLater(items, marker, ItemKey(last));
    DropFirst(rest, maxKeys);
  }

  /** Pagination loses and repeats nothing, for every page size. */
  lemma {:induction false} PagesAreTheListing(items: seq<Item>, marker: Str, maxKeys: nat)
    requires maxKeys >= 1 && SortedItems(items) && forall item :: item in items ==> ItemKey(item) != []
    ensures AllPages(items, marker, maxKeys) == ItemsAfter(items, marker)
    decreases |ItemsAfter(items, marker)|
  {
    hide Lt;
    hide ItemsAfter;
    hide SortedItems;
    hide ItemKey;
    var rest := ItemsAfter(items, marker);
    if |rest| > maxKeys {
      PageLeaves(items, marker, maxKeys);
      assert rest == rest[..maxKeys] + rest[maxKeys..];
      PagesAreTheListing(items, NextMarker(Page(rest, maxKeys), marker), maxKeys);
    }
  }
}
