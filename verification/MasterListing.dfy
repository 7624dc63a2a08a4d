/**
  What a listing of current versions is, independently of how it is computed: the live
  objects of a bucket in the v0 format, grouped by common prefix, cut into pages.
 */
module MasterListing {
  import opened Strings
  import opened Keys
  import opened Paging

  /** The value of a raw entry, as far as listings look into it. */
  datatype Value = Value(isDeleteMarker: bool, isPHD: bool, body: int)
  datatype Entry = Entry(key: Str, value: Value)
  datatype Object = Object(key: Str, value: Value)

  // ---------------------------------------------------------------------------
  // Live objects

  predicate IsVersionOf(e: Entry, m: Str) {
    IsVersionKey(e.key) && MasterOf(e.key) == m
  }

  /**
    The current version of object `m`, when `value` is the value found for it so far and
    `rest` the raw entries that follow: a placeholder for deletion stands for the next raw
    version, and a delete marker for no version.
   */
  function Current(value: Value, m: Str, rest: seq<Entry>): Option<Value>
    decreases |rest|
  {
    if value.isDeleteMarker then None
    else if !value.isPHD then Some(value)
    else if rest != [] && IsVersionOf(rest[0], m) then Current(rest[0].value, m, rest[1..])
    else None
  }

  /** Object `m` in front of `objects`, if it is live and not an internal replay key. */
  function WithObject(value: Value, m: Str, rest: seq<Entry>, objects: seq<Object>): seq<Object> {
    match Current(value, m, rest)
    case Some(v) => if StartsWith(m, REPLAY_PREFIX) then objects else [Object(m, v)] + objects
    case None => objects
  }

  /** The live objects whose master keys are among the entries. */
  function Live(entries: seq<Entry>): seq<Object> {
    if entries == [] then []
    else if IsVersionKey(entries[0].key) then Live(entries[1..])
    else WithObject(entries[0].value, entries[0].key, entries[1..], Live(entries[1..]))
  }

  // ---------------------------------------------------------------------------
  // Grouping by common prefix

  datatype Item = Content(key: Str, value: Value) | CommonPrefix(prefix: Str)

  function ItemKey(item: Item): Str {
    if item.Content? then item.key else item.prefix
  }

  datatype Scope = Scope(prefix: Str, delimiter: Str)

  function ItemOf(o: Object, scope: Scope): Item {
    match CommonPrefixOf(o.key, scope.prefix, scope.delimiter)
    case Some(p) => CommonPrefix(p)
    case None => Content(o.key, o.value)
  }

  function DropPrefixed(objects: seq<Object>, p: Str): (r: seq<Object>)
    ensures |r| <= |objects|
  {
    if objects != [] && StartsWith(objects[0].key, p) then DropPrefixed(objects[1..], p)
    else objects
  }

  /** The items of a listing: each common prefix once, in place of the objects under it. */
  function Group(objects: seq<Object>, scope: Scope): seq<Item>
    decreases |objects|
  {
    if objects == [] then []
    else
      var item := ItemOf(objects[0], scope);
      [item] + (match item
                case Content(_, _) => Group(objects[1..], scope)
                case CommonPrefix(p) => Group(DropPrefixed(objects[1..], p), scope))
  }

  function Contents(items: seq<Item>): seq<Object> {
    if items == [] then []
    else
      var rest := Contents(items[..|items|-1]);
      match items[|items|-1]
      case Content(k, v) => rest + [Object(k, v)]
      case CommonPrefix(_) => rest
  }

  function CommonPrefixes(items: seq<Item>): seq<Str> {
    if items == [] then []
    else
      var rest := CommonPrefixes(items[..|items|-1]);
      match items[|items|-1]
      case Content(_, _) => rest
      case CommonPrefix(p) => rest + [p]
  }

  /** What a listing returns; the next marker or token is given on truncated pages only. */
  datatype ListingResult = ListingResult(
    contents: seq<Object>, commonPrefixes: seq<Str>, isTruncated: bool,
    nextMarker: Option<Str>, nextContinuationToken: Option<Str>)

  /** The marker from which to list the items after those of a page. */
  function NextMarker(page: seq<Item>, marker: Str): Str {
    if page == [] then marker else ItemKey(page[|page|-1])
  }

  function PageResult(items: seq<Item>, maxKeys: int, marker: Str, delimiter: Str, v2: bool): ListingResult {
    var page := Page(items, maxKeys);
    var truncated := maxKeys > 0 && |items| > maxKeys;
    ListingResult(
      Contents(page), CommonPrefixes(page), truncated,
      if truncated && delimiter != [] && !v2 then Some(NextMarker(page, marker)) else None,
      if truncated && v2 then Some(NextMarker(page, marker)) else None)
  }

  // ---------------------------------------------------------------------------
  // Grouping, declaratively

  ghost predicate SortedObjects(objects: seq<Object>) {
    forall i, j :: 0 <= i < j < |objects| ==> Lt(objects[i].key, objects[j].key)
  }

  ghost predicate SortedItems(items: seq<Item>) {
    forall i, j :: 0 <= i < j < |items| ==> Lt(ItemKey(items[i]), ItemKey(items[j]))
  }

  // ---------------------------------------------------------------------------
  // What is returned

  /** The items that objects have: contents, and the common prefixes of the others. */
  ghost predicate IsItem(objects: seq<Object>, scope: Scope, item: Item) {
    match item
    case Content(k, v) => Object(k, v) in objects && CommonPrefixOf(k, scope.prefix, scope.delimiter) == None
    case CommonPrefix(p) =>
      exists o :: o in objects && CommonPrefixOf(o.key, scope.prefix, scope.delimiter) == Some(p)
  }

  ghost predicate IsReturned(r: ListingResult, item: Item) {
    match item
    case Content(k, v) => Object(k, v) in r.contents
    case CommonPrefix(p) => p in r.commonPrefixes
  }

  ghost predicate AscendingPrefixes(prefixes: seq<Str>) {
    forall i, j :: 0 <= i < j < |prefixes| ==> Lt(prefixes[i], prefixes[j])
  }

  /** A page of some items: the first ones, each once and in order, as many as it has room for;
      whether there are more; and from where to go on. */
  ghost predicate IsPage(r: ListingResult, all: iset<Item>, maxKeys: int, delimiter: Str, v2: bool) {
    && SortedObjects(r.contents) && AscendingPrefixes(r.commonPrefixes)
    && (forall item :: IsReturned(r, item) ==> item in all)
    && (forall a, c :: a in all && IsReturned(r, c) && Lt(ItemKey(a), ItemKey(c)) ==> IsReturned(r, a))
    && |r.contents| + |r.commonPrefixes| <= (if maxKeys > 0 then maxKeys else 0)
    && (r.isTruncated <==> maxKeys > 0 && exists item :: item in all && !IsReturned(r, item))
    && (r.isTruncated ==> |r.contents| + |r.commonPrefixes| == maxKeys)
    && (if v2 then r.nextMarker == None else r.nextContinuationToken == None)
    && IsNext(r, if v2 then r.nextContinuationToken else r.nextMarker, v2 || delimiter != [])
  }

  /** The key to go on from is given on truncated pages: that of the last item. */
  ghost predicate IsNext(r: ListingResult, next: Option<Str>, given: bool) {
    && (next.Some? <==> r.isTruncated && given)
    && (next.Some? ==>
          && (exists item :: IsReturned(r, item) && ItemKey(item) == next.value)
          && forall item :: IsReturned(r, item) ==> Le(ItemKey(item), next.value))
  }

  /** The contents and the common prefixes that are returned are the items, each one once. */
  lemma {:induction false} ReturnedItems(items: seq<Item>)
    ensures forall k, v :: Object(k, v) in Contents(items) <==> Content(k, v) in items
    ensures forall p :: p in CommonPrefixes(items) <==> CommonPrefix(p) in items
    ensures |Contents(items)| + |CommonPrefixes(items)| == |items|
  {
    if items != [] {
      var n := |items| - 1;
      ReturnedItems(items[..n]);
      assert items == items[..n] + [items[n]];
    }
  }

  /** Both come in ascending order. */
  lemma {:induction false} ReturnedInOrder(items: seq<Item>)
    requires SortedItems(items)
    ensures SortedObjects(Contents(items)) && AscendingPrefixes(CommonPrefixes(items))
  {
    hide Lt;
    if items != [] {
      var n := |items| - 1;
      var before, last := items[..n], items[n];
      ReturnedInOrder(before);
      ReturnedItems(before);
      forall o | o in Contents(before)
        ensures Lt(o.key, ItemKey(last))
      {
        var i :| 0 <= i < n && before[i] == Content(o.key, o.value);
        assert items[i] == before[i];
      }
      forall p | p in CommonPrefixes(before)
        ensures Lt(p, ItemKey(last))
      {
        var i :| 0 <= i < n && before[i] == CommonPrefix(p);
        assert items[i] == before[i];
      }
    }
  }

  /** The items returned for a page are its items. */
  lemma ReturnedIsPage(items: seq<Item>, maxKeys: int, marker: Str, delimiter: Str, v2: bool)
    ensures var r, page := PageResult(items, maxKeys, marker, delimiter, v2), Page(items, maxKeys);
            && (forall item :: IsReturned(r, item) <==> item in page)
            && |r.contents| + |r.commonPrefixes| == |page|
  {
    hide Contents;
    hide CommonPrefixes;
    hide Page;
    ReturnedItems(Page(items, maxKeys));
  }

  lemma PageIsFirst(items: seq<Item>, maxKeys: int)
    requires SortedItems(items)
    ensures var page := Page(items, maxKeys);
            && SortedItems(page)
            && (forall item :: item in page ==> item in items)
            && (forall a, c :: a in items && c in page && Lt(ItemKey(a), ItemKey(c)) ==> a in page)
            && (maxKeys <= 0 ==> page == [])
            && (0 < maxKeys < |items| ==> |page| == maxKeys && exists item :: item in items && item !in page)
            && (0 <= |items| <= maxKeys ==> page == items)
  {
    hide Lt;
    hide ItemKey;
    var page := Page(items, maxKeys);
    forall a, c | a in items && c in page && Lt(ItemKey(a), ItemKey(c))
      ensures a in page
    {
      var i :| 0 <= i < |items| && items[i] == a;
      var j :| 0 <= j < |page| && page[j] == c;
      assert items[j] == c;
      StrictTotalOrder(ItemKey(a), ItemKey(c), ItemKey(a));
      assert i < |page| && page[i] == a;
    }
    if 0 < maxKeys < |items| {
      LeftOver(items, page, maxKeys);
      assert items[maxKeys] in items;
    }
  }

  lemma LeftOver(items: seq<Item>, page: seq<Item>, n: nat)
    requires SortedItems(items) && n < |items| && page == items[..n]
    ensures items[n] !in page
  {
    hide Lt;
    hide ItemKey;
    if items[n] in page {
      var j :| 0 <= j < |page| && page[j] == items[n];
      assert Lt(ItemKey(items[j]), ItemKey(items[n]));
      StrictTotalOrder(ItemKey(items[n]), ItemKey(items[n]), ItemKey(items[n]));
    }
  }

  lemma NextIsLast(items: seq<Item>, maxKeys: nat, marker: Str, delimiter: Str, v2: bool)
    requires SortedItems(items) && 0 < maxKeys < |items|
    ensures var r := PageResult(items, maxKeys, marker, delimiter, v2);
            IsNext(r, if v2 then r.nextContinuationToken else r.nextMarker, v2 || delimiter != [])
  {
    hide Lt;
    hide Contents;
    hide CommonPrefixes;
    hide IsReturned;
    hide ItemKey;
    ReturnedIsPage(items, maxKeys, marker, delimiter, v2);
    PageIsFirst(items, maxKeys);
    var page := Page(items, maxKeys);
    LastIsGreatest(page);
    assert NextMarker(page, marker) == ItemKey(page[|page|-1]) && page[|page|-1] in page;
  }

  /** A page of sorted items is what it should be. */
  lemma PageIsRight(items: seq<Item>, all: iset<Item>, maxKeys: int, marker: Str, delimiter: Str, v2: bool)
    requires SortedItems(items) && forall item :: item in items <==> item in all
    ensures IsPage(PageResult(items, maxKeys, marker, delimiter, v2), all, maxKeys, delimiter, v2)
  {
    hide Lt;
    hide Contents;
    hide CommonPrefixes;
    hide IsReturned;
    hide ItemKey;
    hide Page;
    hide SortedItems;
    hide SortedObjects;
    hide AscendingPrefixes;
    var page := Page(items, maxKeys);
    ReturnedIsPage(items, maxKeys, marker, delimiter, v2);
    PageIsFirst(items, maxKeys);
    ReturnedInOrder(page);
    if 0 < maxKeys < |items| {
      NextIsLast(items, maxKeys, marker, delimiter, v2);
    }
  }

  lemma LastIsGreatest(page: seq<Item>)
    requires SortedItems(page) && page != []
    ensures forall item :: item in page ==> Le(ItemKey(item), ItemKey(page[|page|-1]))
  {
    hide Lt;
    Ordered();
  }

  /** The items of objects, by their common prefixes. */
  lemma GroupedItems(objects: seq<Object>, scope: Scope)
    requires SortedObjects(objects)
    ensures SortedItems(Group(objects, scope))
    ensures forall item :: item in Group(objects, scope) <==> IsItem(objects, scope, item)
  {
    hide Lt;
    hide CommonPrefixOf;
    hide SortedObjects;
    GroupIsDistinct(objects, scope);
    forall item
      ensures item in Group(objects, scope) <==> IsItem(objects, scope, item)
    {
      if item in Group(objects, scope) {
        var o :| o in objects && ItemOf(o, scope) == item;
      }
      if IsItem(objects, scope, item) {
        var o :| o in objects && ItemOf(o, scope) == item;
      }
    }
  }

  lemma {:induction false} DropPrefixedIs(objects: seq<Object>, p: Str)
    requires SortedObjects(objects)
    ensures SortedObjects(DropPrefixed(objects, p))
    ensures forall o :: o in DropPrefixed(objects, p) ==> o in objects
    ensures forall o :: o in objects && !StartsWith(o.key, p) ==> o in DropPrefixed(objects, p)
  {
    hide Lt;
    if objects != [] && StartsWith(objects[0].key, p) {
      DropPrefixedIs(objects[1..], p);
    }
  }

  /** Past the first object, those under a common prefix come first. */
  lemma {:induction false} DropPrefixedAll(objects: seq<Object>, p: Str, o: Object)
    requires SortedObjects(objects) && o in DropPrefixed(objects, p)
    requires objects != [] ==> Le(p, objects[0].key)
    ensures !StartsWith(o.key, p)
  {
    hide Lt;
    if objects != [] {
      var i :| 0 <= i < |objects| && objects[i] == o by {
        DropPrefixedIs(objects, p);
      }
      if StartsWith(objects[0].key, p) {
        if |objects| > 1 {
          Transitive(p, objects[0].key, objects[1].key);
          Transitive(p, objects[1].key, objects[1].key);
        }
        DropPrefixedAll(objects[1..], p, o);
      } else if StartsWith(o.key, p) {
        assert i > 0 ==> Lt(objects[0].key, o.key);
        StrictTotalOrder(objects[0].key, o.key, p);
        StartsWithBetween(p, objects[0].key, o.key, p);
      }
    }
  }

  /** Items follow the order of the objects they stand for. */
  lemma ItemsAscend(a: Object, b: Object, scope: Scope)
    requires Lt(a.key, b.key)
    ensures ItemOf(a, scope) == ItemOf(b, scope) || Lt(ItemKey(ItemOf(a, scope)), ItemKey(ItemOf(b, scope)))
    ensures ItemOf(a, scope) == ItemOf(b, scope) <==>
              ItemOf(a, scope).CommonPrefix? && StartsWith(b.key, ItemOf(a, scope).prefix)
  {
    hide Lt;
    StrictTotalOrder(a.key, b.key, a.key);
    ItemKeyIsPrefix(a, scope);
    ItemKeyIsPrefix(b, scope);
    var k, q := ItemKey(ItemOf(a, scope)), ItemKey(ItemOf(b, scope));
    if ItemOf(a, scope).CommonPrefix? && StartsWith(b.key, k) {
      CommonPrefixShared(a.key, b.key, scope.prefix, scope.delimiter);
    }
    if !Lt(k, q) {
      Ordered();
      assert Le(q, a.key) && Le(a.key, b.key);
      if ItemOf(b, scope).CommonPrefix? {
        assert StartsWith(q, q);
        StartsWithBetween(q, a.key, b.key, q);
        CommonPrefixShared(b.key, a.key, scope.prefix, scope.delimiter);
      }
    }
  }

  lemma ItemKeyIsPrefix(o: Object, scope: Scope)
    ensures StartsWith(o.key, ItemKey(ItemOf(o, scope))) && Le(ItemKey(ItemOf(o, scope)), o.key)
  {
    if ItemOf(o, scope).CommonPrefix? {
      CommonPrefixStarts(o.key, scope.prefix, scope.delimiter);
    }
    PrefixIsLe(o.key, ItemKey(ItemOf(o, scope)));
  }

  /** The objects left after the first item of a listing. */
  function Remaining(objects: seq<Object>, scope: Scope): seq<Object>
    requires objects != []
  {
    match ItemOf(objects[0], scope)
    case Content(_, _) => objects[1..]
    case CommonPrefix(p) => DropPrefixed(objects[1..], p)
  }

  lemma RemainingIs(objects: seq<Object>, scope: Scope)
    requires SortedObjects(objects) && objects != []
    ensures SortedObjects(Remaining(objects, scope))
    ensures forall o :: o in Remaining(objects, scope) ==>
              o in objects && Lt(ItemKey(ItemOf(objects[0], scope)), ItemKey(ItemOf(o, scope)))
    ensures forall o :: o in objects ==>
              ItemOf(o, scope) == ItemOf(objects[0], scope) || o in Remaining(objects, scope)
  {
    hide Lt;
    hide ItemOf;
    var item, rest := ItemOf(objects[0], scope), objects[1..];
    if item.CommonPrefix? {
      DropPrefixedIs(rest, item.prefix);
    }
    forall o | o in rest
      ensures ItemOf(o, scope) == item || Lt(ItemKey(item), ItemKey(ItemOf(o, scope)))
      ensures ItemOf(o, scope) == item <==> item.CommonPrefix? && StartsWith(o.key, item.prefix)
    {
      var i :| 0 <= i < |rest| && rest[i] == o;
      assert objects[i+1] == o;
      ItemsAscend(objects[0], o, scope);
    }
    forall o | o in Remaining(objects, scope)
      ensures o in rest && (item.CommonPrefix? ==> !StartsWith(o.key, item.prefix))
    {
      if item.CommonPrefix? {
        RestIsOutside(objects, scope, o);
      }
    }
    assert forall o :: o in objects ==> o == objects[0] || o in rest;
  }

  /**
    The items of a listing in two facts: they are in strictly ascending order, and they
    are the items that the objects stand for.
   */
  lemma {:induction false} GroupIsDistinct(objects: seq<Object>, scope: Scope)
    requires SortedObjects(objects)
    ensures SortedItems(Group(objects, scope))
    ensures forall item :: item in Group(objects, scope) <==> exists o :: o in objects && ItemOf(o, scope) == item
    decreases |objects|
  {
    hide Lt;
    hide ItemOf;
    hide SortedObjects;
    if objects != [] {
      var rest := Remaining(objects, scope);
      RemainingIs(objects, scope);
      GroupIsDistinct(rest, scope);
      var tail := Group(rest, scope);
      assert Group(objects, scope) == [ItemOf(objects[0], scope)] + tail;
      assert forall i :: 0 <= i < |tail| ==> tail[i] in tail;
      assert objects[0] in objects;
    }
  }

  lemma RestIsOutside(objects: seq<Object>, scope: Scope, o: Object)
    requires SortedObjects(objects) && objects != [] && ItemOf(objects[0], scope).CommonPrefix?
    requires o in DropPrefixed(objects[1..], ItemOf(objects[0], scope).prefix)
    ensures !StartsWith(o.key, ItemOf(objects[0], scope).prefix)
  {
    hide Lt;
    ItemKeyIsPrefix(objects[0], scope);
    if |objects| > 1 {
      Transitive(ItemOf(objects[0], scope).prefix, objects[0].key, objects[1].key);
      Transitive(ItemOf(objects[0], scope).prefix, objects[1].key, objects[1].key);
    }
    DropPrefixedAll(objects[1..], ItemOf(objects[0], scope).prefix, o);
  }

  // ---------------------------------------------------------------------------
  // Streams of raw entries

  ghost predicate SortedEntries(s: seq<Entry>) {
    forall i, j :: 0 <= i < j < |s| ==> Lt(s[i].key, s[j].key)
  }

  /** The raw entries from `marker` on: each version key directly follows its master key or
      another version of it; the first ones may be versions of the marker itself. */
  ghost predicate WellFormed(s: seq<Entry>, marker: Str) {
    && SortedEntries(s)
    && (s != [] && IsVersionKey(s[0].key) ==> marker != [] && MasterOf(s[0].key) == marker)
    && (forall i :: 0 < i < |s| && IsVersionKey(s[i].key) ==> MasterOf(s[i].key) == MasterOf(s[i-1].key))
  }

  lemma {:induction false} LiveIsStored(s: seq<Entry>, o: Object)
    requires o in Live(s)
    ensures exists i :: 0 <= i < |s| && s[i].key == o.key && !IsVersionKey(o.key)
    ensures !StartsWith(o.key, REPLAY_PREFIX)
  {
    if o in Live(s[1..]) {
      LiveIsStored(s[1..], o);
      var i :| 0 <= i < |s[1..]| && s[1..][i].key == o.key;
      assert s[i+1].key == o.key;
    } else {
      assert s[0].key == o.key;
    }
  }

  lemma {:induction false} LiveSorted(s: seq<Entry>)
    requires SortedEntries(s)
    ensures SortedObjects(Live(s))
  {
    hide Lt;
    if s != [] {
      LiveSorted(s[1..]);
      forall o | o in Live(s[1..])
        ensures Lt(s[0].key, o.key)
      {
        LiveIsStored(s[1..], o);
      }
    }
  }

  /** From the entry at `i` on, placeholders lead to the entry at `j`, which holds a version
      that is no delete marker. */
  ghost predicate LeadsTo(s: seq<Entry>, i: nat, j: nat, m: Str) {
    && i <= j < |s| && !s[j].value.isDeleteMarker && !s[j].value.isPHD
    && (forall n :: i <= n < j ==> s[n].value.isPHD && !s[n].value.isDeleteMarker)
    && (forall n :: i < n <= j ==> IsVersionOf(s[n], m))
  }

  lemma {:induction false} CurrentIsFound(s: seq<Entry>, i: nat, m: Str, v: Value)
    requires i < |s|
    ensures Current(s[i].value, m, s[i+1..]) == Some(v) <==> exists j: nat :: LeadsTo(s, i, j, m) && s[j].value == v
    decreases |s| - i
  {
    hide IsVersionOf;
    var value, rest := s[i].value, s[i+1..];
    assert rest != [] ==> rest[0] == s[i+1];
    if value.isPHD && !value.isDeleteMarker && rest != [] && IsVersionOf(rest[0], m) {
      assert rest[0] == s[i+1] && rest[1..] == s[i+2..];
      CurrentIsFound(s, i + 1, m, v);
      forall j: nat
        ensures LeadsTo(s, i, j, m) <==> LeadsTo(s, i + 1, j, m)
      {
      }
    } else {
      forall j: nat | LeadsTo(s, i, j, m)
        ensures j == i
      {
      }
      assert !value.isDeleteMarker && !value.isPHD ==> LeadsTo(s, i, i, m);
    }
  }

  /** The object has a master entry at `i`, and the version at `j`. */
  ghost predicate IsStoredAt(s: seq<Entry>, i: nat, j: nat, o: Object) {
    LeadsTo(s, i, j, o.key) && s[i].key == o.key && s[j].value == o.value
  }

  /** The live objects are those that have a master entry, which is no internal replay key, and
      with it or through placeholders a version that is no delete marker. */
  lemma {:induction false} LiveExactly(s: seq<Entry>, o: Object)
    ensures o in Live(s)
       <==> !IsVersionKey(o.key) && !StartsWith(o.key, REPLAY_PREFIX) && exists i: nat, j: nat :: IsStoredAt(s, i, j, o)
  {
    hide IsVersionKey;
    hide StartsWith;
    hide Current;
    hide LeadsTo;
    if s != [] {
      LiveExactly(s[1..], o);
      CurrentIsFound(s, 0, s[0].key, o.value);
      assert s[0+1..] == s[1..];
      forall i: nat, j: nat
        ensures IsStoredAt(s[1..], i, j, o) <==> IsStoredAt(s, i + 1, j + 1, o)
      {
        StoredLater(s, i, j, o);
      }
      StoredForward(s, o);
      if i: nat, j: nat :| IsStoredAt(s, i, j, o) && i > 0 {
        assert IsStoredAt(s[1..], i - 1, j - 1, o);
      }
      if j: nat :| IsStoredAt(s, 0, j, o) {
        assert LeadsTo(s, 0, j, s[0].key) && s[j].value == o.value;
      }
      if Current(s[0].value, s[0].key, s[1..]) == Some(o.value) && s[0].key == o.key {
        var j: nat :| LeadsTo(s, 0, j, s[0].key) && j < |s| && s[j].value == o.value;
        assert IsStoredAt(s, 0, j, o);
      }
    } else {
      StoredForward(s, o);
    }
  }

  lemma StoredForward(s: seq<Entry>, o: Object)
    ensures forall i: nat, j: nat :: IsStoredAt(s, i, j, o) ==> i <= j < |s|
    ensures forall j: nat, m: Str :: LeadsTo(s, 0, j, m) ==> j < |s|
  {
  }

  lemma StoredLater(s: seq<Entry>, i: nat, j: nat, o: Object)
    requires s != []
    ensures IsStoredAt(s[1..], i, j, o) <==> IsStoredAt(s, i + 1, j + 1, o)
  {
    hide IsVersionOf;
    var t := s[1..];
    if IsStoredAt(s, i + 1, j + 1, o) {
      forall n | i <= n < j
        ensures t[n].value.isPHD && !t[n].value.isDeleteMarker
      {
        assert t[n] == s[n+1];
      }
      forall n | i < n <= j
        ensures IsVersionOf(t[n], o.key)
      {
        assert t[n] == s[n+1];
      }
    }
    if IsStoredAt(t, i, j, o) {
      forall n | i + 1 <= n < j + 1
        ensures s[n].value.isPHD && !s[n].value.isDeleteMarker
      {
        assert s[n] == t[n-1];
      }
      forall n | i + 1 < n <= j + 1
        ensures IsVersionOf(s[n], o.key)
      {
        assert s[n] == t[n-1];
      }
    }
  }

  /** Past position `i`, the live objects are those with the keys from there on. */
  lemma {:induction false} LiveFrom(s: seq<Entry>, i: nat, o: Object)
    requires SortedEntries(s) && i <= |s|
    ensures o in Live(s[i..]) ==> o in Live(s)
    ensures o in Live(s) && (forall j :: 0 <= j < i ==> s[j].key != o.key) ==> o in Live(s[i..])
  {
    if i == 0 {
      assert s[0..] == s;
    } else {
      LiveFrom(s[1..], i - 1, o);
      assert s[1..][i-1..] == s[i..];
      assert forall j :: 0 <= j < i - 1 ==> s[1..][j] == s[j+1];
    }
  }

  lemma LiveIsNotReplay(s: seq<Entry>)
    ensures DropPrefixed(Live(s), REPLAY_PREFIX) == Live(s)
  {
    if Live(s) != [] {
      LiveIsStored(s, Live(s)[0]);
    }
  }

  lemma GroupStep(o: Object, objects: seq<Object>, scope: Scope)
    ensures var item := ItemOf(o, scope);
            Group([o] + objects, scope)
            == [item] + Group(if item.CommonPrefix? then DropPrefixed(objects, item.prefix) else objects, scope)
  {
    assert ([o] + objects)[1..] == objects;
  }
}
