/**
  What a listing of versions is: the raw entries of a bucket in the v0 format as a flow of
  events, with null versions moved to where their own version ids put them, and the steps
  of listing such a flow, grouped by common prefix.
 */
module VersionListing {
  import opened Strings
  import opened Keys
  import opened Paging
  import Versions
  import MasterListing

  type Metadata = Versions.Metadata
  type Scope = MasterListing.Scope

  datatype Entry = Entry(key: Str, value: Metadata)

  /** A version to list; master entries come without a version id. */
  datatype Event = Event(key: Str, versionId: Option<Str>, value: Metadata)

  // ---------------------------------------------------------------------------
  // From raw entries to events

  /** The version id in a version key. */
  function VersionIdIn(key: Str): Str
    requires IsVersionKey(key)
  {
    key[SeparatorIndex(key)+1..]
  }

  function KeyVersionId(key: Str): Option<Str> {
    if IsVersionKey(key) then Some(VersionIdIn(key)) else None
  }

  /** The null version is stored under the empty version id. */
  predicate IsNullEntry(e: Entry) {
    KeyVersionId(e.key) == Some([])
  }

  /** The event of an entry; a null version goes under its own version id. */
  function EventOf(e: Entry): Event {
    Event(MasterOf(e.key), if IsNullEntry(e) then e.value.versionId else KeyVersionId(e.key), e.value)
  }

  /** Whether a null version has to come before the entry with key `key`. */
  predicate ComesBefore(nullKey: Event, key: Str) {
    || nullKey.key != MasterOf(key)
    || (nullKey.versionId.Some? && IsVersionKey(key) && Lt(nullKey.versionId.value, VersionIdIn(key)))
  }

  /** The events of the entries, when a null version may be waiting for its place. */
  function Flow(nullKey: Option<Event>, entries: seq<Entry>): seq<Event>
    decreases |entries|, if nullKey.Some? then 1 else 0
  {
    if entries == [] then (if nullKey.Some? then [nullKey.value] else [])
    else if nullKey.Some? && ComesBefore(nullKey.value, entries[0].key) then
      [nullKey.value] + Flow(None, entries)
    else if IsNullEntry(entries[0]) then Flow(Some(EventOf(entries[0])), entries[1..])
    else [EventOf(entries[0])] + Flow(nullKey, entries[1..])
  }

  // ---------------------------------------------------------------------------
  // From events to the steps of a listing

  datatype Item = VersionItem(key: Str, versionId: Str, value: Metadata) | CommonPrefix(prefix: Str)

  /** An item is listed, or the version of the master entry is met a second time. */
  datatype Step = Listed(item: Item) | Again

  /** Which events are passed over without looking at them. */
  datatype Skipping = Nothing | Under(prefix: Str) | UpTo(key: Str, versionId: Str)

  /** The string "null", the version id of objects that were stored without one. */
  const NULL_ID: Str := [0x6e, 0x75, 0x6c, 0x6c]

  function MasterIdOf(value: Metadata): Str {
    if value.versionId.Some? && value.versionId.value != [] then value.versionId.value else NULL_ID
  }

  function IdOf(e: Event): Str {
    if e.versionId.Some? then e.versionId.value else MasterIdOf(e.value)
  }

  function ItemOf(e: Event, scope: Scope): Item {
    match CommonPrefixOf(e.key, scope.prefix, scope.delimiter)
    case Some(p) => CommonPrefix(p)
    case None => VersionItem(e.key, IdOf(e), e.value)
  }

  predicate Skips(s: Skipping, e: Event) {
    match s
    case Nothing => false
    case Under(p) => StartsWith(e.key, p)
    case UpTo(k, v) => e.key == k && e.versionId.Some? && Le(e.versionId.value, v)
  }

  function Drop(events: seq<Event>, s: Skipping): (r: seq<Event>)
    ensures |r| <= |events|
  {
    if events != [] && Skips(s, events[0]) then Drop(events[1..], s) else events
  }

  /** The last master entry met: its key and version id. */
  type Master = Option<(Str, Str)>

  predicate IsAgain(e: Event, master: Master) {
    e.versionId.Some? && master == Some((e.key, e.versionId.value))
  }

  function NextMaster(e: Event, master: Master): Master {
    if e.versionId.None? then Some((e.key, IdOf(e))) else master
  }

  function SkippingAfter(item: Item): Skipping {
    if item.CommonPrefix? then Under(item.prefix) else Nothing
  }

  /** The steps of listing the events. */
  function Steps(events: seq<Event>, master: Master, scope: Scope): seq<Step>
    decreases |events|
  {
    if events == [] then []
    else
      var e, rest := events[0], events[1..];
      if StartsWith(e.key, REPLAY_PREFIX) then Steps(Drop(rest, Under(REPLAY_PREFIX)), master, scope)
      else if e.value.isPHD then Steps(rest, master, scope)
      else if IsAgain(e, master) then [Again] + Steps(rest, master, scope)
      else
        var item := ItemOf(e, scope);
        [Listed(item)] + Steps(Drop(rest, SkippingAfter(item)), NextMaster(e, master), scope)
  }

  /** The items listed in a sequence of steps. */
  function Items(steps: seq<Step>): (r: seq<Item>)
    ensures |r| <= |steps|
  {
    if steps == [] then []
    else
      var n := |steps| - 1;
      Items(steps[..n]) + (if steps[n].Listed? then [steps[n].item] else [])
  }

  function VersionsIn(items: seq<Item>): seq<Item> {
    if items == [] then []
    else
      var n := |items| - 1;
      VersionsIn(items[..n]) + (if items[n].VersionItem? then [items[n]] else [])
  }

  function PrefixesIn(items: seq<Item>): seq<Str> {
    if items == [] then []
    else
      var n := |items| - 1;
      PrefixesIn(items[..n]) + (if items[n].CommonPrefix? then [items[n].prefix] else [])
  }

  /** A place in a listing: a key, and a version id of it unless the empty string. */
  datatype Marker = Marker(key: Str, versionId: Str)

  function MarkerOf(item: Item): Marker {
    match item
    case VersionItem(k, v, _) => Marker(k, v)
    case CommonPrefix(p) => Marker(p, [])
  }

  function NextMarker(page: seq<Item>, start: Marker): Marker {
    if page == [] then start else MarkerOf(page[|page|-1])
  }

  /**
    Whether a listing of at most `maxKeys` items calls itself truncated: if an item is left
    over, but also when it is full and the last thing it meets is the second copy of the
    version that a master entry holds.
   */
  predicate IsTruncated(steps: seq<Step>, maxKeys: int) {
    var n := |Items(steps)|;
    maxKeys > 0 && (n > maxKeys || (n == maxKeys && steps[|steps|-1].Again?))
  }

  datatype ListingResult = ListingResult(
    commonPrefixes: seq<Str>, versions: seq<Item>, isTruncated: bool,
    nextKeyMarker: Option<Str>, nextVersionIdMarker: Option<Str>)

  function PageResult(steps: seq<Step>, maxKeys: int, start: Marker): ListingResult {
    var page := Page(Items(steps), maxKeys);
    var truncated := IsTruncated(steps, maxKeys);
    var next := NextMarker(page, start);
    ListingResult(
      PrefixesIn(page), VersionsIn(page), truncated,
      if truncated then Some(next.key) else None,
      if truncated && next.versionId != [] then Some(next.versionId) else None)
  }

  // ---------------------------------------------------------------------------
  // The order of events

  /** The key under which a version is or would be stored. */
  function Position(e: Event): Str {
    if e.versionId.Some? then e.key + [VID_SEP] + e.versionId.value else e.key
  }

  lemma PositionBounds(e: Event)
    ensures Le(e.key, Position(e)) && (e.versionId.Some? ==> Le(e.key + [0], Position(e)))
    ensures e.versionId.Some? ==> StartsWith(Position(e), e.key + [0])
  {
    if e.versionId.Some? {
      assert Position(e)[..|e.key|+1] == e.key + [0];
      assert Position(e)[..|e.key|] == e.key;
      PrefixIsLe(Position(e), e.key + [0]);
      PrefixIsLe(Position(e), e.key);
    } else {
      PrefixIsLe(e.key, e.key);
    }
  }

  lemma SmallerKeyFirst(a: Event, b: Event)
    requires !IsVersionKey(a.key) && !IsVersionKey(b.key) && Lt(a.key, b.key)
    ensures Lt(Position(a), Position(b)) && Lt(Position(a), b.key)
  {
    hide Lt;
    PositionBounds(a);
    PositionBounds(b);
    Ordered();
    if a.versionId.Some? && Le(b.key, Position(a)) {
      NextString(a.key, b.key);
      assert StartsWith(a.key + [0], a.key + [0]);
      StartsWithBetween(a.key + [0], b.key, Position(a), a.key + [0]);
      StartsWithVersion(b.key, a.key);
    }
  }

  /** Positions are ordered by key, then by version id, the master entry first. */
  lemma PositionOrder(a: Event, b: Event)
    requires !IsVersionKey(a.key) && !IsVersionKey(b.key)
    ensures Lt(Position(a), Position(b)) <==>
              || Lt(a.key, b.key)
              || (a.key == b.key && b.versionId.Some?
                  && (a.versionId.None? || Lt(a.versionId.value, b.versionId.value)))
  {
    hide Lt;
    StrictTotalOrder(a.key, b.key, a.key);
    StrictTotalOrder(Position(a), Position(b), Position(a));
    if Lt(a.key, b.key) {
      SmallerKeyFirst(a, b);
    } else if Lt(b.key, a.key) {
      SmallerKeyFirst(b, a);
    } else {
      PositionBounds(b);
      PositionBounds(a);
      NextString(a.key, Position(b));
      NextString(b.key, Position(a));
      if a.versionId.Some? && b.versionId.Some? {
        AppendKeepsOrder(a.key + [VID_SEP], a.versionId.value, b.versionId.value);
      }
    }
  }

  /** The master entry holds the newest version, which may also be stored as a version. */
  predicate MasterIsNewest(a: Event, b: Event) {
    a.versionId.None? && !a.value.isPHD && b.versionId.Some? && a.key == b.key ==>
      Le(IdOf(a), b.versionId.value) && (IdOf(a) == b.versionId.value ==> a.value == b.value)
  }

  ghost predicate SortedEvents(events: seq<Event>) {
    forall i, j :: 0 <= i < j < |events| ==> Lt(Position(events[i]), Position(events[j]))
  }

  ghost predicate AreVersions(events: seq<Event>) {
    && (forall e :: e in events ==> !IsVersionKey(e.key))
    && (forall a, b :: a in events && b in events ==> MasterIsNewest(a, b))
  }

  ghost predicate SortedEntries(s: seq<Entry>) {
    forall i, j :: 0 <= i < j < |s| ==> Lt(s[i].key, s[j].key)
  }

  /** A bucket in the v0 format: at most one null version per object, under a version id of
      its own, and the newest version of an object in its master entry. */
  ghost predicate IsBucket(b: seq<Entry>) {
    && SortedEntries(b)
    && (forall e :: e in b ==> MasterOf(e.key) != [])
    && (forall e :: e in b && IsNullEntry(e) ==> NullIsApart(e, b))
    && (forall d, e :: d in b && e in b ==> MasterIsNewest(EventOf(d), EventOf(e)))
  }

  ghost predicate NullIsApart(e: Entry, b: seq<Entry>) {
    && e.value.versionId.Some? && e.value.versionId.value != []
    && forall d :: d in b ==> d.key != Position(EventOf(e))
  }

  lemma EntryPosition(e: Entry)
    ensures if IsNullEntry(e) then Position(EventOf(e).(versionId := Some([]))) == e.key
            else Position(EventOf(e)) == e.key
  {
    var n := SeparatorIndex(e.key);
    if IsVersionKey(e.key) {
      assert e.key == e.key[..n] + [VID_SEP] + e.key[n+1..];
    } else {
      assert e.key[..n] == e.key;
    }
  }

  /** The event of an entry comes no earlier than the entry, and a null version later. */
  lemma EventIsLater(e: Entry)
    requires IsNullEntry(e) ==> e.value.versionId.Some? && e.value.versionId.value != []
    ensures Le(e.key, Position(EventOf(e)))
    ensures IsNullEntry(e) ==> Lt(e.key, Position(EventOf(e)))
  {
    hide Lt;
    EntryPosition(e);
    StrictTotalOrder(e.key, e.key, e.key);
    if IsNullEntry(e) {
      PositionOrder(EventOf(e).(versionId := Some([])), EventOf(e));
      NothingBeforeEmpty(e.value.versionId.value);
      Transitive(e.key, Position(EventOf(e)), e.key);
    }
  }

  /** Once a null version has to come before an entry, its place is before it. */
  lemma ComesBeforeIsOrder(nullKey: Event, e: Entry)
    requires !IsVersionKey(nullKey.key) && nullKey.versionId.Some?
    requires Lt(nullKey.key + [0], e.key) && Position(nullKey) != e.key
    ensures ComesBefore(nullKey, e.key) <==> Lt(Position(nullKey), e.key)
    ensures IsNullEntry(e) ==> ComesBefore(nullKey, e.key)
  {
    hide Lt;
    var d := EventOf(e).(versionId := KeyVersionId(e.key));
    EntryPosition(e);
    assert Position(d) == e.key;
    PositionOrder(nullKey, d);
    NextString(nullKey.key, e.key);
    Transitive(nullKey.key, nullKey.key + [0], e.key);
    Transitive(nullKey.key + [0], e.key, e.key);
    var z := Event(nullKey.key, Some([]), nullKey.value);
    assert Position(z) == nullKey.key + [0];
    PositionOrder(z, d);
    StrictTotalOrder([], [], []);
    StrictTotalOrder(nullKey.key, d.key, nullKey.key);
  }

  /**
    The flow of a bucket holds the event of every entry and nothing else, in strictly
    ascending order, although null versions are read before their places.
   */
  lemma {:induction false} FlowIsSorted(nullKey: Option<Event>, rest: seq<Entry>)
    requires SortedEntries(rest)
    requires forall e :: e in rest && IsNullEntry(e) ==> NullIsApart(e, rest)
    requires nullKey.Some? ==>
               && !IsVersionKey(nullKey.value.key) && nullKey.value.versionId.Some?
               && forall e :: e in rest ==>
                    Lt(nullKey.value.key + [0], e.key) && Position(nullKey.value) != e.key
    ensures SortedEvents(Flow(nullKey, rest))
    ensures forall v :: v in Flow(nullKey, rest) <==>
              nullKey == Some(v) || exists e :: e in rest && EventOf(e) == v
    decreases |rest|, if nullKey.Some? then 1 else 0
  {
    hide Lt;
    hide ComesBefore;
    hide EventOf;
    hide IsNullEntry;
    hide Position;
    hide IsVersionKey;
    if rest != [] {
      var e, tail := rest[0], rest[1..];
      assert rest == [e] + tail;
      assert e in rest;
      assert forall d :: d in tail ==> d in rest;
      if nullKey.Some? {
        ComesBeforeIsOrder(nullKey.value, e);
      }
      if nullKey.Some? && ComesBefore(nullKey.value, e.key) {
        FlowIsSorted(None, rest);
        FlowFrom(rest, Position(nullKey.value));
        SortedCons(nullKey.value, Flow(None, rest));
      } else {
        LaterEntries(rest);
        if IsNullEntry(e) {
          NullEvent(e);
          FlowIsSorted(Some(EventOf(e)), tail);
        } else {
          EntryPosition(e);
          FlowIsSorted(nullKey, tail);
          var flow := Flow(nullKey, tail);
          forall v | v in flow
            ensures Lt(e.key, Position(v))
          {
            if nullKey == Some(v) {
              StrictTotalOrder(e.key, Position(v), e.key);
            } else {
              var d :| d in tail && EventOf(d) == v;
              EventIsLater(d);
              Transitive(e.key, d.key, Position(v));
            }
          }
          SortedCons(EventOf(e), flow);
        }
      }
    }
  }

  lemma SortedCons(v: Event, events: seq<Event>)
    requires SortedEvents(events) && forall e :: e in events ==> Lt(Position(v), Position(e))
    ensures SortedEvents([v] + events)
  {
    hide Lt;
    hide Position;
  }

  lemma NullEvent(e: Entry)
    requires IsNullEntry(e)
    ensures EventOf(e).key + [0] == e.key && !IsVersionKey(EventOf(e).key)
    ensures EventOf(e).versionId == e.value.versionId
  {
    EntryPosition(e);
    var v := EventOf(e).(versionId := Some([]));
    assert v.key + [VID_SEP] + [] == v.key + [0];
  }

  lemma LaterEntries(rest: seq<Entry>)
    requires SortedEntries(rest) && rest != []
    ensures SortedEntries(rest[1..])
    ensures forall d :: d in rest[1..] ==> Lt(rest[0].key, d.key)
  {
    hide Lt;
  }

  /** With a bound before the first entry, every event comes after it. */
  lemma FlowFrom(rest: seq<Entry>, bound: Str)
    requires SortedEntries(rest) && rest != [] && Lt(bound, rest[0].key)
    requires forall e :: e in rest && IsNullEntry(e) ==> NullIsApart(e, rest)
    requires forall v :: v in Flow(None, rest) ==> exists e :: e in rest && EventOf(e) == v
    ensures forall v :: v in Flow(None, rest) ==> Lt(bound, Position(v))
  {
    hide Lt;
    hide EventOf;
    hide Flow;
    hide Position;
    hide IsNullEntry;
    LaterEntries(rest);
    forall v | v in Flow(None, rest)
      ensures Lt(bound, Position(v))
    {
      var e :| e in rest && EventOf(e) == v;
      EventIsLater(e);
      Transitive(bound, rest[0].key, e.key);
      Transitive(bound, e.key, Position(v));
    }
  }

  lemma BucketFlow(b: seq<Entry>)
    requires IsBucket(b)
    ensures SortedEvents(Flow(None, b)) && AreVersions(Flow(None, b))
    ensures forall v :: v in Flow(None, b) <==> exists e :: e in b && EventOf(e) == v
  {
    hide Lt;
    hide Flow;
    hide MasterIsNewest;
    FlowIsSorted(None, b);
  }

  // ---------------------------------------------------------------------------
  // The order of items

  function ItemKey(item: Item): Str {
    if item.VersionItem? then item.key else item.prefix
  }

  /** Items are ordered by key, then by version id. */
  predicate Precedes(a: Item, b: Item) {
    || Lt(ItemKey(a), ItemKey(b))
    || (a.VersionItem? && b.VersionItem? && a.key == b.key && Lt(a.versionId, b.versionId))
  }

  ghost predicate SortedItems(items: seq<Item>) {
    forall i, j :: 0 <= i < j < |items| ==> Precedes(items[i], items[j])
  }

  /** Internal replay keys and placeholders are not listed. */
  predicate IsListable(e: Event) {
    !StartsWith(e.key, REPLAY_PREFIX) && !e.value.isPHD
  }

  lemma {:induction false} ItemsOfConcat(a: seq<Step>, b: seq<Step>)
    ensures Items(a + b) == Items(a) + Items(b)
  {
    if b == [] {
      assert a + b == a;
    } else {
      var n := |b| - 1;
      ItemsOfConcat(a, b[..n]);
      assert (a + b)[..|a+b|-1] == a + b[..n];
    }
  }

  lemma ItemsCons(s: Step, steps: seq<Step>)
    ensures Items([s] + steps) == (if s.Listed? then [s.item] else []) + Items(steps)
  {
    ItemsOfConcat([s], steps);
    assert [s][..0] == [];
    assert Items([s]) == Items([]) + (if s.Listed? then [s.item] else []);
  }

  lemma {:induction false} DropIsSuffix(events: seq<Event>, s: Skipping)
    ensures var n := |events| - |Drop(events, s)|;
            && Drop(events, s) == events[n..]
            && (forall i :: 0 <= i < n ==> Skips(s, events[i]))
            && (n < |events| ==> !Skips(s, events[n]))
  {
    hide Skips;
    if events != [] && Skips(s, events[0]) {
      DropIsSuffix(events[1..], s);
    }
  }

  lemma SuffixIsSorted(events: seq<Event>, n: nat)
    requires SortedEvents(events) && AreVersions(events) && n <= |events|
    ensures SortedEvents(events[n..]) && AreVersions(events[n..])
  {
    hide Lt;
    hide Position;
    hide MasterIsNewest;
    hide IsVersionKey;
    assert forall e :: e in events[n..] ==> e in events;
  }

  /** After an event under a prefix, exactly the events under it are dropped. */
  lemma DropUnder(events: seq<Event>, p: Str)
    requires events != [] && SortedEvents(events) && AreVersions(events) && StartsWith(events[0].key, p)
    ensures var rest := Drop(events[1..], Under(p));
            && SortedEvents(rest) && AreVersions(rest)
            && forall e :: e in rest <==> e in events && !StartsWith(e.key, p)
  {
    hide Lt;
    hide Position;
    hide StartsWith;
    hide MasterIsNewest;
    hide IsVersionKey;
    hide SortedEvents;
    hide AreVersions;
    var rest := Drop(events[1..], Under(p));
    DropIsSuffix(events[1..], Under(p));
    hide Drop;
    var n := |events| - |rest|;
    assert rest == events[n..];
    SuffixIsSorted(events, n);
    forall i | 0 <= i < |events|
      ensures StartsWith(events[i].key, p) <==> i < n
    {
      if 0 < i < n {
        assert Skips(Under(p), events[1..][i-1]);
      } else if n <= i && StartsWith(events[i].key, p) {
        assert !StartsWith(events[n].key, p);
        KeysAscend(events, 0, n);
        KeysAscend(events, n, i);
        StartsWithBetween(events[0].key, events[n].key, events[i].key, p);
      }
    }
    SuffixIsRest(events, n, p);
  }

  lemma SuffixIsRest(events: seq<Event>, n: nat, p: Str)
    requires n <= |events| && forall i :: 0 <= i < |events| ==> (StartsWith(events[i].key, p) <==> i < n)
    ensures forall e :: e in events[n..] <==> e in events && !StartsWith(e.key, p)
  {
    hide StartsWith;
    forall e | e in events && !StartsWith(e.key, p)
      ensures e in events[n..]
    {
      var i :| 0 <= i < |events| && events[i] == e;
      assert events[n..][i-n] == e;
    }
  }

  lemma KeysAscend(events: seq<Event>, i: nat, j: nat)
    requires SortedEvents(events) && AreVersions(events) && i <= j < |events|
    ensures Le(events[i].key, events[j].key)
  {
    hide Lt;
    hide Position;
    hide MasterIsNewest;
    StrictTotalOrder(events[i].key, events[i].key, events[i].key);
    if i < j {
      assert events[i] in events && events[j] in events;
      PositionOrder(events[i], events[j]);
      Transitive(events[i].key, events[j].key, events[j].key);
    }
  }

  /** Past its master entry, the versions of a key up to a marker come first. */
  lemma DropUpTo(events: seq<Event>, k: Str, v: Str)
    requires SortedEvents(events) && AreVersions(events) && !IsVersionKey(k)
    requires forall e :: e in events ==> Lt(k, Position(e))
    ensures var rest := Drop(events, UpTo(k, v));
            && SortedEvents(rest) && AreVersions(rest)
            && forall e :: e in rest <==> e in events && !Skips(UpTo(k, v), e)
  {
    hide Lt;
    hide Position;
    hide MasterIsNewest;
    hide IsVersionKey;
    hide SortedEvents;
    hide AreVersions;
    var s := UpTo(k, v);
    var rest := Drop(events, s);
    DropIsSuffix(events, s);
    hide Drop;
    var n := |events| - |rest|;
    assert rest == events[n..];
    SuffixIsSorted(events, n);
    forall i | n <= i < |events|
      ensures !Skips(s, events[i])
    {
      NotSkippedLater(events, k, v, n, i);
    }
    hide Skips;
    forall e | e in events && !Skips(s, e)
      ensures e in events[n..]
    {
      var i :| 0 <= i < |events| && events[i] == e;
      assert events[n..][i-n] == e;
    }
    forall e | e in rest
      ensures e in events && !Skips(s, e)
    {
      var i :| 0 <= i < |rest| && rest[i] == e;
      assert events[n+i] == e;
    }
  }

  lemma NotSkippedLater(events: seq<Event>, k: Str, v: Str, n: nat, i: nat)
    requires SortedEvents(events) && AreVersions(events) && !IsVersionKey(k)
    requires forall e :: e in events ==> Lt(k, Position(e))
    requires n <= i < |events| && !Skips(UpTo(k, v), events[n])
    ensures !Skips(UpTo(k, v), events[i])
  {
    hide Lt;
    hide MasterIsNewest;
    if n < i && Skips(UpTo(k, v), events[i]) {
      var a, b := events[n], events[i];
      assert a in events && b in events;
      KeyIsNotBefore(a, k);
      PositionOrder(a, b);
      Transitive(k, a.key, b.key);
      StrictTotalOrder(k, k, k);
      assert a.key == k && a.versionId.Some?;
      Transitive(a.versionId.value, b.versionId.value, v);
    }
  }

  /** What comes after a master entry is a version of it or of a later object. */
  lemma KeyIsNotBefore(a: Event, k: Str)
    requires !IsVersionKey(a.key) && !IsVersionKey(k) && Lt(k, Position(a))
    ensures Lt(k, a.key) || (a.key == k && a.versionId.Some?)
  {
    hide Lt;
    PositionOrder(Event(k, None, a.value), a);
  }

  /** Of two listed versions, the earlier one has the earlier item or shares it. */
  lemma ItemsAscend(a: Event, b: Event, scope: Scope)
    requires !IsVersionKey(a.key) && !IsVersionKey(b.key) && Lt(Position(a), Position(b))
    requires MasterIsNewest(a, b) && !a.value.isPHD
    ensures ItemOf(a, scope).CommonPrefix? && StartsWith(b.key, ItemOf(a, scope).prefix) ==>
              ItemOf(b, scope) == ItemOf(a, scope)
    ensures ItemOf(a, scope).CommonPrefix? && !StartsWith(b.key, ItemOf(a, scope).prefix) ==>
              Precedes(ItemOf(a, scope), ItemOf(b, scope))
    ensures ItemOf(a, scope).VersionItem? && !IsAgain(b, NextMaster(a, None)) ==>
              Precedes(ItemOf(a, scope), ItemOf(b, scope))
    ensures IsAgain(b, NextMaster(a, None)) ==> ItemOf(b, scope) == ItemOf(a, scope)
  {
    hide Lt;
    hide CommonPrefixOf;
    hide StartsWith;
    PositionOrder(a, b);
    var zero := MasterListing.Value(false, false, 0);
    if Lt(a.key, b.key) {
      StrictTotalOrder(a.key, b.key, a.key);
      MasterListing.ItemsAscend(MasterListing.Object(a.key, zero), MasterListing.Object(b.key, zero), scope);
    } else {
      if ItemOf(a, scope).CommonPrefix? {
        CommonPrefixStarts(a.key, scope.prefix, scope.delimiter);
      }
      Transitive(IdOf(a), b.versionId.value, b.versionId.value);
    }
  }

  ghost predicate IsAfterMaster(events: seq<Event>, master: Master) {
    master.Some? ==>
      !IsVersionKey(master.value.0) && forall e :: e in events ==> Lt(master.value.0, Position(e))
  }

  /** An event later than another object's is no second copy of it. */
  lemma NotAgain(a: Event, b: Event, master: Master)
    requires !IsVersionKey(a.key) && !IsVersionKey(b.key) && Lt(Position(a), Position(b))
    requires a.versionId.None? && master.Some? && !IsVersionKey(master.value.0)
    requires Lt(master.value.0, Position(a))
    ensures !IsAgain(b, master)
  {
    hide Lt;
    PositionOrder(a, b);
    Transitive(master.value.0, a.key, b.key);
    StrictTotalOrder(b.key, b.key, b.key);
    Transitive(a.key, b.key, b.key);
    StrictTotalOrder(a.key, a.key, a.key);
  }

  /** What is left to list after the first event, and what its step is. */
  ghost predicate IsItemOf(item: Item, events: seq<Event>, master: Master, scope: Scope) {
    exists e :: e in events && IsListable(e) && !IsAgain(e, master) && ItemOf(e, scope) == item
  }

  /**
    The items of a listing in two facts: they are in strictly ascending order of key and
    version id, and they are those of the versions listed, each version once although the
    one of the master entry is stored twice.
   */
  lemma {:induction false} StepsAreDistinct(events: seq<Event>, master: Master, scope: Scope)
    requires SortedEvents(events) && AreVersions(events) && IsAfterMaster(events, master)
    ensures SortedItems(Items(Steps(events, master, scope)))
    ensures forall item :: item in Items(Steps(events, master, scope)) <==> IsItemOf(item, events, master, scope)
    decreases |events|
  {
    hide Lt;
    hide Position;
    hide StartsWith;
    hide IsVersionKey;
    hide MasterIsNewest;
    hide CommonPrefixOf;
    hide Precedes;
    if events != [] {
      var e, rest := events[0], events[1..];
      HeadIsFirst(events);
      SuffixIsSorted(events, 1);
      if StartsWith(e.key, REPLAY_PREFIX) {
        DropUnder(events, REPLAY_PREFIX);
        StepsAreDistinct(Drop(rest, Under(REPLAY_PREFIX)), master, scope);
      } else if e.value.isPHD {
        StepsAreDistinct(rest, master, scope);
      } else if IsAgain(e, master) {
        StepsAreDistinct(rest, master, scope);
        ItemsCons(Again, Steps(rest, master, scope));
      } else {
        ListedStep(events, master, scope);
      }
    }
  }

  lemma HeadIsFirst(events: seq<Event>)
    requires SortedEvents(events) && events != []
    ensures forall e :: e in events ==> e == events[0] || (e in events[1..] && Lt(Position(events[0]), Position(e)))
    ensures forall e :: e in events[1..] ==> e in events
  {
    hide Lt;
    hide Position;
    forall e | e in events && e != events[0]
      ensures e in events[1..] && Lt(Position(events[0]), Position(e))
    {
      var i :| 0 <= i < |events| && events[i] == e;
      assert events[1..][i-1] == e;
    }
  }

  lemma {:induction false} ListedStep(events: seq<Event>, master: Master, scope: Scope)
    requires SortedEvents(events) && AreVersions(events) && IsAfterMaster(events, master)
    requires events != [] && IsListable(events[0]) && !IsAgain(events[0], master)
    ensures SortedItems(Items(Steps(events, master, scope)))
    ensures forall item :: item in Items(Steps(events, master, scope)) <==> IsItemOf(item, events, master, scope)
    decreases |events|, 0
  {
    hide Lt;
    hide Position;
    hide StartsWith;
    hide IsVersionKey;
    hide MasterIsNewest;
    hide ItemOf;
    hide Precedes;
    var e, item := events[0], ItemOf(events[0], scope);
    var rest, next := Drop(events[1..], SkippingAfter(item)), NextMaster(e, master);
    HeadIsFirst(events);
    RestIs(events, scope);
    assert e in events;
    assert IsAfterMaster(rest, next) by {
      PositionOfMaster(e);
    }
    StepsAreDistinct(rest, next, scope);
    var tail := Items(Steps(rest, next, scope));
    ItemsCons(Listed(item), Steps(rest, next, scope));
    forall t | t in tail
      ensures Precedes(item, t) && IsItemOf(t, events, master, scope)
    {
      var v :| v in rest && IsListable(v) && !IsAgain(v, next) && ItemOf(v, scope) == t;
      ItemsAscend(e, v, scope);
      RestStarts(events, scope, v);
      if e.versionId.None? && master.Some? {
        NotAgain(e, v, master);
      }
    }
    forall v | v in events && IsListable(v) && !IsAgain(v, master)
      ensures ItemOf(v, scope) == item || ItemOf(v, scope) in tail
    {
      if v != e {
        ItemsAscend(e, v, scope);
        RestStarts(events, scope, v);
        assert v in rest && !IsAgain(v, next) ==> IsItemOf(ItemOf(v, scope), rest, next, scope);
      }
    }
    SortedItemCons(item, tail);
    assert Items(Steps(events, master, scope)) == [item] + tail;
  }

  lemma PositionOfMaster(e: Event)
    ensures e.versionId.None? ==> Position(e) == e.key
  {
  }

  lemma SortedItemCons(item: Item, tail: seq<Item>)
    requires SortedItems(tail) && forall t :: t in tail ==> Precedes(item, t)
    ensures SortedItems([item] + tail)
  {
    hide Precedes;
  }

  /** What is left after the first event if it is listed. */
  lemma RestIs(events: seq<Event>, scope: Scope)
    requires SortedEvents(events) && AreVersions(events) && events != []
    ensures var rest := Drop(events[1..], SkippingAfter(ItemOf(events[0], scope)));
            && SortedEvents(rest) && AreVersions(rest)
            && forall v :: v in rest ==> v in events && v != events[0] && Lt(Position(events[0]), Position(v))
  {
    hide Lt;
    hide Position;
    hide StartsWith;
    hide IsVersionKey;
    hide MasterIsNewest;
    hide CommonPrefixOf;
    var e := events[0];
    HeadIsFirst(events);
    SuffixIsSorted(events, 1);
    forall v | v in events[1..]
      ensures v != e && Lt(Position(e), Position(v))
    {
      var i :| 0 <= i < |events[1..]| && events[1..][i] == v;
      assert Lt(Position(events[0]), Position(events[i+1]));
      StrictTotalOrder(Position(e), Position(e), Position(e));
    }
    if ItemOf(e, scope).CommonPrefix? {
      CommonPrefixStarts(e.key, scope.prefix, scope.delimiter);
      DropUnder(events, ItemOf(e, scope).prefix);
      DropIsSuffix(events[1..], SkippingAfter(ItemOf(e, scope)));
    }
  }

  lemma RestStarts(events: seq<Event>, scope: Scope, v: Event)
    requires SortedEvents(events) && AreVersions(events) && events != [] && v in events && v != events[0]
    ensures var item := ItemOf(events[0], scope);
            v in Drop(events[1..], SkippingAfter(item)) <==> !(item.CommonPrefix? && StartsWith(v.key, item.prefix))
  {
    hide Lt;
    hide Position;
    hide StartsWith;
    hide IsVersionKey;
    hide MasterIsNewest;
    hide CommonPrefixOf;
    HeadIsFirst(events);
    if ItemOf(events[0], scope).CommonPrefix? {
      CommonPrefixStarts(events[0].key, scope.prefix, scope.delimiter);
      DropUnder(events, ItemOf(events[0], scope).prefix);
    }
  }

  // ---------------------------------------------------------------------------
  // What is returned

  ghost predicate IsReturned(r: ListingResult, item: Item) {
    match item
    case VersionItem(_, _, _) => item in r.versions
    case CommonPrefix(p) => p in r.commonPrefixes
  }

  ghost predicate AscendingPrefixes(prefixes: seq<Str>) {
    forall i, j :: 0 <= i < j < |prefixes| ==> Lt(prefixes[i], prefixes[j])
  }

  /** A page of some items: the first ones, each once and in order, as many as it has room for;
      whether there are more, or the page is full and `again` a second copy comes last; and
      from where to go on. */
  ghost predicate IsPage(r: ListingResult, all: iset<Item>, again: bool, maxKeys: int) {
    && SortedItems(r.versions) && (forall item :: item in r.versions ==> item.VersionItem?)
    && AscendingPrefixes(r.commonPrefixes)
    && (forall item :: IsReturned(r, item) ==> item in all)
    && (forall a, c :: a in all && IsReturned(r, c) && Precedes(a, c) ==> IsReturned(r, a))
    && |r.versions| + |r.commonPrefixes| <= (if maxKeys > 0 then maxKeys else 0)
    && (r.isTruncated <==>
          && maxKeys > 0
          && ((exists item :: item in all && !IsReturned(r, item))
              || (again && |r.versions| + |r.commonPrefixes| == maxKeys)))
    && (r.isTruncated ==> |r.versions| + |r.commonPrefixes| == maxKeys && exists last :: IsNext(r, last))
    && (!r.isTruncated ==> r.nextKeyMarker == None && r.nextVersionIdMarker == None)
  }

  /** The markers to go on from are those of the last item. */
  ghost predicate IsNext(r: ListingResult, last: Item) {
    && IsReturned(r, last) && (forall item :: IsReturned(r, item) ==> item == last || Precedes(item, last))
    && r.nextKeyMarker == Some(ItemKey(last))
    && r.nextVersionIdMarker == (if last.VersionItem? && last.versionId != [] then Some(last.versionId) else None)
  }

  /** The versions and the common prefixes that are returned are the items, each one once. */
  lemma {:induction false} ReturnedItems(items: seq<Item>)
    ensures forall item :: item in VersionsIn(items) <==> item in items && item.VersionItem?
    ensures forall p :: p in PrefixesIn(items) <==> CommonPrefix(p) in items
    ensures |VersionsIn(items)| + |PrefixesIn(items)| == |items|
  {
    if items != [] {
      var n := |items| - 1;
      ReturnedItems(items[..n]);
      assert items == items[..n] + [items[n]];
    }
  }

  lemma SortedItemsAppend(items: seq<Item>, last: Item)
    requires SortedItems(items) && forall item :: item in items ==> Precedes(item, last)
    ensures SortedItems(items + [last])
  {
    hide Precedes;
  }

  lemma AscendingAppend(prefixes: seq<Str>, last: Str)
    requires AscendingPrefixes(prefixes) && forall p :: p in prefixes ==> Lt(p, last)
    ensures AscendingPrefixes(prefixes + [last])
  {
    hide Lt;
  }

  /** Both come in ascending order. */
  lemma {:induction false} ReturnedInOrder(items: seq<Item>)
    requires SortedItems(items)
    ensures SortedItems(VersionsIn(items)) && AscendingPrefixes(PrefixesIn(items))
  {
    hide Lt;
    hide SortedItems;
    hide AscendingPrefixes;
    hide Precedes;
    if items == [] {
      NothingToOrder();
    } else {
      var n := |items| - 1;
      var before, last := items[..n], items[n];
      LastOfSorted(items);
      ReturnedInOrder(before);
      ReturnedItems(before);
      if last.VersionItem? {
        SortedItemsAppend(VersionsIn(before), last);
      } else {
        forall p | p in PrefixesIn(before)
          ensures Lt(p, last.prefix)
        {
          PrecedesPrefix(CommonPrefix(p), last);
        }
        AscendingAppend(PrefixesIn(before), last.prefix);
      }
      assert VersionsIn(before) + [] == VersionsIn(before) && PrefixesIn(before) + [] == PrefixesIn(before);
    }
  }

  lemma NothingToOrder()
    ensures SortedItems([]) && AscendingPrefixes([])
  {
  }

  lemma PrecedesPrefix(a: Item, b: Item)
    requires b.CommonPrefix? && Precedes(a, b)
    ensures Lt(ItemKey(a), b.prefix)
  {
  }

  lemma LastOfSorted(items: seq<Item>)
    requires SortedItems(items) && items != []
    ensures var before, last := items[..|items|-1], items[|items|-1];
            SortedItems(before) && forall item :: item in before ==> Precedes(item, last)
  {
    hide Precedes;
  }

  /** The items returned for a page are its items. */
  lemma ReturnedIsPage(steps: seq<Step>, maxKeys: int, key: Str)
    ensures var r, page := PageResult(steps, maxKeys, Marker(key, [])), Page(Items(steps), maxKeys);
            && (forall item :: IsReturned(r, item) <==> item in page)
            && (forall item :: item in r.versions ==> item.VersionItem?)
            && |r.versions| + |r.commonPrefixes| == |page|
  {
    hide VersionsIn;
    hide PrefixesIn;
    hide Items;
    hide Page;
    hide IsTruncated;
    ReturnedItems(Page(Items(steps), maxKeys));
  }

  lemma PageIsFirst(items: seq<Item>, maxKeys: int)
    requires SortedItems(items)
    ensures var page := Page(items, maxKeys);
            && SortedItems(page)
            && (forall item :: item in page ==> item in items)
            && (forall a, c :: a in items && c in page && Precedes(a, c) ==> a in page)
            && (maxKeys <= 0 ==> page == [])
            && (0 < maxKeys < |items| ==> exists item :: item in items && item !in page)
            && (0 < maxKeys < |items| ==> |page| == maxKeys)
            && (0 <= |items| <= maxKeys ==> page == items)
  {
    hide Precedes;
    var page := Page(items, maxKeys);
    forall a, c | a in items && c in page && Precedes(a, c)
      ensures a in page
    {
      var i :| 0 <= i < |items| && items[i] == a;
      var j :| 0 <= j < |page| && page[j] == c;
      assert items[j] == c;
      Asymmetric(a, c);
      assert i < |page| && page[i] == a;
    }
    if 0 < maxKeys < |items| {
      LeftOver(items, page, maxKeys);
      assert items[maxKeys] in items;
    }
  }

  lemma NextIsLast(steps: seq<Step>, maxKeys: int, key: Str)
    requires SortedItems(Items(steps)) && IsTruncated(steps, maxKeys)
    ensures exists last :: IsNext(PageResult(steps, maxKeys, Marker(key, [])), last)
  {
    hide VersionsIn;
    hide PrefixesIn;
    hide Items;
    hide Precedes;
    hide IsReturned;
    var r, page := PageResult(steps, maxKeys, Marker(key, [])), Page(Items(steps), maxKeys);
    ReturnedIsPage(steps, maxKeys, key);
    PageIsFirst(Items(steps), maxKeys);
    assert IsNext(r, page[|page|-1]);
  }

  /** A page of sorted items is what it should be. */
  lemma PageIsRight(steps: seq<Step>, all: iset<Item>, again: bool, maxKeys: int, key: Str)
    requires SortedItems(Items(steps)) && forall item :: item in Items(steps) <==> item in all
    requires again <==> steps != [] && steps[|steps|-1].Again?
    ensures IsPage(PageResult(steps, maxKeys, Marker(key, [])), all, again, maxKeys)
  {
    hide Lt;
    hide VersionsIn;
    hide PrefixesIn;
    hide Items;
    hide Precedes;
    hide Page;
    hide IsReturned;
    hide IsNext;
    hide SortedItems;
    hide AscendingPrefixes;
    var items := Items(steps);
    var page, r := Page(items, maxKeys), PageResult(steps, maxKeys, Marker(key, []));
    ReturnedIsPage(steps, maxKeys, key);
    PageIsFirst(items, maxKeys);
    ReturnedInOrder(page);
    if r.isTruncated {
      NextIsLast(steps, maxKeys, key);
    }
  }

  lemma LeftOver(items: seq<Item>, page: seq<Item>, n: nat)
    requires SortedItems(items) && n < |items| && page == items[..n]
    ensures items[n] !in page
  {
    hide Precedes;
    if items[n] in page {
      var j :| 0 <= j < |page| && page[j] == items[n];
      Asymmetric(items[j], items[n]);
    }
  }

  lemma Asymmetric(a: Item, b: Item)
    ensures !(Precedes(a, b) && Precedes(b, a))
  {
    hide Lt;
    StrictTotalOrder(ItemKey(a), ItemKey(b), ItemKey(a));
    StrictTotalOrder(ItemKey(a), ItemKey(a), ItemKey(a));
    if a.VersionItem? && b.VersionItem? {
      StrictTotalOrder(a.versionId, b.versionId, a.versionId);
    }
  }

  // ---------------------------------------------------------------------------
  // How a listing ends

  /** The last of the events that are listed at all. */
  ghost predicate IsLastListable(e: Event, events: seq<Event>) {
    && e in events && IsListable(e)
    && forall d :: d in events && IsListable(d) ==> d == e || Lt(Position(d), Position(e))
  }

  /** The version that a master entry holds, stored under its own id. */
  ghost predicate IsSecondCopy(e: Event, events: seq<Event>, master: Master) {
    && e.versionId.Some?
    && (IsAgain(e, master)
        || exists m :: m in events && m.versionId.None? && IsListable(m)
                       && m.key == e.key && IdOf(m) == e.versionId.value)
  }

  ghost predicate EndsWithCopy(events: seq<Event>, master: Master, scope: Scope) {
    exists e :: IsLastListable(e, events) && IsSecondCopy(e, events, master)
                && CommonPrefixOf(e.key, scope.prefix, scope.delimiter) == None
  }

  /** A version that is met a second time is not grouped. */
  ghost predicate CopiesAreContents(events: seq<Event>, master: Master, scope: Scope) {
    forall e :: e in events && IsAgain(e, master) ==> CommonPrefixOf(e.key, scope.prefix, scope.delimiter) == None
  }

  /** There are no steps exactly when there is nothing to list. */
  lemma {:induction false} NoSteps(events: seq<Event>, master: Master, scope: Scope)
    requires SortedEvents(events) && AreVersions(events)
    ensures Steps(events, master, scope) == [] <==> forall e :: e in events ==> !IsListable(e)
    decreases |events|
  {
    hide Lt;
    hide Position;
    hide StartsWith;
    hide IsVersionKey;
    hide MasterIsNewest;
    hide ItemOf;
    if events != [] {
      var e, rest := events[0], events[1..];
      HeadIsFirst(events);
      SuffixIsSorted(events, 1);
      if StartsWith(e.key, REPLAY_PREFIX) {
        DropUnder(events, REPLAY_PREFIX);
        NoSteps(Drop(rest, Under(REPLAY_PREFIX)), master, scope);
      } else if e.value.isPHD {
        NoSteps(rest, master, scope);
      } else {
        assert e in events;
      }
    }
  }

  /** Leaving out an event that is not listed changes nothing about the end. */
  lemma SameEnd(events: seq<Event>, rest: seq<Event>, master: Master, scope: Scope)
    requires forall e :: IsListable(e) ==> (e in events <==> e in rest)
    ensures EndsWithCopy(events, master, scope) <==> EndsWithCopy(rest, master, scope)
  {
    hide Lt;
    hide Position;
    hide IsListable;
    hide IdOf;
    forall e
      ensures IsLastListable(e, events) <==> IsLastListable(e, rest)
      ensures IsListable(e) ==> (IsSecondCopy(e, events, master) <==> IsSecondCopy(e, rest, master))
    {
    }
  }

  /** A listing ends with a second copy exactly when the last version to list is one. */
  lemma {:induction false} LastIsAgain(events: seq<Event>, master: Master, scope: Scope)
    requires SortedEvents(events) && AreVersions(events) && IsAfterMaster(events, master)
    requires CopiesAreContents(events, master, scope)
    ensures var steps := Steps(events, master, scope);
            (steps != [] && steps[|steps|-1].Again?) <==> EndsWithCopy(events, master, scope)
    decreases |events|, 1
  {
    hide Lt;
    hide Position;
    hide StartsWith;
    hide IsVersionKey;
    hide MasterIsNewest;
    hide CommonPrefixOf;
    hide EndsWithCopy;
    if events == [] {
      NothingEnds(master, scope);
    } else {
      var e, rest := events[0], events[1..];
      HeadIsFirst(events);
      SuffixIsSorted(events, 1);
      if StartsWith(e.key, REPLAY_PREFIX) {
        DropUnder(events, REPLAY_PREFIX);
        LastIsAgain(Drop(rest, Under(REPLAY_PREFIX)), master, scope);
        SameEnd(events, Drop(rest, Under(REPLAY_PREFIX)), master, scope);
      } else if e.value.isPHD {
        LastIsAgain(rest, master, scope);
        SameEnd(events, rest, master, scope);
      } else if IsAgain(e, master) {
        AgainStep(events, master, scope);
      } else {
        ListedEnd(events, master, scope);
      }
    }
  }

  lemma NothingEnds(master: Master, scope: Scope)
    ensures !EndsWithCopy([], master, scope)
  {
  }

  /** What the end is when the first event is met again. */
  lemma {:induction false} AgainStep(events: seq<Event>, master: Master, scope: Scope)
    requires SortedEvents(events) && AreVersions(events) && IsAfterMaster(events, master)
    requires CopiesAreContents(events, master, scope)
    requires events != [] && IsListable(events[0]) && IsAgain(events[0], master)
    ensures var steps := Steps(events, master, scope);
            (steps != [] && steps[|steps|-1].Again?) <==> EndsWithCopy(events, master, scope)
    decreases |events|, 0
  {
    hide Lt;
    hide Position;
    hide StartsWith;
    hide IsVersionKey;
    hide MasterIsNewest;
    hide CommonPrefixOf;
    hide IsListable;
    hide EndsWithCopy;
    var rest := events[1..];
    SuffixIsSorted(events, 1);
    NoSteps(rest, master, scope);
    LastIsAgain(rest, master, scope);
    FirstStep(events, master, scope);
    AgainEnd(events, master, scope);
  }

  lemma AgainEnd(events: seq<Event>, master: Master, scope: Scope)
    requires SortedEvents(events) && CopiesAreContents(events, master, scope)
    requires events != [] && IsListable(events[0]) && IsAgain(events[0], master)
    ensures EndsWithCopy(events, master, scope)
       <==> EndsWithCopy(events[1..], master, scope) || forall e :: e in events[1..] ==> !IsListable(e)
  {
    hide Lt;
    hide Position;
    hide CommonPrefixOf;
    hide IsListable;
    hide IsSecondCopy;
    hide IsAgain;
    var e, rest := events[0], events[1..];
    HeadIsFirst(events);
    AgainInRest(events, e, master);
    assert e in events;
    if forall d :: d in rest ==> !IsListable(d) {
      assert IsLastListable(e, events);
    } else {
      forall d
        ensures IsLastListable(d, events) <==> IsLastListable(d, rest)
        ensures IsSecondCopy(d, events, master) <==> IsSecondCopy(d, rest, master)
      {
        LastInRest(events, rest, d);
        AgainInRest(events, d, master);
      }
    }
  }

  lemma AgainInRest(events: seq<Event>, d: Event, master: Master)
    requires events != [] && IsAgain(events[0], master)
    ensures IsSecondCopy(events[0], events, master)
    ensures IsSecondCopy(d, events, master) <==> IsSecondCopy(d, events[1..], master)
  {
    hide IsListable;
    hide IdOf;
  }

  /** With something left to list, the last of it is the last of all. */
  lemma LastInRest(events: seq<Event>, rest: seq<Event>, d: Event)
    requires forall v :: v in rest ==> v in events
    requires forall u, v :: u in events && u !in rest && v in rest ==> Lt(Position(u), Position(v))
    requires exists v :: v in rest && IsListable(v)
    ensures IsLastListable(d, events) <==> IsLastListable(d, rest)
  {
    hide Lt;
    hide Position;
    hide IsListable;
    var v :| v in rest && IsListable(v);
    if IsLastListable(d, events) && d !in rest {
      StrictTotalOrder(Position(d), Position(v), Position(d));
    }
  }

  /** The first step, of an event that is listed or met again. */
  lemma FirstStep(events: seq<Event>, master: Master, scope: Scope)
    requires events != [] && IsListable(events[0])
    ensures var e, item := events[0], ItemOf(events[0], scope);
            Steps(events, master, scope)
            == if IsAgain(e, master) then [Again] + Steps(events[1..], master, scope)
               else [Listed(item)] + Steps(Drop(events[1..], SkippingAfter(item)), NextMaster(e, master), scope)
  {
  }

  lemma {:induction false} ListedEnd(events: seq<Event>, master: Master, scope: Scope)
    requires SortedEvents(events) && AreVersions(events) && IsAfterMaster(events, master)
    requires CopiesAreContents(events, master, scope)
    requires events != [] && IsListable(events[0]) && !IsAgain(events[0], master)
    ensures var steps := Steps(events, master, scope);
            (steps != [] && steps[|steps|-1].Again?) <==> EndsWithCopy(events, master, scope)
    decreases |events|, 0
  {
    hide Lt;
    hide Position;
    hide StartsWith;
    hide IsVersionKey;
    hide MasterIsNewest;
    hide CommonPrefixOf;
    hide IsListable;
    hide IsLastListable;
    hide IsSecondCopy;
    hide Drop;
    var e, item := events[0], ItemOf(events[0], scope);
    var rest, next := Drop(events[1..], SkippingAfter(item)), NextMaster(e, master);
    HeadIsFirst(events);
    RestIs(events, scope);
    assert e in events;
    assert IsAfterMaster(rest, next) by {
      PositionOfMaster(e);
    }
    NextCopiesAreContents(events, master, scope);
    NoSteps(rest, next, scope);
    LastIsAgain(rest, next, scope);
    FirstStep(events, master, scope);
    if Steps(rest, next, scope) == [] {
      NoCopyAtEnd(events, master, scope);
    } else {
      EndOfRest(events, master, scope);
    }
  }

  /** After the first event is listed, what is met again is still not grouped. */
  lemma NextCopiesAreContents(events: seq<Event>, master: Master, scope: Scope)
    requires SortedEvents(events) && AreVersions(events) && events != []
    requires CopiesAreContents(events, master, scope)
    ensures var item := ItemOf(events[0], scope);
            CopiesAreContents(Drop(events[1..], SkippingAfter(item)), NextMaster(events[0], master), scope)
  {
    hide Lt;
    hide Position;
    hide StartsWith;
    hide IsVersionKey;
    hide MasterIsNewest;
    hide CommonPrefixOf;
    var e, item := events[0], ItemOf(events[0], scope);
    RestIs(events, scope);
    var rest := Drop(events[1..], SkippingAfter(item));
    forall v | v in rest && IsAgain(v, NextMaster(e, master))
      ensures CommonPrefixOf(v.key, scope.prefix, scope.delimiter) == None
    {
      RestStarts(events, scope, v);
      if item.CommonPrefix? {
        CommonPrefixStarts(e.key, scope.prefix, scope.delimiter);
      }
    }
  }

  /** When the first event is all there is to list but what is grouped with it, the end is no
      second copy. */
  lemma NoCopyAtEnd(events: seq<Event>, master: Master, scope: Scope)
    requires SortedEvents(events) && AreVersions(events) && events != []
    requires IsListable(events[0]) && !IsAgain(events[0], master) && CopiesAreContents(events, master, scope)
    requires forall v :: v in Drop(events[1..], SkippingAfter(ItemOf(events[0], scope))) ==> !IsListable(v)
    ensures !EndsWithCopy(events, master, scope)
  {
    hide Lt;
    hide Position;
    hide StartsWith;
    hide IsVersionKey;
    hide MasterIsNewest;
    hide CommonPrefixOf;
    hide IsListable;
    var e, item := events[0], ItemOf(events[0], scope);
    HeadIsFirst(events);
    if EndsWithCopy(events, master, scope) {
      var v :| IsLastListable(v, events) && IsSecondCopy(v, events, master)
               && CommonPrefixOf(v.key, scope.prefix, scope.delimiter) == None;
      if v != e {
        RestStarts(events, scope, v);
        CommonPrefixStarts(e.key, scope.prefix, scope.delimiter);
        CommonPrefixShared(e.key, v.key, scope.prefix, scope.delimiter);
      } else {
        var m :| m in events && m.versionId.None? && IsListable(m) && m.key == e.key;
        PlainKeys(events, e, m);
        PositionOrder(e, m);
        StrictTotalOrder(e.key, e.key, e.key);
      }
    }
  }

  lemma PlainKeys(events: seq<Event>, a: Event, b: Event)
    requires AreVersions(events) && a in events && b in events
    ensures !IsVersionKey(a.key) && !IsVersionKey(b.key)
  {
  }

  /** The end is that of what is left after the first event. */
  lemma EndOfRest(events: seq<Event>, master: Master, scope: Scope)
    requires SortedEvents(events) && AreVersions(events) && IsAfterMaster(events, master) && events != []
    requires IsListable(events[0]) && !IsAgain(events[0], master)
    requires exists v :: v in Drop(events[1..], SkippingAfter(ItemOf(events[0], scope))) && IsListable(v)
    ensures var rest := Drop(events[1..], SkippingAfter(ItemOf(events[0], scope)));
            EndsWithCopy(events, master, scope) <==> EndsWithCopy(rest, NextMaster(events[0], master), scope)
  {
    hide Lt;
    hide Position;
    hide StartsWith;
    hide IsVersionKey;
    hide MasterIsNewest;
    hide CommonPrefixOf;
    hide IsListable;
    hide IsSecondCopy;
    var e, item := events[0], ItemOf(events[0], scope);
    var rest := Drop(events[1..], SkippingAfter(item));
    RestIs(events, scope);
    RestFollows(events, SkippingAfter(item));
    forall d
      ensures IsLastListable(d, events) <==> IsLastListable(d, rest)
      ensures d in rest && CommonPrefixOf(d.key, scope.prefix, scope.delimiter) == None ==>
                (IsSecondCopy(d, events, master) <==> IsSecondCopy(d, rest, NextMaster(e, master)))
    {
      LastInRest(events, rest, d);
      if d in rest && CommonPrefixOf(d.key, scope.prefix, scope.delimiter) == None {
        CopyInRest(events, master, scope, d);
      }
    }
    hide IsLastListable;
  }

  lemma RestFollows(events: seq<Event>, s: Skipping)
    requires SortedEvents(events) && events != []
    ensures var rest := Drop(events[1..], s);
            forall u, v :: u in events && u !in rest && v in rest ==> Lt(Position(u), Position(v))
  {
    hide Lt;
    hide Position;
    hide Skips;
    var rest := Drop(events[1..], s);
    DropIsSuffix(events[1..], s);
    var n := |events| - |rest|;
    assert rest == events[n..];
    forall k | n <= k < |events|
      ensures events[k] in rest
    {
      assert rest[k-n] == events[k];
    }
    forall u, v | u in events && u !in rest && v in rest
      ensures Lt(Position(u), Position(v))
    {
      var i :| 0 <= i < |events| && events[i] == u;
      var j :| 0 <= j < |rest| && rest[j] == v;
      assert events[n+j] == v;
    }
  }

  /** A version left to list is a second copy in what is left if it is one in all. */
  lemma CopyInRest(events: seq<Event>, master: Master, scope: Scope, d: Event)
    requires SortedEvents(events) && AreVersions(events) && IsAfterMaster(events, master) && events != []
    requires IsListable(events[0]) && CommonPrefixOf(d.key, scope.prefix, scope.delimiter) == None
    requires d in Drop(events[1..], SkippingAfter(ItemOf(events[0], scope)))
    ensures IsSecondCopy(d, events, master)
       <==> IsSecondCopy(d, Drop(events[1..], SkippingAfter(ItemOf(events[0], scope))), NextMaster(events[0], master))
  {
    hide Lt;
    hide Position;
    hide StartsWith;
    hide IsVersionKey;
    hide MasterIsNewest;
    hide CommonPrefixOf;
    hide IsListable;
    var e, item := events[0], ItemOf(events[0], scope);
    var rest := Drop(events[1..], SkippingAfter(item));
    RestIs(events, scope);
    assert e in events;
    PlainKeys(events, e, d);
    if e.versionId.None? && master.Some? {
      NotAgain(e, d, master);
    }
    forall m | m in events && m != e && m.key == d.key
      ensures m in rest
    {
      RestStarts(events, scope, m);
      RestStarts(events, scope, d);
    }
  }
}
