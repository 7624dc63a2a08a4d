/**
  Whole listings of current versions: under every schedule of gap lookups, time windows
  and jumps the result is the same.  Also when the jump out of a left gap is safe.
 */
module CurrentListings {
  import opened Strings
  import opened Keys
  import opened Paging
  import opened MasterListing
  import opened DelimiterMasters

  // ---------------------------------------------------------------------------
  // The state a gap leaves behind

  /** The entries from `target` on. */
  ghost function From(s: seq<Entry>, target: Str): seq<Entry> {
    if s != [] && Lt(s[0].key, target) then From(s[1..], target) else s
  }

  /** The value found for object `m` is a placeholder up to the end of the entries. */
  predicate Pends(value: Value, m: Str, rest: seq<Entry>)
    decreases |rest|
  {
    && value.isPHD && !value.isDeleteMarker
    && (rest == [] || (IsVersionOf(rest[0], m) && Pends(rest[0].value, m, rest[1..])))
  }

  /** Whether the last object is live depends on what comes next. */
  predicate IsOpen(s: seq<Entry>) {
    s != [] && (IsOpen(s[1..])
                || (!IsVersionKey(s[0].key) && !StartsWith(s[0].key, REPLAY_PREFIX)
                    && Pends(s[0].value, s[0].key, s[1..])))
  }

  /** Of the entries read, those at or after the skip target hold no object, and none that may
      still turn out to be one. */
  ghost predicate NothingToRelist(s: seq<Entry>) {
    Live(From(s, UNDEFINED_TARGET)) == [] && !IsOpen(From(s, UNDEFINED_TARGET))
  }

  /**
    After the entries `s`, a listing that has just left a cached gap goes on from the first of
    all entries at or after "undefined" and the incremented separator, and reads again what
    it has read of them.  Exactly when that is the same, for every stream that starts with
    `s`, as reading the rest: when the last key read is not before "undefined", and there is
    nothing to be listed a second time.
   */
  lemma JumpToUndefinedExactly(s: seq<Entry>, marker: Str)
    requires s != [] && WellFormed(s, marker)
    ensures Le(UNDEFINED, s[|s|-1].key) && NothingToRelist(s)
       <==> forall rest: seq<Entry> :: WellFormed(s + rest, marker) ==>
                                         Live(From(s + rest, UNDEFINED_TARGET)) == Live(rest)
  {
    hide Lt;
    hide Live;
    hide From;
    hide IsOpen;
    hide WellFormed;
    var last := s[|s|-1].key;
    if Le(UNDEFINED, last) && NothingToRelist(s) {
      forall rest: seq<Entry> | WellFormed(s + rest, marker)
        ensures Live(From(s + rest, UNDEFINED_TARGET)) == Live(rest)
      {
        RestIsSorted(s, rest, marker);
        FromConcat(s, rest, UNDEFINED_TARGET, marker);
        if From(s, UNDEFINED_TARGET) == [] {
          OnlyVersionsSkipped(last, rest);
        } else {
          LiveConcat(From(s, UNDEFINED_TARGET), rest);
        }
      }
    } else {
      var rest := Witness(s, marker);
      assert WellFormed(s + rest, marker);
    }
  }

  /** What may follow so that the jump loses an object or lists one again. */
  lemma Witness(s: seq<Entry>, marker: Str) returns (rest: seq<Entry>)
    requires s != [] && WellFormed(s, marker)
    requires !(Le(UNDEFINED, s[|s|-1].key) && NothingToRelist(s))
    ensures WellFormed(s + rest, marker) && Live(From(s + rest, UNDEFINED_TARGET)) != Live(rest)
  {
    hide Lt;
    hide Live;
    hide From;
    hide IsOpen;
    hide WellFormed;
    var again := From(s, UNDEFINED_TARGET);
    if !Le(UNDEFINED, s[|s|-1].key) {
      rest := [Entry(UNDEFINED, Value(false, false, 0))];
      ObjectSkipped();
      StrictTotalOrder(s[|s|-1].key, UNDEFINED, s[|s|-1].key);
      UndefinedFollows(s, marker);
      UndefinedIsObject();
      StrictTotalOrder(s[|s|-1].key, UNDEFINED, UNDEFINED_TARGET);
      NothingFrom(s, UNDEFINED_TARGET, marker);
      FromConcat(s, rest, UNDEFINED_TARGET, marker);
    } else if Live(again) != [] {
      rest := [];
      assert s + rest == s;
      NothingLive();
    } else {
      var e := Entry(s[|s|-1].key + [0], Value(false, false, 0));
      rest := [e];
      OpenIsLast(s, UNDEFINED_TARGET, marker);
      NextVersion(s, marker, e);
      FromConcat(s, rest, UNDEFINED_TARGET, marker);
      OpenTurnsLive(again, e);
      VersionAlone(e);
    }
  }

  lemma NothingLive()
    ensures Live([]) == []
  {
  }

  lemma VersionAlone(e: Entry)
    requires IsVersionKey(e.key)
    ensures Live([e]) == []
  {
    assert [e][1..] == [];
  }

  lemma {:induction false} FromIs(s: seq<Entry>, target: Str)
    requires SortedEntries(s)
    ensures var n := |s| - |From(s, target)|;
            && 0 <= n && From(s, target) == s[n..]
            && (forall i :: 0 <= i < n ==> Lt(s[i].key, target))
            && (n < |s| ==> Le(target, s[n].key))
  {
    hide Lt;
    if s != [] {
      StrictTotalOrder(s[0].key, target, s[0].key);
      if Lt(s[0].key, target) {
        FromIs(s[1..], target);
      }
    }
  }

  /** What has been read at or after the target is read again, and then the rest. */
  lemma {:induction false} FromConcat(s: seq<Entry>, rest: seq<Entry>, target: Str, marker: Str)
    requires SortedEntries(s + rest) || WellFormed(s + rest, marker)
    ensures From(s + rest, target) == if From(s, target) == [] then From(rest, target) else From(s, target) + rest
  {
    hide Lt;
    if s == [] {
      assert s + rest == rest;
    } else {
      assert (s + rest)[1..] == s[1..] + rest;
      if Lt(s[0].key, target) {
        FromConcat(s[1..], rest, target, marker);
      }
    }
  }

  lemma {:induction false} NothingFrom(s: seq<Entry>, target: Str, marker: Str)
    requires s != [] && WellFormed(s, marker) && Lt(s[|s|-1].key, target)
    ensures From(s, target) == []
  {
    hide Lt;
    FromIs(s, target);
    var n := |s| - |From(s, target)|;
    if n < |s| {
      if n < |s| - 1 {
        assert Lt(s[n].key, s[|s|-1].key);
      }
      Ordered();
    }
  }

  // ---------------------------------------------------------------------------
  // What follows the entries read

  lemma {:induction false} CurrentConcat(value: Value, m: Str, s: seq<Entry>, rest: seq<Entry>)
    requires !Pends(value, m, s)
    ensures Current(value, m, s + rest) == Current(value, m, s)
    decreases |s|
  {
    hide IsVersionKey;
    hide MasterOf;
    if s != [] {
      assert (s + rest)[0] == s[0] && (s + rest)[1..] == s[1..] + rest;
      if value.isPHD && !value.isDeleteMarker && IsVersionOf(s[0], m) {
        CurrentConcat(s[0].value, m, s[1..], rest);
      }
    }
  }

  /** Entries that are not open are not changed by what follows. */
  lemma {:induction false} LiveConcat(s: seq<Entry>, rest: seq<Entry>)
    requires !IsOpen(s)
    ensures Live(s + rest) == Live(s) + Live(rest)
  {
    hide IsVersionKey;
    hide StartsWith;
    hide Current;
    if s == [] {
      assert s + rest == rest;
    } else {
      assert (s + rest)[0] == s[0] && (s + rest)[1..] == s[1..] + rest;
      LiveConcat(s[1..], rest);
      if !IsVersionKey(s[0].key) && !StartsWith(s[0].key, REPLAY_PREFIX) {
        CurrentConcat(s[0].value, s[0].key, s[1..], rest);
      }
    }
  }

  lemma {:induction false} PendingTurnsLive(value: Value, m: Str, s: seq<Entry>, e: Entry)
    requires Pends(value, m, s) && IsVersionOf(e, m) && !e.value.isPHD && !e.value.isDeleteMarker
    ensures Current(value, m, s + [e]) == Some(e.value)
    decreases |s|
  {
    hide IsVersionKey;
    hide MasterOf;
    if s != [] {
      assert (s + [e])[0] == s[0] && (s + [e])[1..] == s[1..] + [e];
      PendingTurnsLive(s[0].value, m, s[1..], e);
    } else {
      assert (s + [e])[0] == e;
    }
  }

  lemma {:induction false} PendsToTheEnd(value: Value, m: Str, s: seq<Entry>)
    requires Pends(value, m, s) && s != []
    ensures IsVersionOf(s[|s|-1], m)
    decreases |s|
  {
    hide IsVersionKey;
    hide MasterOf;
    if |s| > 1 {
      PendsToTheEnd(s[0].value, m, s[1..]);
    }
  }

  /** With a live version of it, the object that is open turns out to be live. */
  lemma {:induction false} OpenTurnsLive(s: seq<Entry>, e: Entry)
    requires IsOpen(s) && IsVersionOf(e, MasterOf(s[|s|-1].key)) && !e.value.isPHD && !e.value.isDeleteMarker
    ensures Live(s + [e]) != []
  {
    hide IsVersionKey;
    hide MasterOf;
    hide StartsWith;
    hide Current;
    assert (s + [e])[0] == s[0] && (s + [e])[1..] == s[1..] + [e];
    if IsOpen(s[1..]) {
      OpenTurnsLive(s[1..], e);
    } else {
      var m := s[0].key;
      if |s| > 1 {
        PendsToTheEnd(s[0].value, m, s[1..]);
      } else {
        NoVersion(m);
      }
      PendingTurnsLive(s[0].value, m, s[1..], e);
    }
  }

  lemma NoVersion(m: Str)
    requires !IsVersionKey(m)
    ensures MasterOf(m) == m
  {
  }

  lemma OpenIsLast(s: seq<Entry>, target: Str, marker: Str)
    requires WellFormed(s, marker) && IsOpen(From(s, target))
    ensures From(s, target) != [] && From(s, target)[|From(s, target)|-1] == s[|s|-1]
  {
    hide Lt;
    FromIs(s, target);
  }

  /** The next key after a key of an object is that of a version of it. */
  lemma NextVersion(s: seq<Entry>, marker: Str, e: Entry)
    requires s != [] && WellFormed(s, marker) && e.key == s[|s|-1].key + [0]
    ensures WellFormed(s + [e], marker) && IsVersionOf(e, MasterOf(s[|s|-1].key))
  {
    hide Lt;
    var last := s[|s|-1].key;
    var m := MasterOf(last);
    NextString(last, e.key);
    StrictTotalOrder(e.key, e.key, e.key);
    if IsVersionKey(last) {
      VersionStartsWith(last);
      NoSeparator(m);
      StillStartsWith(last, m + [0]);
    } else {
      assert StartsWith(e.key, e.key) && m == last;
    }
    StartsWithVersion(e.key, m);
    var s' := s + [e];
    forall i, j | 0 <= i < j < |s'|
      ensures Lt(s'[i].key, s'[j].key)
    {
      if j == |s| && i < |s| - 1 {
        StrictTotalOrder(s[i].key, last, e.key);
      }
    }
  }

  lemma StillStartsWith(k: Str, p: Str)
    requires StartsWith(k, p)
    ensures StartsWith(k + [0], p)
  {
    assert (k + [0])[..|p|] == k[..|p|];
  }

  lemma RestIsSorted(s: seq<Entry>, rest: seq<Entry>, marker: Str)
    requires WellFormed(s + rest, marker)
    ensures SortedEntries(rest)
    ensures s != [] ==> forall i :: 0 <= i < |rest| ==> Lt(s[|s|-1].key, rest[i].key)
  {
    hide Lt;
    forall i | s != [] && 0 <= i < |rest|
      ensures Lt(s[|s|-1].key, rest[i].key)
    {
      assert (s + rest)[|s|-1] == s[|s|-1] && (s + rest)[|s|+i] == rest[i];
    }
    forall i, j | 0 <= i < j < |rest|
      ensures Lt(rest[i].key, rest[j].key)
    {
      assert (s + rest)[|s|+i] == rest[i] && (s + rest)[|s|+j] == rest[j];
    }
  }

  /** From "undefined" on, only versions of it come before the target. */
  lemma {:induction false} OnlyVersionsSkipped(k: Str, rest: seq<Entry>)
    requires Le(UNDEFINED, k) && SortedEntries(rest) && forall i :: 0 <= i < |rest| ==> Lt(k, rest[i].key)
    ensures Live(From(rest, UNDEFINED_TARGET)) == Live(rest)
  {
    hide Lt;
    hide IsVersionKey;
    hide WithObject;
    if rest != [] && Lt(rest[0].key, UNDEFINED_TARGET) {
      VersionsOfUndefined(k, rest[0].key);
      OnlyVersionsSkipped(k, rest[1..]);
    }
  }

  /** An object named "undefined" is skipped. */
  lemma ObjectSkipped()
    ensures var rest := [Entry(UNDEFINED, Value(false, false, 0))];
            Live(rest) == [Object(UNDEFINED, Value(false, false, 0))] && Live(From(rest, UNDEFINED_TARGET)) == []
  {
    hide Live;
    hide From;
    hide Lt;
    UndefinedIsObject();
    var e := Entry(UNDEFINED, Value(false, false, 0));
    OneObject(e);
    OneSkipped(e, UNDEFINED_TARGET);
  }

  lemma UndefinedIsObject()
    ensures !IsVersionKey(UNDEFINED) && !StartsWith(UNDEFINED, REPLAY_PREFIX) && Lt(UNDEFINED, UNDEFINED_TARGET)
  {
    hide Lt;
    NoSeparator(UNDEFINED);
    NotReplay(UNDEFINED);
    BeforeItsExtension(UNDEFINED, Inc([VID_SEP]));
  }

  lemma NotReplay(k: Str)
    requires k != [] && k[0] != REPLAY_PREFIX[0]
    ensures !StartsWith(k, REPLAY_PREFIX)
  {
    assert |k| >= 2 ==> k[..2][0] == k[0];
  }

  lemma {:induction false} BeforeItsExtension(s: Str, t: Str)
    requires t != []
    ensures Lt(s, s + t)
  {
    if s != [] {
      BeforeItsExtension(s[1..], t);
      assert (s + t)[1..] == s[1..] + t;
    }
  }

  lemma OneObject(e: Entry)
    requires !IsVersionKey(e.key) && !StartsWith(e.key, REPLAY_PREFIX)
    requires !e.value.isPHD && !e.value.isDeleteMarker
    ensures Live([e]) == [Object(e.key, e.value)]
  {
    hide IsVersionKey;
    hide StartsWith;
    var s := [e];
    assert s[1..] == [] && Live([]) == [];
    assert Live(s) == WithObject(e.value, e.key, [], []);
  }

  lemma OneSkipped(e: Entry, target: Str)
    requires Lt(e.key, target)
    ensures From([e], target) == [] && Live([]) == []
  {
    hide Lt;
    var s := [e];
    assert s[1..] == [];
  }

  lemma UndefinedFollows(s: seq<Entry>, marker: Str)
    requires s != [] && WellFormed(s, marker) && Lt(s[|s|-1].key, UNDEFINED)
    ensures WellFormed(s + [Entry(UNDEFINED, Value(false, false, 0))], marker)
  {
    hide Lt;
    hide IsVersionKey;
    hide MasterOf;
    var s' := s + [Entry(UNDEFINED, Value(false, false, 0))];
    UndefinedIsObject();
    forall i, j | 0 <= i < j < |s'|
      ensures Lt(s'[i].key, s'[j].key)
    {
      if j == |s| && i < |s| - 1 {
        StrictTotalOrder(s[i].key, s[|s|-1].key, UNDEFINED);
      }
    }
  }

  // ---------------------------------------------------------------------------
  // Whole listings

  /** What happens before and after an entry is handled: a new time window for gaps, the
      answer to a gap lookup, the time, and whether a possible jump is taken. */
  datatype Decision = Decision(
    refresh: Option<(int, int, int)>, answer: Option<Option<Gap>>, now: int, jump: bool)

  type Schedule = nat -> Decision

  ghost predicate SoundAnswers(stream: seq<Entry>, schedule: Schedule) {
    forall n: nat :: schedule(n).answer.Some? && schedule(n).answer.value.Some? ==>
      HoldsNoObject(stream, schedule(n).answer.value.value)
  }

  /** Entries that are read again within a cached gap, or after it has been left: nothing
      but keys of the gap and versions. */
  ghost predicate IsRereading(listing: DelimiterMaster, p: nat, read: nat, gte: Option<Str>)
    reads listing
  {
    && p <= read <= |listing.stream|
    && match listing.state
       case SkippingGap => listing.gapCaching.GapCached? && gte == Some(listing.gapCaching.gap.lastKey)
                           && AreOfGap(listing.stream, p, read, listing.gapCaching.gap.lastKey)
       case SkippingVersions(m) => m == None && forall j :: p <= j < read ==> IsVersionKey(listing.stream[j].key)
       case _ => false
  }

  ghost predicate AreOfGap(stream: seq<Entry>, p: nat, read: nat, last: Str)
    requires read <= |stream|
  {
    forall j :: p <= j < read ==> Le(stream[j].key, last) || IsVersionKey(stream[j].key)
  }

  /** Takes a jump that the listing allows: it goes on from the first of all entries at or
      after the target, but not if it comes from there.  Only within a cached gap are
      entries read again. */
  method Jump(listing: DelimiterMaster, p: nat, stream: seq<Entry>, gte: Option<Str>,
              ghost read: nat, ghost again: bool)
    returns (q: nat, newGte: Option<Str>)
    requires listing.stream == stream && 0 < p <= read <= |stream| && listing.Valid(p) && (again || p == read)
    requires again ==> IsRereading(listing, p, read, gte)
    ensures q <= |stream| && listing.Valid(q) && (again ==> p <= q)
    ensures q < read ==> IsRereading(listing, q, read, newGte)
  {
    hide Live;
    hide Group;
    hide Lt;
    hide WellFormed;
    q, newGte := p, gte;
    var target := listing.SkippingBase();
    if target.Some? && target != gte && listing.JumpIsSafe(stream[p-1].key) {
      newGte := target;
      q := FindFrom(stream, (e: Entry) => e.key, 0, target.value);
      listing.JumpIsSound(p, q);
      if q < p {
        Ordered();
      }
    }
  }

  /** The gap cache opens a new time window, or answers a lookup. */
  method ListenToCache(listing: DelimiterMaster, d: Decision, ghost p: nat, ghost read: nat, ghost gte: Option<Str>)
    requires listing.Valid(p) && (p < read ==> IsRereading(listing, p, read, gte))
    requires d.answer.Some? && d.answer.value.Some? ==> HoldsNoObject(listing.stream, d.answer.value.value)
    modifies listing
    ensures listing.Valid(p) && (p < read ==> IsRereading(listing, p, read, gte))
  {
    hide Live;
    hide Group;
    hide Lt;
    hide WellFormed;
    hide HoldsNoObject;
    if d.refresh.Some? {
      listing.RefreshGapCache(d.refresh.value.0, d.refresh.value.1, d.refresh.value.2, d.now, p);
    }
    if d.answer.Some? && listing.gapCaching.GapLookupInProgress? {
      listing.OnGapLookup(d.answer.value, p);
    }
  }

  method FilterNext(listing: DelimiterMaster, e: Entry, now: int, ghost p: nat, ghost read: nat, ghost gte: Option<Str>)
    returns (r: FilterResult)
    requires p < |listing.stream| && e == listing.stream[p] && listing.Valid(p)
    requires p < read ==> IsRereading(listing, p, read, gte)
    modifies listing
    ensures if r.FILTER_END? then listing.Done() else listing.Valid(p + 1)
    ensures !r.FILTER_END? && p < read ==> IsRereading(listing, p + 1, read, gte)
  {
    hide Live;
    hide Group;
    hide Lt;
    hide WellFormed;
    hide HoldsNoObject;
    forall j | p < j < |listing.stream|
      ensures Lt(e.key, listing.stream[j].key)
    {
      listing.KeysAscend(p, j);
    }
    r := listing.Filter(e, now, p);
    Ordered();
  }

  lemma FirstPageIsRight(stream: seq<Entry>, scope: Scope, marker: Str, maxKeys: int, v2: bool)
    requires WellFormed(stream, marker)
    ensures IsPage(PageResult(Group(Live(stream), scope), maxKeys, marker, scope.delimiter, v2),
                   (iset item | IsItem(Live(stream), scope, item)), maxKeys, scope.delimiter, v2)
  {
    hide Live;
    hide Group;
    hide Lt;
    hide IsPage;
    LiveSorted(stream);
    GroupedItems(Live(stream), scope);
    PageIsRight(Group(Live(stream), scope), (iset item | IsItem(Live(stream), scope, item)),
                maxKeys, marker, scope.delimiter, v2);
  }

  /**
    A whole listing of current versions, under any schedule of gap lookups, time windows
    and jumps.  The result does not depend on the schedule: it is the first page of the
    listing; and every gap set in the cache is one that holds no live object.
   */
  method ListCurrentVersions(
    stream: seq<Entry>, scope: Scope, marker: Str, maxKeys: int, v2: bool,
    exposureDelayMs: int, schedule: Schedule)
    returns (result: ListingResult, saved: seq<Gap>)
    requires WellFormed(stream, marker) && SoundAnswers(stream, schedule)
    ensures result == PageResult(
              Group(Live(stream), scope), if maxKeys == 0 then 1000 else maxKeys, marker, scope.delimiter, v2)
    ensures IsPage(result, (iset item | IsItem(Live(stream), scope, item)),
                   if maxKeys == 0 then 1000 else maxKeys, scope.delimiter, v2)
    ensures forall g :: g in saved ==> IsSound(stream, g)
  {
    hide Live;
    hide Group;
    hide Lt;
    hide WellFormed;
    hide HoldsNoObject;
    hide IsRereading;
    hide IsPage;
    hide PageResult;
    hide IsItem;
    var listing := new DelimiterMaster(scope, marker, maxKeys, exposureDelayMs, stream);
    var gte: Option<Str> := None;
    var p: nat := 0;
    var n: nat := 0;
    ghost var read: nat := 0;
    while p < |stream|
      invariant p <= read <= |stream|
      invariant listing.Valid(p) && listing.stream == stream && listing.scope == scope
      invariant listing.marker == marker && listing.maxKeys == if maxKeys == 0 then 1000 else maxKeys
      invariant fresh(listing)
      invariant p < read ==> IsRereading(listing, p, read, gte)
      decreases |stream| - read, |stream| - p
    {
      var d := schedule(n);
      ListenToCache(listing, d, p, read, gte);
      var r := FilterNext(listing, stream[p], d.now, p, read, gte);
      if r.FILTER_END? {
        break;
      }
      ghost var again := p < read;
      p := p + 1;
      n := n + 1;
      read := if read < p then p else read;
      if r.FILTER_SKIP? && d.jump {
        p, gte := Jump(listing, p, stream, gte, read, again);
        read := if read < p then p else read;
      }
    }
    if p == |stream| {
      listing.EndOfStream();
    }
    result := listing.Result(v2, schedule(n).now);
    saved := listing.savedGaps;
    FirstPageIsRight(stream, scope, marker, if maxKeys == 0 then 1000 else maxKeys, v2);
  }
}
