/**
  Listings that go wrong after leaving a cached gap among the versions of a deleted object:
  after a hundred skipped entries they jump to "undefined", and lose the object that comes
  before it, or list again the one that comes after it.
 */
module LeftGaps {
  import opened Strings
  import opened Keys
  import opened Paging
  import opened MasterListing
  import opened DelimiterMasters
  import opened CurrentListings
  import opened SkipRanges

  const DELETED := Value(true, false, 0)
  const STORED := Value(false, false, 0)

  /** The keys of two deleted objects, and of 99 versions of the second one. */
  function KeyAt(a: CodeUnit, c: CodeUnit, i: nat): Str
    requires i < 101
  {
    if i == 0 then [a] else if i == 1 then [c] else [c, 0, i - 1]
  }

  function Deleted(a: CodeUnit, c: CodeUnit): (s: seq<Entry>)
    ensures |s| == 101 && forall i :: 0 <= i < 101 ==> s[i] == Entry(KeyAt(a, c, i), DELETED)
  {
    seq(101, i requires 0 <= i < 101 => Entry(KeyAt(a, c, i), DELETED))
  }

  /** The cached gap holds the second deleted object only. */
  function Cached(c: CodeUnit): Gap {
    Gaps.Gap([c], [c], 1)
  }

  lemma KeyOrder(a: CodeUnit, c: CodeUnit, i: nat, j: nat)
    requires 0 < a < c && i < j < 101
    ensures Lt(KeyAt(a, c, i), KeyAt(a, c, j))
  {
    hide Lt;
    var k, l := KeyAt(a, c, i), KeyAt(a, c, j);
    LtStep(k, l);
    if i > 0 {
      NothingBeforeEmpty(l[1..]);
      StrictTotalOrder([], l[1..], []);
      if i > 1 {
        LtStep(k[1..], l[1..]);
        LtStep(k[1..][1..], l[1..][1..]);
      }
    }
  }

  lemma KeyKind(a: CodeUnit, c: CodeUnit, i: nat)
    requires 0 < a < c && i < 101
    ensures IsVersionKey(KeyAt(a, c, i)) <==> i >= 2
    ensures i >= 2 ==> MasterOf(KeyAt(a, c, i)) == [c]
    ensures i >= 2 ==> Lt([c], KeyAt(a, c, i))
    ensures i < 2 ==> MasterOf(KeyAt(a, c, i)) == KeyAt(a, c, i)
  {
    hide Lt;
    var k := KeyAt(a, c, i);
    NoSeparator(k);
    NoSeparator([c]);
    if i >= 2 {
      assert k[1] == 0;
      assert k[..2] == [c] + [0];
      StartsWithVersion(k, [c]);
      KeyOrder(a, c, 1, i);
    }
  }

  /** Deleted objects among entries before and after them. */
  lemma StreamIsWellFormed(s: seq<Entry>, before: seq<Entry>, a: CodeUnit, c: CodeUnit, after: seq<Entry>)
    requires 0 < a < c && s == before + Deleted(a, c) + after && |before| <= 1 && |after| <= 1
    requires before != [] ==> |before[0].key| == 1 && 0 < before[0].key[0] < a
    requires after != [] ==> |after[0].key| == 1 && c < after[0].key[0]
    ensures WellFormed(s, [])
  {
    hide Lt;
    hide KeyAt;
    hide IsVersionKey;
    hide MasterOf;
    var n := |before|;
    forall i, j | 0 <= i < j < |s|
      ensures Lt(s[i].key, s[j].key)
    {
      KeyIs(a, c, if n <= i < n + 101 then i - n else 0);
      KeyIs(a, c, if n <= j < n + 101 then j - n else 0);
      if n <= i && j < n + 101 {
        KeyOrder(a, c, i - n, j - n);
      } else {
        LtStep(s[i].key, s[j].key);
      }
    }
    forall i | 0 <= i < |s| && IsVersionKey(s[i].key)
      ensures i > 0 && MasterOf(s[i].key) == MasterOf(s[i-1].key)
    {
      if n <= i < n + 101 {
        KeyKind(a, c, i - n);
        KeyKind(a, c, i - n - 1);
        KeyIs(a, c, 1);
        NoSeparator([c]);
      } else {
        NoSeparator(s[i].key);
      }
    }
  }

  lemma KeyIs(a: CodeUnit, c: CodeUnit, i: nat)
    requires i < 101
    ensures var k := KeyAt(a, c, i);
            && k != [] && k[0] == (if i == 0 then a else c)
            && (i == 1 ==> k == [c])
  {
  }

  /** None of them is an object. */
  lemma {:induction false} NoneIsLive(a: CodeUnit, c: CodeUnit, i: nat, rest: seq<Entry>)
    requires 0 < a < c && i <= 101
    ensures Live(Deleted(a, c)[i..] + rest) == Live(rest)
    decreases 101 - i
  {
    var s := Deleted(a, c)[i..] + rest;
    if i < 101 {
      assert s[1..] == Deleted(a, c)[i+1..] + rest;
      KeyKind(a, c, i);
      NoneIsLive(a, c, i + 1, rest);
    } else {
      assert s == rest;
    }
  }

  lemma LiveAlone(e: Entry)
    requires |e.key| == 1 && e.key[0] > 0 && e.value == STORED
    ensures !IsVersionKey(e.key) && !StartsWith(e.key, REPLAY_PREFIX) && MasterOf(e.key) == e.key
    ensures forall rest :: Live([e] + rest) == [Object(e.key, STORED)] + Live(rest)
    ensures Live([e]) == [Object(e.key, STORED)]
  {
    NoSeparator(e.key);
    forall rest
      ensures Live([e] + rest) == [Object(e.key, STORED)] + Live(rest)
    {
      assert ([e] + rest)[1..] == rest;
    }
    assert [e] + [] == [e] && Live([]) == [];
  }

  /** The listing is told about the gap when it has read the first deleted object, and enters
      it with the second. */
  method EnterGap(listing: DelimiterMaster, skip: Skip, from: nat, a: CodeUnit, c: CodeUnit)
    requires skip.extension == listing && skip.gteParams == None
    requires 0 < a < c && from + 101 <= |listing.stream| && listing.stream[from..from+101] == Deleted(a, c)
    requires listing.Valid(from) && HoldsNoObject(listing.stream, Cached(c))
    requires listing.state.NotSkipping? || listing.state.SkippingVersions?
    requires listing.gapCaching == UnknownGap && skip.streakLength == 0
    modifies listing, skip
    ensures listing.Valid(from + 2) && listing.state == SkippingGap
    ensures listing.gapCaching == GapCached(Cached(c)) && skip.streakLength == 1
  {
    hide Live;
    hide Group;
    hide Lt;
    hide WellFormed;
    hide KeyAt;
    hide IsVersionKey;
    hide MasterOf;
    hide HoldsNoObject;
    hide Deleted;
    hide Contents;
    hide CommonPrefixes;
    hide Ahead;
    hide StartsWith;
    hide CommonPrefixOf;
    EntryIs(listing.stream, from, a, c, 0);
    EntryIs(listing.stream, from, a, c, 1);
    FirstKeys(a, c);
    var action;
    ghost var r;
    action, r := skip.Filter(Entry(KeyAt(a, c, 0), DELETED), 0, from);
    listing.OnGapLookup(Some(Cached(c)), from + 1);
    action, r := skip.Filter(Entry(KeyAt(a, c, 1), DELETED), 0, from + 1);
  }

  lemma EntryIs(stream: seq<Entry>, from: nat, a: CodeUnit, c: CodeUnit, i: nat)
    requires from + 101 <= |stream| && stream[from..from+101] == Deleted(a, c) && i < 101
    ensures stream[from+i] == Entry(KeyAt(a, c, i), DELETED)
  {
    assert stream[from..from+101][i] == stream[from+i];
  }

  /** The listing leaves the gap with the first version, and is to jump after the last one. */
  method LeaveGap(listing: DelimiterMaster, skip: Skip, from: nat, a: CodeUnit, c: CodeUnit)
    returns (action: Action)
    requires skip.extension == listing && skip.gteParams == None
    requires 0 < a < c && from + 101 <= |listing.stream| && listing.stream[from..from+101] == Deleted(a, c)
    requires listing.Valid(from + 2) && listing.state == SkippingGap
    requires listing.gapCaching == GapCached(Cached(c)) && skip.streakLength == 1
    modifies listing, skip
    ensures listing.Valid(from + 101) && listing.state == SkippingVersions(None)
    ensures action == SkipRange(UNDEFINED_TARGET)
  {
    hide Live;
    hide Group;
    hide Lt;
    hide WellFormed;
    hide KeyAt;
    hide IsVersionKey;
    hide MasterOf;
    hide HoldsNoObject;
    hide Deleted;
    hide Contents;
    hide CommonPrefixes;
    hide Ahead;
    hide StartsWith;
    hide CommonPrefixOf;
    ghost var stream := listing.stream;
    ghost var r;
    EntryIs(stream, from, a, c, 2);
    KeyKind(a, c, 2);
    StrictTotalOrder([c], KeyAt(a, c, 2), [c]);
    action, r := skip.Filter(Entry(KeyAt(a, c, 2), DELETED), 0, from + 2);
    for i := 3 to 101
      invariant listing.Valid(from + i) && listing.state == SkippingVersions(None)
      invariant skip.streakLength == i - 1 && listing.stream == stream
      invariant i == 101 ==> action == SkipRange(UNDEFINED_TARGET)
    {
      EntryIs(stream, from, a, c, i);
      KeyKind(a, c, i);
      action, r := skip.Filter(Entry(KeyAt(a, c, i), DELETED), 0, from + i);
    }
  }

  lemma FirstKeys(a: CodeUnit, c: CodeUnit)
    requires 0 < a < c
    ensures !IsVersionKey(KeyAt(a, c, 0)) && !IsVersionKey(KeyAt(a, c, 1)) && KeyAt(a, c, 1) == [c]
    ensures Gaps.Within(Cached(c), [c])
  {
    KeyKind(a, c, 0);
    KeyKind(a, c, 1);
    StrictTotalOrder([c], [c], [c]);
  }

  // ---------------------------------------------------------------------------
  // An object that is lost

  const LAST: Entry := Entry([0x65], STORED)

  /** The deleted objects "a" and "c", and the object "e". */
  function LossyStream(): seq<Entry> {
    Deleted(0x61, 0x63) + [LAST]
  }

  /**
    The listing is told about a gap that holds no object, and yet the jump that it asks for
    loses one: the object "e" is still to be listed, and is not beyond the skip target.
   */
  method LoseObject() returns (listing: DelimiterMaster, action: Action, ghost p: nat)
    ensures fresh(listing) && listing.stream == LossyStream() && listing.Valid(p)
    ensures listing.state == SkippingVersions(None) && listing.SkippingBase() == Some(UNDEFINED_TARGET)
    ensures action == SkipRange(UNDEFINED_TARGET) && p <= |listing.stream|
    ensures Object(LAST.key, STORED) in Live(listing.stream[p..])
    ensures Live(From(listing.stream, UNDEFINED_TARGET)) == []
  {
    hide Live;
    hide Group;
    hide From;
    hide Lt;
    hide WellFormed;
    hide Deleted;
    ghost var stream := LossyStream();
    LossyIsWellFormed();
    listing := new DelimiterMaster(MasterListing.Scope([], []), [], 1000, 1000, stream);
    var skip := new Skip(listing, None);
    listing.RefreshGapCache(1, 1, 1, 0, 0);
    EnterGap(listing, skip, 0, 0x61, 0x63);
    action := LeaveGap(listing, skip, 0, 0x61, 0x63);
    p := 101;
    assert stream[101..] == [LAST];
    LiveAlone(LAST);
    NothingLive();
  }

  lemma LossyIsWellFormed()
    ensures WellFormed(LossyStream(), []) && LossyStream()[0..101] == Deleted(0x61, 0x63)
    ensures HoldsNoObject(LossyStream(), Cached(0x63))
    ensures From(LossyStream(), UNDEFINED_TARGET) == []
  {
    hide Lt;
    hide Live;
    hide From;
    hide Deleted;
    var s := LossyStream();
    assert s == [] + Deleted(0x61, 0x63) + [LAST];
    StreamIsWellFormed(s, [], 0x61, 0x63, [LAST]);
    assert Deleted(0x61, 0x63)[0..] == Deleted(0x61, 0x63);
    NoneIsLive(0x61, 0x63, 0, [LAST]);
    LiveAlone(LAST);
    OutsideCached(0x63, LAST.key);
    LtStep(LAST.key, UNDEFINED_TARGET);
    assert s[|s|-1] == LAST;
    NothingFrom(s, UNDEFINED_TARGET, []);
  }

  lemma OutsideCached(c: CodeUnit, k: Str)
    requires |k| == 1 && k[0] != c
    ensures !Gaps.Within(Cached(c), k)
  {
    LtStep([c], k);
    LtStep(k, [c]);
  }

  // ---------------------------------------------------------------------------
  // An object that is listed twice

  const FIRST: Entry := Entry([0x76], STORED)

  /** The object "v", and the deleted objects "w" and "x". */
  function RepeatedStream(): seq<Entry> {
    [FIRST] + Deleted(0x77, 0x78)
  }

  /**
    The listing has listed the object "v", and has read everything; but the jump that it asks
    for goes back to the beginning, and "v" is listed again.
   */
  method ListTwice() returns (listing: DelimiterMaster, action: Action)
    ensures fresh(listing) && listing.stream == RepeatedStream() && listing.Valid(|listing.stream|)
    ensures listing.state == SkippingVersions(None) && listing.SkippingBase() == Some(UNDEFINED_TARGET)
    ensures action == SkipRange(UNDEFINED_TARGET)
    ensures listing.contents == [Object(FIRST.key, STORED)]
    ensures From(listing.stream, UNDEFINED_TARGET) == listing.stream
    ensures Ahead(listing.state, From(listing.stream, UNDEFINED_TARGET)) == [Object(FIRST.key, STORED)]
  {
    hide Live;
    hide Group;
    hide Contents;
    hide CommonPrefixes;
    hide Lt;
    hide WellFormed;
    hide From;
    hide Deleted;
    hide HoldsNoObject;
    ghost var stream := RepeatedStream();
    RepeatedIsWellFormed();
    LiveAlone(FIRST);
    listing := new DelimiterMaster(MasterListing.Scope([], []), [], 1000, 1000, stream);
    var skip := new Skip(listing, None);
    listing.RefreshGapCache(1, 1, 1, 0, 0);
    ghost var r;
    action, r := skip.Filter(FIRST, 0, 0);
    EnterGap(listing, skip, 1, 0x77, 0x78);
    action := LeaveGap(listing, skip, 1, 0x77, 0x78);
    EverythingListed(listing);
    OneContent(FIRST.key, STORED, listing.scope);
  }

  lemma EverythingListed(listing: DelimiterMaster)
    requires listing.Valid(|listing.stream|) && listing.state == SkippingVersions(None)
    ensures listing.contents == Contents(Group(Live(listing.stream), listing.scope))
  {
    hide Lt;
    hide WellFormed;
    assert listing.stream[|listing.stream|..] == [];
    NothingLive();
    var items := listing.items;
    assert Group([], listing.scope) == [] && items + [] == items;
    assert items == listing.Listing();
  }

  lemma OneContent(k: Str, v: Value, scope: Scope)
    requires scope.delimiter == []
    ensures Contents(Group([Object(k, v)], scope)) == [Object(k, v)]
  {
    var item := Content(k, v);
    assert [Object(k, v)][1..] == [] && [item][..0] == [];
    assert Group([Object(k, v)], scope) == [item];
  }

  lemma RepeatedIsWellFormed()
    ensures WellFormed(RepeatedStream(), []) && RepeatedStream()[1..102] == Deleted(0x77, 0x78)
    ensures HoldsNoObject(RepeatedStream(), Cached(0x78))
    ensures Live(RepeatedStream()) == [Object(FIRST.key, STORED)]
    ensures From(RepeatedStream(), UNDEFINED_TARGET) == RepeatedStream()
  {
    hide Lt;
    hide Live;
    hide Deleted;
    var s := RepeatedStream();
    assert s == [FIRST] + Deleted(0x77, 0x78) + [];
    StreamIsWellFormed(s, [FIRST], 0x77, 0x78, []);
    assert Deleted(0x77, 0x78)[0..] + [] == Deleted(0x77, 0x78);
    NoneIsLive(0x77, 0x78, 0, []);
    LiveAlone(FIRST);
    NothingLive();
    OutsideCached(0x78, FIRST.key);
    LtStep(FIRST.key, UNDEFINED_TARGET);
  }
}
