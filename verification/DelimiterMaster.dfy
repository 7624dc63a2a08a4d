/**
  The listing of current versions in the v0 format: a state machine that is fed raw
  entries in order, may be told to jump ahead, skips cached gaps and records new ones.
  It is proved to return the first page of the listing of `MasterListing`, whatever gaps
  it is told about and whenever it is told, as long as they hold no live object; and it
  records only such gaps.
 */
module DelimiterMasters {
  import opened Strings
  import opened Keys
  import opened Paging
  import opened MasterListing
  import Gaps

  type Gap = Gaps.Gap

  datatype FilterState =
    | NotSkipping
    | SkippingPrefix(prefix: Str)
    | SkippingVersions(masterKey: Option<Str>)
    | WaitVersionAfterPHD(phdKey: Str)
    | SkippingGap

  datatype GapCaching =
    | NoGapCache
    | UnknownGap
    | GapLookupInProgress
    | GapCached(gap: Gap)
    | NoMoreGap

  datatype BuildingParams = BuildingParams(minGapWeight: int, triggerSaveGapWeight: int, initTimestamp: int)

  datatype GapBuilding =
    | Disabled
    | NotBuilding(params: BuildingParams)
    | Building(params: BuildingParams, gap: Gap, gapWeight: int)
    | Expired

  /** The JavaScript string "undefined". */
  const UNDEFINED: Str := [0x75, 0x6e, 0x64, 0x65, 0x66, 0x69, 0x6e, 0x65, 0x64]

  function Half(n: int): int {
    if n >= 0 then n / 2 else -(-n / 2)
  }

  const PHD := Value(false, true, 0)

  /** The objects still to be listed in a state, when `rest` is still to be read. */
  ghost function Ahead(state: FilterState, rest: seq<Entry>): seq<Object> {
    match state
    case SkippingPrefix(p) => DropPrefixed(Live(rest), p)
    case WaitVersionAfterPHD(m) => WithObject(PHD, m, rest, Live(rest))
    case _ => Live(rest)
  }

  /** No live object of the listed entries is in the gap. */
  ghost predicate HoldsNoObject(s: seq<Entry>, gap: Gap) {
    forall o :: o in Live(s) ==> !Gaps.Within(gap, o.key)
  }

  /** The skip target of a listing without a master key: from "undefined" on, only versions
      of it come before that. */
  const UNDEFINED_TARGET: Str := UNDEFINED + Inc([VID_SEP])

  lemma VersionsOfUndefined(k0: Str, k: Str)
    requires Le(UNDEFINED, k0) && Lt(k0, k) && Lt(k, UNDEFINED_TARGET)
    ensures IsVersionKey(k) && Le(UNDEFINED, k)
  {
    hide Lt;
    Transitive(UNDEFINED, k0, k);
    NextString(UNDEFINED, k);
    assert Inc(UNDEFINED + [0]) == UNDEFINED_TARGET;
    PrefixIsRange(k, UNDEFINED + [0]);
    NoSeparator(UNDEFINED);
    StartsWithVersion(k, UNDEFINED);
    Transitive(UNDEFINED, k, k);
  }

  /** The listed entries reach down, or up, to a key. */
  ghost predicate StartsIn(s: seq<Entry>, k: Str) {
    exists i :: 0 <= i < |s| && Le(s[i].key, k)
  }

  ghost predicate EndsIn(s: seq<Entry>, k: Str) {
    exists i :: 0 <= i < |s| && Le(k, s[i].key)
  }

  /** A gap that may be saved: it lies among the listed entries and holds no live object. */
  ghost predicate IsSound(s: seq<Entry>, gap: Gap) {
    HoldsNoObject(s, gap) && Le(gap.firstKey, gap.lastKey) && StartsIn(s, gap.firstKey) && EndsIn(s, gap.lastKey)
  }

  class DelimiterMaster {
    const scope: Scope
    const marker: Str
    const maxKeys: int
    const exposureDelayMs: int

    var state: FilterState
    var keys: int
    var contents: seq<Object>
    var commonPrefixes: seq<Str>
    var nextMarker: Str
    var isTruncated: bool
    var gapCaching: GapCaching
    var gapBuilding: GapBuilding
    var refreshedBuildingParams: Option<BuildingParams>
    /** The gaps set in the gap cache so far. */
    var savedGaps: seq<Gap>

    /** The raw entries to list, and the items listed so far. */
    ghost const stream: seq<Entry>
    ghost var items: seq<Item>

    ghost function Listing(): seq<Item> {
      Group(Live(stream), scope)
    }

    ghost predicate GapsValid()
      reads this`gapCaching, this`savedGaps
    {
      && (gapCaching.GapCached? ==> HoldsNoObject(stream, gapCaching.gap))
      && (forall g :: g in savedGaps ==> IsSound(stream, g))
    }

    ghost predicate OutputValid()
      reads this`contents, this`commonPrefixes, this`keys, this`nextMarker, this`items
    {
      && contents == Contents(items) && commonPrefixes == CommonPrefixes(items)
      && keys == |items| && (keys <= maxKeys || keys == 0)
      && nextMarker == (if items == [] then marker else ItemKey(items[|items|-1]))
    }

    ghost predicate BuildingSound()
      reads this`gapBuilding
    {
      gapBuilding.Building? ==> IsSound(stream, gapBuilding.gap)
    }

    /** The gap being built holds no live object, and neither does anything between it
        and the key `m`. */
    ghost predicate BuildingBefore(m: Str)
      reads this`gapBuilding
    {
      gapBuilding.Building? ==>
        var gap := gapBuilding.gap;
        && IsSound(stream, gap) && Lt(gap.lastKey, m)
        && (forall o :: o in Live(stream) && Lt(gap.lastKey, o.key) ==> Le(m, o.key))
    }

    /** The same, the key `k` included. */
    ghost predicate BuildingUpTo(k: Str)
      reads this`gapBuilding
    {
      gapBuilding.Building? ==>
        var gap := gapBuilding.gap;
        && IsSound(stream, gap) && Le(gap.lastKey, k)
        && (forall o :: o in Live(stream) && Lt(gap.lastKey, o.key) ==> Lt(k, o.key))
    }

    ghost predicate StateValid(p: nat)
      requires p <= |stream|
      reads this
    {
      match state
      case NotSkipping => p == 0 && marker == [] && !gapBuilding.Building?
      case SkippingPrefix(q) =>
        p > 0 && StartsWith(stream[p-1].key, q) && !IsVersionKey(q) && !gapBuilding.Building?
      case SkippingVersions(m) =>
        if p == 0 then marker != [] && m == Some(marker) && !gapBuilding.Building?
        else (m == None || m == Some(MasterOf(stream[p-1].key))) && BuildingUpTo(stream[p-1].key)
      case WaitVersionAfterPHD(m) =>
        && p > 0 && m == MasterOf(stream[p-1].key) && BuildingBefore(m) && StartsIn(stream, m)
        && (forall o :: o in Live(stream) && o.key == m ==> Current(PHD, m, stream[p..]).Some?)
      case SkippingGap =>
        && gapCaching.GapCached? && StartsIn(stream, gapCaching.gap.lastKey) && !gapBuilding.Building?
        && IsAmongGap(p)
    }

    /** The entries from position `p` on are not before the cached gap, and those before it
        that are beyond the gap are versions. */
    ghost predicate IsAmongGap(p: nat)
      requires p <= |stream| && gapCaching.GapCached?
      reads this`gapCaching
    {
      var gap := gapCaching.gap;
      && Le(gap.firstKey, gap.lastKey)
      && (p < |stream| ==> Le(gap.firstKey, stream[p].key))
      && (forall j :: 0 <= j < p && Lt(gap.lastKey, stream[j].key) ==> IsVersionKey(stream[j].key))
    }

    /** The machine has read the entries up to position `p`. */
    ghost predicate Valid(p: nat)
      reads this
    {
      && p <= |stream| && WellFormed(stream, marker)
      && OutputValid() && GapsValid() && StateValid(p) && !isTruncated
      && items + Group(Ahead(state, stream[p..]), scope) == Listing()
    }

    /** The machine is about to handle the entry at position `p`, which gives `value` as
        the version of object `key`. */
    ghost predicate Ready(p: nat, key: Str, value: Value)
      reads this
    {
      && p < |stream| && WellFormed(stream, marker)
      && OutputValid() && GapsValid() && !isTruncated
      && MasterOf(stream[p].key) == key && StartsIn(stream, key) && BuildingBefore(key)
      && (forall o :: o in Live(stream) && o.key == key ==> Current(value, key, stream[p+1..]).Some?)
      && items + Group(WithObject(value, key, stream[p+1..], Live(stream[p+1..])), scope) == Listing()
    }

    /** The listing is over. */
    ghost predicate Done()
      reads this
    {
      && OutputValid() && GapsValid() && BuildingSound()
      && items == Page(Listing(), maxKeys)
      && isTruncated == (maxKeys > 0 && |Listing()| > maxKeys)
    }

    // -------------------------------------------------------------------------
    // Building gaps

    /** Gaps may be saved for some time after building them was allowed. */
    predicate InWindow(params: BuildingParams, now: int) {
      now - params.initTimestamp < exposureDelayMs
    }

    /** Sets the gap being built in the cache, unless its time window is over. */
    method SaveBuildingGap(now: int) returns (saved: bool)
      requires gapBuilding.Building? && GapsValid()
      requires IsSound(stream, gapBuilding.gap)
      modifies this`gapBuilding, this`refreshedBuildingParams, this`savedGaps
      ensures var b := old(gapBuilding);
              && saved == InWindow(b.params, now)
              && GapsValid()
              && if saved then
                   && savedGaps == old(savedGaps) + [b.gap]
                   && refreshedBuildingParams == None
                   && gapBuilding == Building(
                        if old(refreshedBuildingParams).Some? then old(refreshedBuildingParams).value else b.params,
                        Gaps.Gap(b.gap.lastKey, b.gap.lastKey, 0), b.gapWeight)
                 else savedGaps == old(savedGaps) && gapBuilding == Expired
    {
      hide Live;
      var Building(params, gap, gapWeight) := gapBuilding;
      var totalElapsed := now - params.initTimestamp;
      if totalElapsed >= exposureDelayMs {
        gapBuilding := Expired;
        refreshedBuildingParams := None;
        return false;
      }
      savedGaps := savedGaps + [gap];
      var newParams := CheckRefreshedBuildingParams(params);
      gapBuilding := Building(newParams, Gaps.Gap(gap.lastKey, gap.lastKey, 0), gapWeight);
      return true;
    }

    method CheckRefreshedBuildingParams(params: BuildingParams) returns (r: BuildingParams)
      modifies this`refreshedBuildingParams
      ensures refreshedBuildingParams == None
      ensures r == if old(refreshedBuildingParams).Some? then old(refreshedBuildingParams).value else params
    {
      if refreshedBuildingParams.Some? {
        r := refreshedBuildingParams.value;
        refreshedBuildingParams := None;
      } else {
        r := params;
      }
    }

    /** Starts building a gap at `newKey`. */
    method CreateBuildingGap(newKey: Str, startWeight: int, cachedWeight: int)
      modifies this`gapBuilding, this`refreshedBuildingParams
      ensures if old(gapBuilding).NotBuilding?
              then gapBuilding.Building?
                   && gapBuilding.gap == Gaps.Gap(newKey, newKey, startWeight)
                   && gapBuilding.gapWeight == cachedWeight + startWeight
                   && gapBuilding.params == (if old(refreshedBuildingParams).Some?
                                             then old(refreshedBuildingParams).value else old(gapBuilding).params)
                   && refreshedBuildingParams == None
              else gapBuilding == old(gapBuilding) && refreshedBuildingParams == old(refreshedBuildingParams)
    {
      if gapBuilding.NotBuilding? {
        var params := CheckRefreshedBuildingParams(gapBuilding.params);
        gapBuilding := Building(params, Gaps.Gap(newKey, newKey, startWeight), cachedWeight + startWeight);
      }
    }

    /** Extends the gap being built to `newKey`, and saves it once it is heavy enough. */
    method UpdateBuildingGap(newKey: Str, now: int)
      requires gapBuilding.Building? && GapsValid()
      requires BuildingBefore(newKey) && EndsIn(stream, newKey) && forall o :: o in Live(stream) ==> o.key != newKey
      modifies this`gapBuilding, this`refreshedBuildingParams, this`savedGaps
      ensures GapsValid() && BuildingUpTo(newKey)
      ensures var b := old(gapBuilding);
              var gap := Gaps.Gap(b.gap.firstKey, newKey, b.gap.weight + 1);
              var heavy := b.gapWeight + 1 >= b.params.minGapWeight && gap.weight >= b.params.triggerSaveGapWeight;
              && savedGaps == (if heavy && InWindow(b.params, now) then old(savedGaps) + [gap] else old(savedGaps))
              && (!heavy ==> gapBuilding == Building(b.params, gap, b.gapWeight + 1))
              && (heavy ==> gapBuilding == Expired || (gapBuilding.Building? && gapBuilding.gap.firstKey == newKey))
    {
      hide Live;
      hide Lt;
      ghost var before := gapBuilding.gap;
      Ordered();
      var Building(params, gap, gapWeight) := gapBuilding;
      gap := Gaps.Gap(gap.firstKey, newKey, gap.weight + 1);
      gapBuilding := Building(params, gap, gapWeight + 1);
      assert IsSound(stream, gap);
      if gapWeight + 1 >= params.minGapWeight && gap.weight >= params.triggerSaveGapWeight {
        var _ := SaveBuildingGap(now);
      }
    }

    /** Stops building, saving the gap if it is significant. */
    method CutBuildingGap(now: int)
      requires GapsValid()
      requires BuildingSound()
      modifies this`gapBuilding, this`refreshedBuildingParams, this`savedGaps
      ensures GapsValid() && !gapBuilding.Building?
      ensures old(gapBuilding).Building? ==>
                var b := old(gapBuilding);
                var significant := b.gapWeight >= b.params.minGapWeight && b.gap.weight > 0;
                && savedGaps == (if significant && InWindow(b.params, now) then old(savedGaps) + [b.gap]
                                 else old(savedGaps))
                && (gapBuilding == Expired <==> significant && !InWindow(b.params, now))
      ensures !old(gapBuilding).Building? ==> savedGaps == old(savedGaps) && gapBuilding == old(gapBuilding)
    {
      hide Live;
      if gapBuilding.Building? {
        var Building(params, gap, gapWeight) := gapBuilding;
        if gapWeight >= params.minGapWeight && gap.weight > 0 {
          var saved := SaveBuildingGap(now);
          if !saved {
            return;
          }
          params := gapBuilding.params;
        }
        gapBuilding := NotBuilding(params);
      }
    }

    // -------------------------------------------------------------------------
    // Skipping cached gaps

    /** What the entries from `p + 1` on still give, seen from an object that is not live. */
    ghost predicate PassedOver(p: nat, key: Str)
      reads this
    {
      && p < |stream| && WellFormed(stream, marker)
      && OutputValid() && GapsValid() && !isTruncated
      && MasterOf(stream[p].key) == key && StartsIn(stream, key)
      && (forall o :: o in Live(stream) ==> o.key != key)
      && items + Group(Live(stream[p+1..]), scope) == Listing()
    }

    /** No object has its master key after `key`, up to and including the entry at `p`. */
    lemma NoObjectUpTo(p: nat, key: Str, o: Object)
      requires p < |stream| && WellFormed(stream, marker) && MasterOf(stream[p].key) == key
      requires o in Live(stream) && Lt(key, o.key)
      ensures Lt(stream[p].key, o.key)
    {
      LiveIsStored(stream, o);
      if Le(o.key, stream[p].key) && IsVersionKey(stream[p].key) {
        BetweenVersions(key, o.key, stream[p].key);
      }
      MasterOfMaster(stream[p].key);
    }

    lemma MasterOfMaster(k: Str)
      ensures !IsVersionKey(k) ==> MasterOf(k) == k
      ensures Le(MasterOf(k), k)
    {
      if IsVersionKey(k) {
        MasterIsBefore(k);
        Transitive(MasterOf(k), k, k);
      } else {
        assert k[..|k|] == k;
        Transitive(k, k, k);
      }
    }

    /** The entries reach up to the entry at `p` and its object. */
    lemma EntryEnds(p: nat)
      requires p < |stream|
      ensures EndsIn(stream, stream[p].key) && EndsIn(stream, MasterOf(stream[p].key))
    {
      MasterOfMaster(stream[p].key);
      StrictTotalOrder(stream[p].key, stream[p].key, stream[p].key);
    }

    lemma StartsLater(k: Str, k': Str)
      requires StartsIn(stream, k) && Le(k, k')
      ensures StartsIn(stream, k')
    {
      hide Lt;
      var i :| 0 <= i < |stream| && Le(stream[i].key, k);
      Transitive(stream[i].key, k, k');
    }

    /** A gap built up to the deleted object `key` is built up to the entry at `p`. */
    lemma BuiltUpToEntry(p: nat, key: Str)
      requires p < |stream| && WellFormed(stream, marker) && MasterOf(stream[p].key) == key
      requires BuildingUpTo(key)
      ensures BuildingUpTo(stream[p].key)
    {
      hide Live;
      hide Lt;
      if gapBuilding.Building? {
        MasterOfMaster(stream[p].key);
        Transitive(gapBuilding.gap.lastKey, key, stream[p].key);
        forall o | o in Live(stream) && Lt(gapBuilding.gap.lastKey, o.key)
          ensures Lt(stream[p].key, o.key)
        {
          NoObjectUpTo(p, key, o);
        }
      }
    }

    /** Starts or extends the gap being built with the deleted object `key`. */
    method BuildOnDeleteMarker(key: Str, now: int, ghost p: nat)
      requires PassedOver(p, key) && BuildingBefore(key)
      modifies this`gapBuilding, this`refreshedBuildingParams, this`savedGaps
      ensures PassedOver(p, key) && BuildingUpTo(stream[p].key)
      ensures old(gapBuilding).NotBuilding? ==>
                gapBuilding.Building? && gapBuilding.gap == Gaps.Gap(key, key, 1) && savedGaps == old(savedGaps)
    {
      hide Live;
      hide Lt;
      hide WellFormed;
      hide HoldsNoObject;
      hide Group;
      hide MasterOf;
      hide OutputValid;
      EntryEnds(p);
      match gapBuilding {
        case Disabled =>
        case Expired =>
        case NotBuilding(_) =>
          CreateBuildingGap(key, 1, 0);
          Transitive(key, key, key);
          assert forall o :: o in Live(stream) ==> o.key != key;
          PointGap(Gaps.Gap(key, key, 1));
        case Building(_, _, _) =>
          UpdateBuildingGap(key, now);
      }
      BuiltUpToEntry(p, key);
    }

    lemma PointGap(gap: Gap)
      requires gap.firstKey == gap.lastKey && forall o :: o in Live(stream) ==> o.key != gap.firstKey
      requires StartsIn(stream, gap.firstKey) && EndsIn(stream, gap.lastKey)
      ensures IsSound(stream, gap)
    {
      hide Lt;
      hide Live;
      Ordered();
    }

    /** A deleted object lets the cached gap be entered exactly if it holds it, and a new
        gap be looked up exactly if none is left ahead. */
    twostate predicate HandledAsDeleted(key: Str, r: FilterResult)
      reads this
    {
      var cached := old(gapCaching);
      var within := cached.GapCached? && Gaps.Within(cached.gap, key);
      && r == (if within then FILTER_SKIP else FILTER_ACCEPT)
      && state == (if within then SkippingGap else SkippingVersions(Some(key)))
      && gapCaching == if cached.UnknownGap? || (cached.GapCached? && Lt(cached.gap.lastKey, key)
                                                 && Le(cached.gap.firstKey, key))
                       then GapLookupInProgress else cached
    }

    predicate IsObject(key: Str, value: Value) {
      !value.isDeleteMarker && !value.isPHD && !StartsWith(key, REPLAY_PREFIX)
    }

    /** An object that the page has room for is listed, and its versions are skipped if it is
        under no common prefix. */
    twostate predicate HandledAsLive(key: Str, value: Value, r: FilterResult)
      reads this
    {
      && gapCaching == old(gapCaching)
      && r == (if old(keys) >= maxKeys then FILTER_END else FILTER_ACCEPT)
      && (r.FILTER_ACCEPT? ==>
            && items == old(items) + [ItemOf(Object(key, value), scope)]
            && (CommonPrefixOf(key, scope.prefix, scope.delimiter) == None ==> state == SkippingVersions(Some(key))))
    }

    /** A version is passed over. */
    twostate predicate PassedBy(r: FilterResult)
      reads this
    {
      r == FILTER_SKIP && state == old(state) && gapCaching == old(gapCaching)
    }

    /** What an entry does from a state that waits for the next object. */
    twostate predicate Handled(e: Entry, r: FilterResult)
      reads this
    {
      && (IsVersionKey(e.key) ==> PassedBy(r))
      && (!IsVersionKey(e.key) && e.value.isDeleteMarker ==> HandledAsDeleted(e.key, r))
      && (!IsVersionKey(e.key) && IsObject(e.key, e.value) ==> HandledAsLive(e.key, e.value, r))
    }

    /** What an entry does within a cached gap, or right after it. */
    twostate predicate HandledInGap(e: Entry, r: FilterResult)
      reads this
    {
      old(gapCaching).GapCached? ==>
        && (Le(e.key, old(gapCaching).gap.lastKey) ==> PassedBy(r))
        && (Lt(old(gapCaching).gap.lastKey, e.key) && IsVersionKey(e.key) ==>
              r == FILTER_SKIP && state == SkippingVersions(None) && gapCaching == UnknownGap)
    }

    method CheckGapOnMasterDeleteMarker(key: Str, now: int, ghost p: nat) returns (r: FilterResult)
      requires PassedOver(p, key) && BuildingBefore(key) && state == SkippingVersions(Some(key))
      modifies this`state, this`gapCaching, this`gapBuilding, this`refreshedBuildingParams, this`savedGaps
      ensures Valid(p + 1) && HandledAsDeleted(key, r)
    {
      hide Live;
      hide Lt;
      hide WellFormed;
      hide HoldsNoObject;
      hide Group;
      hide StartsWith;
      hide IsVersionKey;
      hide MasterOf;
      hide DropPrefixed;
      hide Contents;
      hide CommonPrefixes;
      hide Current;
      hide OutputValid;
      BuildOnDeleteMarker(key, now, p);
      if gapCaching.GapCached? {
        var gapCached := gapCaching.gap;
        if Le(gapCached.firstKey, key) {
          if Le(key, gapCached.lastKey) {
            state := SkippingGap;
            StartsLater(key, gapCached.lastKey);
            EntersGap(p, key);
            if gapBuilding.Building? {
              // the gap will be chained to the cached one, which overlaps by one key
              var gap := gapBuilding.gap;
              gapBuilding := gapBuilding.(gap := Gaps.Gap(gap.firstKey, gap.lastKey, gap.weight - 1));
              SameRange(gap, gapBuilding.gap);
              CutBuildingGap(now);
            }
            return FILTER_SKIP;
          }
          gapCaching := UnknownGap;
        }
      }
      if gapCaching.UnknownGap? {
        TriggerGapLookup(key);
      }
      return FILTER_ACCEPT;
    }

    /** A deleted object of a cached gap is where the gap is entered. */
    lemma EntersGap(p: nat, key: Str)
      requires p < |stream| && WellFormed(stream, marker) && MasterOf(stream[p].key) == key
      requires gapCaching.GapCached? && Gaps.Within(gapCaching.gap, key)
      ensures IsAmongGap(p + 1)
    {
      hide Lt;
      hide Live;
      var gap := gapCaching.gap;
      MasterOfMaster(stream[p].key);
      Transitive(gap.firstKey, key, gap.lastKey);
      Transitive(gap.firstKey, key, stream[p].key);
      if p + 1 < |stream| {
        KeysAscend(p, p + 1);
        Transitive(gap.firstKey, stream[p].key, stream[p+1].key);
        Transitive(gap.firstKey, stream[p+1].key, gap.firstKey);
      }
      forall j | 0 <= j < p + 1 && Lt(gap.lastKey, stream[j].key)
        ensures IsVersionKey(stream[j].key)
      {
        Transitive(key, gap.lastKey, stream[j].key);
        if j < p {
          KeysAscend(j, p);
          Transitive(stream[j].key, stream[p].key, stream[p].key);
          StrictTotalOrder(key, stream[j].key, stream[p].key);
          BetweenVersions(key, stream[j].key, stream[p].key);
        }
        StrictTotalOrder(key, key, key);
      }
    }

    lemma SameRange(g: Gap, g': Gap)
      requires g'.firstKey == g.firstKey && g'.lastKey == g.lastKey
      ensures IsSound(stream, g) ==> IsSound(stream, g')
    {
    }

    /** Asks the gap cache for the next gap from `fromKey` on; the answer comes later. */
    method TriggerGapLookup(fromKey: Str)
      modifies this`gapCaching
      ensures gapCaching == GapLookupInProgress
    {
      gapCaching := GapLookupInProgress;
    }

    // -------------------------------------------------------------------------
    // Master keys

    method OnNewMasterKeyV0(key: Str, value: Value, now: int, ghost p: nat) returns (r: FilterResult)
      requires Ready(p, key, value)
      modifies this
      ensures if r.FILTER_END? then Done() else Valid(p + 1)
      ensures value.isDeleteMarker ==> HandledAsDeleted(key, r)
      ensures IsObject(key, value) ==> HandledAsLive(key, value, r)
    {
      hide Live;
      hide Lt;
      hide WellFormed;
      hide HoldsNoObject;
      hide Group;
      if value.isDeleteMarker {
        state := SkippingVersions(Some(key));
        r := CheckGapOnMasterDeleteMarker(key, now, p);
        return;
      }
      if value.isPHD {
        state := WaitVersionAfterPHD(key);
        return FILTER_ACCEPT;
      }
      CutBuildingGap(now);
      r := OnLiveObject(key, value, p);
    }

    /** The part of onNewMasterKeyV0 that deals with live objects. */
    method OnLiveObject(key: Str, value: Value, ghost p: nat) returns (r: FilterResult)
      requires Ready(p, key, value) && !value.isDeleteMarker && !value.isPHD && !gapBuilding.Building?
      modifies this
      ensures if r.FILTER_END? then Done() else Valid(p + 1)
      ensures IsObject(key, value) ==> HandledAsLive(key, value, r)
    {
      hide Live;
      hide Lt;
      hide WellFormed;
      hide HoldsNoObject;
      hide Group;
      hide StartsWith;
      hide IsVersionKey;
      hide MasterOf;
      hide DropPrefixed;
      hide Contents;
      hide CommonPrefixes;
      hide CommonPrefixOf;
      hide OutputValid;
      hide GapsValid;
      if StartsWith(key, REPLAY_PREFIX) {
        LiveIsNotReplay(stream[p+1..]);
        ReplayHasNoSeparator();
        EntryStartsWith(stream[p].key, key, REPLAY_PREFIX);
        state := SkippingPrefix(REPLAY_PREFIX);
        return FILTER_SKIP;
      }
      r := ListObject(key, value, p);
    }

    /** The part that lists them. */
    method ListObject(key: Str, value: Value, ghost p: nat) returns (r: FilterResult)
      requires Ready(p, key, value) && !value.isDeleteMarker && !value.isPHD && !gapBuilding.Building?
      requires !StartsWith(key, REPLAY_PREFIX)
      modifies this
      ensures if r.FILTER_END? then Done() else Valid(p + 1)
      ensures HandledAsLive(key, value, r)
    {
      hide Live;
      hide Lt;
      hide WellFormed;
      hide HoldsNoObject;
      hide Group;
      hide StartsWith;
      hide IsVersionKey;
      hide MasterOf;
      hide DropPrefixed;
      hide Contents;
      hide CommonPrefixes;
      hide CommonPrefixOf;
      hide OutputValid;
      hide GapsValid;
      GroupStep(Object(key, value), Live(stream[p+1..]), scope);
      var reached := ReachedMaxKeys();
      if reached {
        PageIsFull();
        return FILTER_END;
      }
      var commonPrefix := AddCommonPrefixOrContents(key, value);
      SkipListed(key, commonPrefix, p);
      return FILTER_ACCEPT;
    }

    /** What is skipped after an object has been listed: its common prefix, or its versions. */
    method SkipListed(key: Str, commonPrefix: Option<Str>, ghost p: nat)
      requires p < |stream| && WellFormed(stream, marker) && MasterOf(stream[p].key) == key
      requires OutputValid() && GapsValid() && !isTruncated && !gapBuilding.Building?
      requires commonPrefix == CommonPrefixOf(key, scope.prefix, scope.delimiter)
      requires var rest := Live(stream[p+1..]);
               items + Group(if commonPrefix.Some? then DropPrefixed(rest, commonPrefix.value) else rest, scope)
               == Listing()
      modifies this`state
      ensures Valid(p + 1)
      ensures state == if commonPrefix.Some? then SkippingPrefix(commonPrefix.value) else SkippingVersions(Some(key))
    {
      hide Live;
      hide Lt;
      hide WellFormed;
      hide HoldsNoObject;
      hide Group;
      hide StartsWith;
      hide IsVersionKey;
      hide MasterOf;
      hide DropPrefixed;
      hide Contents;
      hide CommonPrefixes;
      hide CommonPrefixOf;
      hide OutputValid;
      hide GapsValid;
      if commonPrefix.Some? {
        CommonPrefixStarts(key, scope.prefix, scope.delimiter);
        PrefixHasNoSeparator(key, commonPrefix.value);
        EntryStartsWith(stream[p].key, key, commonPrefix.value);
        state := SkippingPrefix(commonPrefix.value);
      } else {
        state := SkippingVersions(Some(key));
      }
    }

    lemma PageIsFull()
      requires OutputValid() && keys >= maxKeys && |items| < |Listing()| && items == Listing()[..|items|]
      ensures items == Page(Listing(), maxKeys) && (maxKeys > 0 ==> |Listing()| > maxKeys)
    {
      hide Group;
      hide Live;
      hide Contents;
      hide CommonPrefixes;
    }

    lemma ReplayHasNoSeparator()
      ensures !IsVersionKey(REPLAY_PREFIX)
    {
      NoSeparator(REPLAY_PREFIX);
    }

    /** Whether the page is full; if so, the listing is over. */
    method ReachedMaxKeys() returns (reached: bool)
      modifies this`isTruncated
      ensures reached == (keys >= maxKeys)
      ensures isTruncated == if reached then maxKeys > 0 else old(isTruncated)
    {
      if keys >= maxKeys {
        isTruncated := maxKeys > 0;
        return true;
      }
      return false;
    }

    method AddContents(key: Str, value: Value)
      requires OutputValid() && keys < maxKeys
      modifies this`contents, this`keys, this`nextMarker, this`items
      ensures OutputValid() && items == old(items) + [Content(key, value)]
    {
      contents := contents + [Object(key, value)];
      keys := keys + 1;
      nextMarker := key;
      ghost var item := Content(key, value);
      items := items + [item];
      assert items[..|items|-1] == old(items);
    }

    method AddCommonPrefix(commonPrefix: Str)
      requires OutputValid() && keys < maxKeys
      modifies this`commonPrefixes, this`keys, this`nextMarker, this`items
      ensures OutputValid() && items == old(items) + [CommonPrefix(commonPrefix)]
    {
      commonPrefixes := commonPrefixes + [commonPrefix];
      keys := keys + 1;
      nextMarker := commonPrefix;
      ghost var item := CommonPrefix(commonPrefix);
      items := items + [item];
      assert items[..|items|-1] == old(items);
    }

    method AddCommonPrefixOrContents(key: Str, value: Value) returns (commonPrefix: Option<Str>)
      requires OutputValid() && keys < maxKeys
      modifies this`contents, this`commonPrefixes, this`keys, this`nextMarker, this`items
      ensures OutputValid() && items == old(items) + [ItemOf(Object(key, value), scope)]
      ensures commonPrefix == CommonPrefixOf(key, scope.prefix, scope.delimiter)
    {
      commonPrefix := CommonPrefixOf(key, scope.prefix, scope.delimiter);
      if commonPrefix.Some? {
        AddCommonPrefix(commonPrefix.value);
      } else {
        AddContents(key, value);
      }
    }

    // -------------------------------------------------------------------------
    // Key handlers

    /** The machine is about to handle the entry at position `p`, and what is still to be
        listed are the live objects from there on. */
    ghost predicate AtEntry(p: nat)
      reads this
    {
      && p < |stream| && WellFormed(stream, marker)
      && OutputValid() && GapsValid() && !isTruncated
      && BuildingBefore(stream[p].key)
      && items + Group(Live(stream[p..]), scope) == Listing()
    }

    lemma KeysAscend(i: nat, j: nat)
      requires WellFormed(stream, marker) && i < j < |stream|
      ensures Lt(stream[i].key, stream[j].key)
    {
    }

    lemma VersionFollows(p: nat)
      requires WellFormed(stream, marker) && p < |stream|
      ensures IsVersionKey(stream[p].key) ==>
                if p > 0 then MasterOf(stream[p].key) == MasterOf(stream[p-1].key)
                else marker != [] && MasterOf(stream[p].key) == marker
    {
    }

    /** No object has its master key strictly between two consecutive entries. */
    lemma NextObject(p: nat, o: Object)
      requires 0 < p < |stream| && WellFormed(stream, marker)
      requires o in Live(stream) && Lt(stream[p-1].key, o.key)
      ensures Le(stream[p].key, o.key)
    {
      hide Lt;
      hide WellFormed;
      LiveIsStored(stream, o);
      var j :| 0 <= j < |stream| && stream[j].key == o.key;
      Ordered();
      if j < p - 1 {
        KeysAscend(j, p - 1);
      } else if p < j {
        KeysAscend(p, j);
      }
    }

    /** A gap built up to an entry is built before the next one. */
    lemma BuiltBeforeNext(p: nat)
      requires 0 < p < |stream| && WellFormed(stream, marker) && BuildingUpTo(stream[p-1].key)
      ensures BuildingBefore(stream[p].key)
    {
      hide Lt;
      hide Live;
      hide WellFormed;
      if gapBuilding.Building? {
        KeysAscend(p - 1, p);
        Transitive(gapBuilding.gap.lastKey, stream[p-1].key, stream[p].key);
        forall o | o in Live(stream) && Lt(gapBuilding.gap.lastKey, o.key)
          ensures Le(stream[p].key, o.key)
        {
          NextObject(p, o);
        }
      }
    }

    /** A version key is no live object. */
    lemma VersionIsNoObject(k: Str)
      requires IsVersionKey(k)
      ensures forall o :: o in Live(stream) ==> o.key != k
    {
      forall o | o in Live(stream)
        ensures o.key != k
      {
        LiveIsStored(stream, o);
      }
    }

    lemma ReadyAtMaster(p: nat)
      requires AtEntry(p) && !IsVersionKey(stream[p].key)
      ensures Ready(p, stream[p].key, stream[p].value)
    {
      hide Lt;
      var e, rest := stream[p], stream[p+1..];
      assert stream[p..] == [e] + rest;
      assert Live(stream[p..]) == WithObject(e.value, e.key, rest, Live(rest));
      MasterOfMaster(e.key);
      forall o | o in Live(stream) && o.key == e.key
        ensures Current(e.value, e.key, rest).Some?
      {
        forall j | 0 <= j < p
          ensures stream[j].key != e.key
        {
          KeysAscend(j, p);
          StrictTotalOrder(stream[j].key, e.key, e.key);
        }
        LiveFrom(stream, p, o);
        NotInRest(p, o);
      }
    }

    lemma NotInRest(p: nat, o: Object)
      requires p < |stream| && WellFormed(stream, marker) && o.key == stream[p].key
      ensures o !in Live(stream[p+1..])
    {
      hide Lt;
      if o in Live(stream[p+1..]) {
        LiveIsStored(stream[p+1..], o);
        var j :| 0 <= j < |stream[p+1..]| && stream[p+1..][j].key == o.key;
        KeysAscend(p, p + 1 + j);
        StrictTotalOrder(o.key, o.key, o.key);
      }
    }

    method KeyHandlerNotSkipping(e: Entry, now: int, ghost p: nat) returns (r: FilterResult)
      requires p < |stream| && e == stream[p] && Valid(p) && state.NotSkipping?
      modifies this
      ensures if r.FILTER_END? then Done() else Valid(p + 1)
      ensures Handled(e, r)
    {
      VersionFollows(p);
      ReadyAtMaster(p);
      r := OnNewMasterKeyV0(e.key, e.value, now, p);
    }

    method KeyHandlerSkippingVersions(e: Entry, now: int, ghost p: nat) returns (r: FilterResult)
      requires AtEntry(p) && e == stream[p] && state.SkippingVersions?
      requires IsVersionKey(e.key) ==> state.masterKey == None || state.masterKey == Some(MasterOf(e.key))
      modifies this
      ensures if r.FILTER_END? then Done() else Valid(p + 1)
      ensures Handled(e, r)
    {
      hide Lt;
      hide WellFormed;
      hide Group;
      hide HoldsNoObject;
      if IsVersionKey(e.key) {
        assert Live(stream[p..]) == Live(stream[p+1..]) by {
          assert stream[p..][1..] == stream[p+1..];
        }
        hide Live;
        if gapBuilding.Building? {
          VersionIsNoObject(e.key);
          EntryEnds(p);
          UpdateBuildingGap(e.key, now);
        }
        return FILTER_SKIP;
      }
      ReadyAtMaster(p);
      r := OnNewMasterKeyV0(e.key, e.value, now, p);
    }

    /** The entry at position `p` is the version that a placeholder stands for. */
    lemma ReadyAfterPHD(p: nat)
      requires Valid(p) && state.WaitVersionAfterPHD? && p < |stream|
      requires IsVersionOf(stream[p], state.phdKey)
      ensures Ready(p, state.phdKey, stream[p].value)
    {
      hide Lt;
      hide WellFormed;
      var m, e, rest := state.phdKey, stream[p], stream[p+1..];
      assert stream[p..] == [e] + rest;
      assert Live(stream[p..]) == Live(rest);
      assert Current(PHD, m, stream[p..]) == Current(e.value, m, rest);
    }

    /** No version of the object with a placeholder follows. */
    lemma MasterAfterPHD(p: nat)
      requires Valid(p) && state.WaitVersionAfterPHD? && p < |stream|
      requires !IsVersionOf(stream[p], state.phdKey)
      ensures AtEntry(p) && !IsVersionKey(stream[p].key)
    {
      hide Lt;
      var m, e := state.phdKey, stream[p];
      assert Current(PHD, m, stream[p..]) == None;
      assert !IsVersionKey(e.key);
      hide Live;
      if gapBuilding.Building? {
        MasterOfMaster(stream[p-1].key);
        KeysAscend(p - 1, p);
        Transitive(m, stream[p-1].key, e.key);
        Transitive(gapBuilding.gap.lastKey, m, e.key);
        Transitive(gapBuilding.gap.lastKey, e.key, e.key);
        forall o | o in Live(stream) && Lt(gapBuilding.gap.lastKey, o.key)
          ensures Le(e.key, o.key)
        {
          Transitive(m, o.key, o.key);
          NoObjectUpTo(p - 1, m, o);
          NextObject(p, o);
        }
      }
    }

    method KeyHandlerWaitVersionAfterPHD(e: Entry, now: int, ghost p: nat) returns (r: FilterResult)
      requires p < |stream| && e == stream[p] && Valid(p) && state.WaitVersionAfterPHD?
      modifies this
      ensures if r.FILTER_END? then Done() else Valid(p + 1)
    {
      hide Lt;
      var phdKey := state.phdKey;
      if IsVersionKey(e.key) {
        var masterKey := MasterOf(e.key);
        if masterKey == phdKey {
          ReadyAfterPHD(p);
          r := OnNewMasterKeyV0(masterKey, e.value, now, p);
          return;
        }
      }
      MasterAfterPHD(p);
      ReadyAtMaster(p);
      r := OnNewMasterKeyV0(e.key, e.value, now, p);
    }

    /** An entry under the prefix being skipped adds nothing. */
    lemma SkipPrefixed(p: nat)
      requires Valid(p) && state.SkippingPrefix? && p < |stream|
      requires StartsWith(stream[p].key, state.prefix)
      ensures Ahead(state, stream[p+1..]) == Ahead(state, stream[p..])
    {
      hide Lt;
      hide WellFormed;
      assert stream[p..] == [stream[p]] + stream[p+1..];
    }

    /** After an entry under a prefix, an entry outside of it ends the prefix. */
    lemma PrefixIsOver(p: nat)
      requires Valid(p) && state.SkippingPrefix? && p < |stream|
      requires !StartsWith(stream[p].key, state.prefix)
      ensures AtEntry(p) && !IsVersionKey(stream[p].key)
    {
      hide Lt;
      var q, rest := state.prefix, stream[p..];
      if IsVersionKey(stream[p].key) {
        assert MasterOf(stream[p].key) == MasterOf(stream[p-1].key);
        PrefixOfMaster(stream[p-1].key, q);
        EntryStartsWith(stream[p].key, MasterOf(stream[p].key), q);
      }
      if Live(rest) != [] && StartsWith(Live(rest)[0].key, q) {
        LiveIsStored(rest, Live(rest)[0]);
        var j :| 0 <= j < |rest| && rest[j].key == Live(rest)[0].key;
        KeysAscend(p - 1, p);
        if j > 0 {
          KeysAscend(p, p + j);
        }
        Transitive(stream[p-1].key, stream[p].key, stream[p].key);
        Transitive(stream[p].key, stream[p+j].key, stream[p+j].key);
        StartsWithBetween(stream[p-1].key, stream[p].key, stream[p+j].key, q);
      }
    }

    method KeyHandlerSkippingPrefix(e: Entry, now: int, ghost p: nat) returns (r: FilterResult)
      requires p < |stream| && e == stream[p] && Valid(p) && state.SkippingPrefix?
      modifies this
      ensures if r.FILTER_END? then Done() else Valid(p + 1)
    {
      hide Lt;
      hide WellFormed;
      hide Ahead;
      if StartsWith(e.key, state.prefix) {
        SkipPrefixed(p);
        return FILTER_SKIP;
      }
      PrefixIsOver(p);
      state := NotSkipping;
      ReadyAtMaster(p);
      r := OnNewMasterKeyV0(e.key, e.value, now, p);
    }

    /** An entry within the cached gap adds nothing. */
    lemma SkipInGap(p: nat)
      requires Valid(p) && state.SkippingGap? && p < |stream|
      requires Le(stream[p].key, gapCaching.gap.lastKey)
      ensures Live(stream[p+1..]) == Live(stream[p..])
      ensures IsAmongGap(p + 1)
    {
      hide Lt;
      var gap, e, rest := gapCaching.gap, stream[p], stream[p+1..];
      assert stream[p..] == [e] + rest;
      if p + 1 < |stream| {
        KeysAscend(p, p + 1);
        Transitive(gap.firstKey, e.key, stream[p+1].key);
        Transitive(gap.firstKey, stream[p+1].key, gap.firstKey);
      }
      Transitive(gap.lastKey, e.key, gap.lastKey);
      StrictTotalOrder(gap.lastKey, e.key, gap.lastKey);
      if !IsVersionKey(e.key) && Live(stream[p..]) != Live(rest) {
        var o := Live(stream[p..])[0];
        assert o.key == e.key;
        LiveFrom(stream, p, o);
      }
    }

    /** The first entry beyond the cached gap; a gap may be continued from its last key. */
    lemma GapIsOver(p: nat)
      requires Valid(p) && state.SkippingGap? && p < |stream|
      requires Lt(gapCaching.gap.lastKey, stream[p].key)
      ensures p > 0
      ensures forall o :: o in Live(stream) && Lt(gapCaching.gap.lastKey, o.key) ==> Le(stream[p].key, o.key)
      ensures forall o :: o in Live(stream) ==> o.key != gapCaching.gap.lastKey
      ensures EndsIn(stream, gapCaching.gap.lastKey)
    {
      hide Lt;
      hide Live;
      hide WellFormed;
      var gap := gapCaching.gap;
      var i :| 0 <= i < |stream| && Le(stream[i].key, gap.lastKey);
      if p <= i {
        if p < i {
          KeysAscend(p, i);
        }
        Ordered();
        assert false;
      }
      Transitive(gap.lastKey, stream[p].key, stream[p].key);
      assert Gaps.Within(gap, gap.lastKey) by {
        StrictTotalOrder(gap.lastKey, gap.lastKey, gap.lastKey);
      }
      forall o | o in Live(stream) && Lt(gap.lastKey, o.key)
        ensures Le(stream[p].key, o.key)
      {
        LiveIsStored(stream, o);
        var j :| 0 <= j < |stream| && stream[j].key == o.key && !IsVersionKey(o.key);
        if p < j {
          KeysAscend(p, j);
        }
        Transitive(stream[p].key, stream[j].key, o.key);
        Transitive(o.key, o.key, o.key);
      }
    }

    method KeyHandlerSkippingGap(e: Entry, now: int, ghost p: nat) returns (r: FilterResult)
      requires p < |stream| && e == stream[p] && Valid(p) && state.SkippingGap?
      modifies this
      ensures if r.FILTER_END? then Done() else Valid(p + 1)
      ensures HandledInGap(e, r)
    {
      hide Lt;
      hide WellFormed;
      hide Live;
      hide Group;
      hide IsVersionKey;
      hide MasterOf;
      var gapCached := gapCaching.gap;
      if Le(e.key, gapCached.lastKey) {
        SkipInGap(p);
        return FILTER_SKIP;
      }
      GapIsOver(p);
      gapCaching := UnknownGap;
      state := SkippingVersions(None);
      CreateBuildingGap(gapCached.lastKey, 0, gapCached.weight);
      PointGap(Gaps.Gap(gapCached.lastKey, gapCached.lastKey, 0));
      r := KeyHandlerSkippingVersions(e, now, p);
    }

    /** Handles the next raw entry. */
    method Filter(e: Entry, now: int, ghost p: nat) returns (r: FilterResult)
      requires p < |stream| && e == stream[p] && Valid(p)
      modifies this
      ensures if r.FILTER_END? then Done() else Valid(p + 1)
      ensures old(state).NotSkipping? || old(state).SkippingVersions? ==> Handled(e, r)
      ensures old(state).SkippingGap? ==> HandledInGap(e, r)
    {
      hide Lt;
      hide Live;
      hide Group;
      hide HoldsNoObject;
      match state {
        case NotSkipping => r := KeyHandlerNotSkipping(e, now, p);
        case SkippingPrefix(_) => r := KeyHandlerSkippingPrefix(e, now, p);
        case SkippingVersions(_) =>
          VersionFollows(p);
          if p > 0 {
            BuiltBeforeNext(p);
          }
          r := KeyHandlerSkippingVersions(e, now, p);
        case WaitVersionAfterPHD(_) => r := KeyHandlerWaitVersionAfterPHD(e, now, p);
        case SkippingGap => r := KeyHandlerSkippingGap(e, now, p);
      }
    }

    // -------------------------------------------------------------------------
    // Gap cache events

    constructor (scope: Scope, marker: Str, maxKeys: int, exposureDelayMs: int, ghost stream: seq<Entry>)
      requires WellFormed(stream, marker)
      ensures Valid(0) && savedGaps == [] && gapCaching.NoGapCache?
      ensures this.scope == scope && this.marker == marker && this.exposureDelayMs == exposureDelayMs
      ensures this.maxKeys == (if maxKeys == 0 then 1000 else maxKeys) && this.stream == stream
    {
      this.scope := scope;
      this.marker := marker;
      this.maxKeys := if maxKeys == 0 then 1000 else maxKeys;
      this.exposureDelayMs := exposureDelayMs;
      this.stream := stream;
      state := if marker != [] then SkippingVersions(Some(marker)) else NotSkipping;
      keys := 0;
      contents := [];
      commonPrefixes := [];
      nextMarker := marker;
      isTruncated := false;
      gapCaching := NoGapCache;
      gapBuilding := Disabled;
      refreshedBuildingParams := None;
      savedGaps := [];
      items := [];
      new;
      assert stream[0..] == stream;
    }

    /** Starts using the gap cache, or opens a new time window for building gaps. */
    method RefreshGapCache(minGapWeight: int, triggerSaveGapWeight: int, maxGapWeight: int, now: int,
                           ghost p: nat)
      requires Valid(p)
      modifies this`gapCaching, this`gapBuilding, this`refreshedBuildingParams
      ensures Valid(p)
      ensures gapCaching == if old(gapCaching).NoGapCache? then UnknownGap else old(gapCaching)
      ensures var params := BuildingParams(
                if minGapWeight == 0 then 100 else minGapWeight,
                if triggerSaveGapWeight == 0 then Half(maxGapWeight) else triggerSaveGapWeight, now);
              if old(gapBuilding).Building?
              then refreshedBuildingParams == Some(params) && gapBuilding == old(gapBuilding)
              else gapBuilding == NotBuilding(params)
    {
      hide Live;
      hide Group;
      hide Lt;
      hide WellFormed;
      hide HoldsNoObject;
      hide OutputValid;
      hide MasterOf;
      hide IsVersionKey;
      hide StartsWith;
      hide Current;
      hide DropPrefixed;
      if gapCaching.NoGapCache? {
        gapCaching := UnknownGap;
      }
      var params := BuildingParams(
        if minGapWeight != 0 then minGapWeight else 100,
        if triggerSaveGapWeight != 0 then triggerSaveGapWeight else Half(maxGapWeight),
        now);
      if gapBuilding.Building? {
        refreshedBuildingParams := Some(params);
      } else {
        gapBuilding := NotBuilding(params);
      }
    }

    /** The answer to a gap lookup, which may come at any time after it was triggered. */
    method OnGapLookup(answer: Option<Gap>, ghost p: nat)
      requires Valid(p) && gapCaching.GapLookupInProgress?
      requires answer.Some? ==> HoldsNoObject(stream, answer.value)
      modifies this`gapCaching
      ensures Valid(p)
      ensures gapCaching == if answer.Some? then GapCached(answer.value) else NoMoreGap
    {
      hide Live;
      hide Group;
      if answer.Some? {
        gapCaching := GapCached(answer.value);
      } else {
        gapCaching := NoMoreGap;
      }
    }

    // -------------------------------------------------------------------------
    // Jumps

    /** The key from which the listing may continue after a skipped entry.  A gap that has
        just been left leaves a state without master key, which reads as "undefined". */
    function SkippingBase(): Option<Str>
      reads this
      requires state.SkippingGap? ==> gapCaching.GapCached?
    {
      match state
      case SkippingVersions(Some(m)) => Some(m + Inc([VID_SEP]))
      case SkippingVersions(None) => Some(UNDEFINED_TARGET)
      case SkippingGap => Some(gapCaching.gap.lastKey)
      case SkippingPrefix(q) => Some(Inc(q))
      case _ => None
    }

    /** Whether the listing may go on from the skip target, when `lastKey` is the last key
        read.  A state without master key passes over versions of "undefined" only, and reads
        again what is beyond them; and a prefix has to be a range. */
    predicate JumpIsSafe(lastKey: Str)
      reads this`state
    {
      && (state.SkippingVersions? && state.masterKey.None? ==>
            Le(UNDEFINED, lastKey) && Lt(lastKey, UNDEFINED_TARGET))
      && (state.SkippingPrefix? ==> state.prefix != [] && state.prefix[|state.prefix|-1] < 0xFFFF)
    }

    /** The skip target is beyond the last key read, but for the end of a cached gap. */
    lemma TargetIsAhead(p: nat)
      requires Valid(p) && 0 < p && JumpIsSafe(stream[p-1].key)
      requires SkippingBase().Some? && !state.SkippingGap?
      ensures Lt(stream[p-1].key, SkippingBase().value)
    {
      hide Lt;
      hide Live;
      hide WellFormed;
      hide Group;
      var last := stream[p-1].key;
      match state {
        case SkippingVersions(m) =>
          if m.Some? {
            VersionsAreBefore(last, m.value);
          }
        case SkippingPrefix(q) =>
          PrefixIsRange(last, q);
      }
    }

    lemma VersionsAreBefore(k: Str, m: Str)
      requires MasterOf(k) == m
      ensures Lt(k, m + Inc([VID_SEP]))
    {
      hide Lt;
      var first := m + [0];
      assert Inc(first) == m + Inc([VID_SEP]);
      assert StartsWith(first, first);
      PrefixIsRange(first, first);
      NextString(m, first);
      Transitive(m, first, Inc(first));
      Transitive(first, first, first);
      MasterOfMaster(k);
      if IsVersionKey(k) {
        VersionStartsWith(k);
        PrefixIsRange(k, first);
      }
    }

    /** An entry before the skip target would be skipped. */
    lemma SkippedEntry(p: nat)
      requires Valid(p) && p < |stream|
      requires !state.SkippingGap? ==> 0 < p && JumpIsSafe(stream[p-1].key)
      requires SkippingBase().Some? && Lt(stream[p].key, SkippingBase().value)
      ensures Valid(p + 1) && JumpIsSafe(stream[p].key)
    {
      hide Lt;
      hide Group;
      if p > 0 {
        KeysAscend(p - 1, p);
      }
      var k := stream[p].key;
      match state {
        case SkippingVersions(m) =>
          if m == None {
            VersionsOfUndefined(stream[p-1].key, k);
          } else {
            VersionsUpTo(m.value, stream[p-1].key, k);
          }
          assert stream[p..][1..] == stream[p+1..];
          BuiltBeforeNext(p);
          VersionIsNoObject(k);
          BuiltPastVersion(k);
        case SkippingPrefix(q) =>
          PrefixUpTo(q, stream[p-1].key, k);
          SkipPrefixed(p);
        case SkippingGap =>
          Transitive(k, gapCaching.gap.lastKey, k);
          SkipInGap(p);
      }
    }

    lemma BuiltPastVersion(k: Str)
      requires BuildingBefore(k) && forall o :: o in Live(stream) ==> o.key != k
      ensures BuildingUpTo(k)
    {
      hide Lt;
      hide Live;
      Ordered();
    }

    lemma VersionsUpTo(m: Str, k0: Str, k: Str)
      requires MasterOf(k0) == m && Lt(k0, k) && Lt(k, m + Inc([VID_SEP]))
      ensures IsVersionKey(k) && MasterOf(k) == m
    {
      hide Lt;
      MasterOfMaster(k0);
      Transitive(m, k0, k);
      NextString(m, k);
      assert Inc(m + [0]) == m + Inc([VID_SEP]);
      PrefixIsRange(k, m + [0]);
      StartsWithVersion(k, m);
    }

    lemma PrefixUpTo(q: Str, k0: Str, k: Str)
      requires StartsWith(k0, q) && Lt(k0, k) && Lt(k, Inc(q)) && (q != [] ==> q[|q|-1] < 0xFFFF)
      ensures StartsWith(k, q)
    {
      hide Lt;
      if q != [] {
        PrefixIsLe(k0, q);
        Transitive(q, k0, k);
        Transitive(q, k, k);
        PrefixIsRange(k, q);
      }
    }

    /** A key that comes after the last one read would be skipped. */
    ghost predicate IsPassedOver(k: Str)
      reads this`state, this`gapCaching
    {
      match state
      case SkippingVersions(m) => IsVersionKey(k) && m == Some(MasterOf(k))
      case SkippingPrefix(q) => StartsWith(k, q)
      case SkippingGap => gapCaching.GapCached? && Le(k, gapCaching.gap.lastKey)
      case _ => false
    }

    /**
      There is a skip target in exactly the states in which something is skipped.  Of the keys
      that come after the last one read, those before the target are exactly those that would
      be skipped; only the last key of a cached gap is both the target and skipped.
     */
    lemma TargetIsExact(p: nat, k: Str)
      requires Valid(p) && 0 < p && Lt(stream[p-1].key, k) && JumpIsSafe(stream[p-1].key)
      ensures SkippingBase().Some? <==> state.SkippingVersions? || state.SkippingPrefix? || state.SkippingGap?
      ensures SkippingBase().Some? && !(state.SkippingVersions? && state.masterKey.None?) ==>
                (IsPassedOver(k) <==>
                   Lt(k, SkippingBase().value) || (state.SkippingGap? && k == SkippingBase().value))
    {
      hide Lt;
      hide Live;
      hide WellFormed;
      hide Group;
      var last := stream[p-1].key;
      match state {
        case SkippingVersions(Some(m)) =>
          if Lt(k, SkippingBase().value) {
            VersionsUpTo(m, last, k);
          }
          if IsVersionKey(k) && MasterOf(k) == m {
            VersionsAreBefore(k, m);
          }
        case SkippingPrefix(q) => PrefixIsRange(k, q);
          PrefixIsRange(last, q);
          if Lt(k, Inc(q)) {
            PrefixUpTo(q, last, k);
          }
        case SkippingGap => Ordered();
        case _ =>
      }
    }

    /** Reading on from the first entry at or after a target that is ahead. */
    lemma {:induction false} ForwardIsSound(p: nat, q: nat)
      requires Valid(p) && 0 < p <= q <= |stream| && JumpIsSafe(stream[p-1].key)
      requires SkippingBase().Some?
      requires forall j :: p <= j < q ==> Lt(stream[j].key, SkippingBase().value)
      ensures Valid(q)
      decreases q - p
    {
      hide *;
      if p < q {
        SkippedEntry(p);
        ForwardIsSound(p + 1, q);
      }
    }

    /** Within a cached gap, reading again what is at or after its last key. */
    lemma {:induction false} RereadingIsSound(p: nat, q: nat)
      requires Valid(p) && state.SkippingGap? && q <= p
      requires q < p ==> Le(gapCaching.gap.lastKey, stream[q].key)
      ensures Valid(q)
      decreases p - q
    {
      hide Lt;
      hide Group;
      hide Live;
      if q < p {
        var gap, k := gapCaching.gap, stream[p-1].key;
        if q < p - 1 {
          KeysAscend(q, p - 1);
        }
        Transitive(gap.lastKey, stream[q].key, k);
        Transitive(gap.lastKey, k, k);
        OneBack(p);
        RereadingIsSound(p - 1, q);
      }
    }

    lemma OneBack(p: nat)
      requires Valid(p) && state.SkippingGap? && p > 0 && Le(gapCaching.gap.lastKey, stream[p-1].key)
      ensures Valid(p - 1)
    {
      hide Lt;
      hide Group;
      hide Live;
      Transitive(gapCaching.gap.firstKey, gapCaching.gap.lastKey, stream[p-1].key);
      SameLive(p);
    }

    /** An entry past the cached gap that has been read there is of no object. */
    lemma SameLive(p: nat)
      requires Valid(p) && state.SkippingGap? && p > 0 && Le(gapCaching.gap.lastKey, stream[p-1].key)
      ensures Live(stream[p-1..]) == Live(stream[p..])
    {
      hide Lt;
      hide Group;
      hide OutputValid;
      var gap, e := gapCaching.gap, stream[p-1];
      assert stream[p-1..] == [e] + stream[p..];
      if !IsVersionKey(e.key) && Live(stream[p-1..]) != Live(stream[p..]) {
        var o := Live(stream[p-1..])[0];
        assert o.key == e.key;
        LiveFrom(stream, p - 1, o);
        Ordered();
      }
    }

    /** Position `q` is that of the first entry at or after the target. */
    ghost predicate IsFirstFrom(q: nat, target: Str) {
      && q <= |stream| && (q < |stream| ==> Le(target, stream[q].key))
      && forall j :: 0 <= j < q ==> Lt(stream[j].key, target)
    }

    /**
      Jumps are sound: where it is safe, going on from the first of all entries at or after
      the target, read before or not, is the same as reading all the rest.
     */
    lemma JumpIsSound(p: nat, q: nat)
      requires Valid(p) && 0 < p && SkippingBase().Some? && JumpIsSafe(stream[p-1].key)
      requires IsFirstFrom(q, SkippingBase().value)
      ensures Valid(q) && (q < p ==> state.SkippingGap?)
    {
      hide Lt;
      hide Live;
      hide Group;
      hide WellFormed;
      hide StateValid;
      if p <= q {
        ForwardIsSound(p, q);
      } else if state.SkippingGap? {
        RereadingIsSound(p, q);
      } else {
        TargetIsAhead(p);
        TargetNotRead(p, q, SkippingBase().value);
      }
    }

    lemma TargetNotRead(p: nat, q: nat, target: Str)
      requires WellFormed(stream, marker) && q < p <= |stream|
      requires Lt(stream[p-1].key, target)
      ensures Lt(stream[q].key, target)
      ensures !Le(target, stream[q].key)
    {
      hide Lt;
      if q < p - 1 {
        KeysAscend(q, p - 1);
      }
      Ordered();
    }

    // -------------------------------------------------------------------------
    // Results

    /** With nothing left to read, the listing is complete. */
    lemma EndOfStream()
      requires Valid(|stream|)
      ensures Done() && !isTruncated
    {
      hide Lt;
      hide WellFormed;
      assert stream[|stream|..] == [];
      assert Ahead(state, []) == [];
    }

    method Result(v2: bool, now: int) returns (r: ListingResult)
      requires Done()
      requires BuildingSound()
      modifies this`gapBuilding, this`refreshedBuildingParams, this`savedGaps
      ensures GapsValid()
      ensures r == PageResult(Listing(), maxKeys, marker, scope.delimiter, v2)
    {
      hide Live;
      hide Group;
      CutBuildingGap(now);
      r := ListingResult(
        contents, commonPrefixes, isTruncated,
        if isTruncated && scope.delimiter != [] && !v2 then Some(nextMarker) else None,
        if isTruncated && v2 then Some(nextMarker) else None);
    }
  }
}
