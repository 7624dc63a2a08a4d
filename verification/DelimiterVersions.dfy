/**
  The listing of versions in the v0 format: a state machine that is fed raw entries in
  order and may be told to jump ahead.  It keeps a null version aside until its place in
  the order of version ids comes.  It is proved to take the steps of `VersionListing`.
 */
module VersionsDelimiter {
  import opened Strings
  import opened Keys
  import opened Paging
  import opened VersionListing
  import Versions

  datatype FilterState = NotSkipping | SkippingPrefix(prefix: Str) | SkippingVersions(gt: Str)

  /** What a listing passes over at its start: versions up to the marker. */
  function StartOf(start: Marker): Skipping {
    if start.versionId != [] then UpTo(start.key, start.versionId) else Nothing
  }

  /** The steps of listing a stream of raw entries from a marker. */
  function StepsFrom(stream: seq<Entry>, start: Marker, scope: Scope): seq<Step> {
    Steps(Drop(Flow(None, stream), StartOf(start)), None, scope)
  }

  /** The raw entries are sorted; those for a version id marker start with the versions of
      its key. */
  ghost predicate IsStream(stream: seq<Entry>, start: Marker) {
    && SortedEntries(stream)
    && (start.versionId != [] ==>
          && start.key != [] && !IsVersionKey(start.key)
          && forall e :: e in stream ==> Le(start.key + [VID_SEP], e.key))
  }

  /** Version keys follow their master key, or belong to the marker. */
  ghost predicate HasMasters(stream: seq<Entry>, start: Marker) {
    && (stream != [] && IsVersionKey(stream[0].key) ==> MasterOf(stream[0].key) == start.key)
    && (forall i :: 0 < i < |stream| && IsVersionKey(stream[i].key) ==>
          MasterOf(stream[i].key) == MasterOf(stream[i-1].key))
  }

  class DelimiterVersions {
    const scope: Scope
    const start: Marker
    const maxKeys: int

    var state: FilterState
    var masterKey: Option<Str>
    var masterVersionId: Option<Str>
    /** The null version of the current object, until its place comes. */
    var nullKey: Option<Event>
    var keys: int
    var commonPrefixes: seq<Str>
    var versions: seq<Item>
    var isTruncated: bool
    var nextKeyMarker: Str
    var nextVersionIdMarker: Str

    /** The raw entries to list, the steps taken so far, and whether one was refused. */
    ghost const stream: seq<Entry>
    ghost var done: seq<Step>
    ghost var over: bool

    ghost function Plan(): seq<Step> {
      StepsFrom(stream, start, scope)
    }

    ghost function LastMaster(): Master
      reads this`masterKey, this`masterVersionId
    {
      if masterKey.Some? && masterVersionId.Some? then Some((masterKey.value, masterVersionId.value)) else None
    }

    ghost function CurrentSkipping(): Skipping
      reads this`state
    {
      match state
      case NotSkipping => Nothing
      case SkippingPrefix(p) => Under(p)
      case SkippingVersions(_) => StartOf(start)
    }

    ghost predicate OutputValid()
      reads this`done, this`keys, this`commonPrefixes, this`versions, this`nextKeyMarker, this`nextVersionIdMarker
    {
      var items := Items(done);
      && keys == |items| && (keys <= maxKeys || keys == 0)
      && commonPrefixes == PrefixesIn(items) && versions == VersionsIn(items)
      && Marker(nextKeyMarker, nextVersionIdMarker) == NextMarker(items, Marker(start.key, []))
      && (done != [] && done[|done|-1].Again? ==> keys < maxKeys)
    }

    /** A further step was refused because the page is full. */
    ghost predicate IsFull()
      reads this`keys, this`isTruncated, this`done
    {
      && keys >= maxKeys && isTruncated == (maxKeys > 0)
      && |done| < |Plan()| && done == Plan()[..|done|]
    }

    ghost predicate FieldsValid()
      reads this`masterKey, this`masterVersionId, this`state
    {
      && masterKey.Some? == masterVersionId.Some?
      && (state.SkippingVersions? ==>
            start.versionId != [] && state.gt == start.key + [VID_SEP] + start.versionId)
    }

    /** The machine has still to list `events`. */
    ghost predicate Inv(events: seq<Event>)
      reads this`state, this`masterKey, this`masterVersionId, this`keys, this`commonPrefixes, this`versions,
            this`isTruncated, this`nextKeyMarker, this`nextVersionIdMarker, this`done, this`over
    {
      && OutputValid() && FieldsValid()
      && if over then IsFull()
         else !isTruncated && done + Steps(Drop(events, CurrentSkipping()), LastMaster(), scope) == Plan()
    }

    /** The machine has read the entries up to position `p`. */
    ghost predicate Valid(p: nat)
      reads this
    {
      p <= |stream| && IsStream(stream, start) && Inv(Flow(nullKey, stream[p..])) && HasPassed(p)
    }

    /** While versions are skipped, only versions of the marker's key before the skip target
        have been read. */
    ghost predicate HasPassed(p: nat)
      requires p <= |stream|
      reads this`state
    {
      HasMasters(stream, start) && state.SkippingVersions? && p > 0 ==>
        MasterOf(stream[p-1].key) == start.key && Lt(stream[p-1].key, state.gt + [VID_SEP])
    }

    /** An event that leaves versions being skipped is one of these. */
    twostate predicate StaysSkipping(key: Str, versionId: Option<Str>)
      reads this`state
    {
      state.SkippingVersions? ==>
        state == old(state) && key == start.key && versionId.Some? && Le(versionId.value, start.versionId)
    }

    constructor (scope: Scope, start: Marker, maxKeys: int, ghost stream: seq<Entry>)
      requires IsStream(stream, start)
      ensures Valid(0) && !over
      ensures this.scope == scope && this.start == start && this.stream == stream
      ensures this.maxKeys == if maxKeys == 0 then 1000 else maxKeys
    {
      this.scope := scope;
      this.start := start;
      this.maxKeys := if maxKeys == 0 then 1000 else maxKeys;
      this.stream := stream;
      state := if start.versionId != [] then SkippingVersions(start.key + [VID_SEP] + start.versionId) else NotSkipping;
      masterKey, masterVersionId, nullKey := None, None, None;
      keys, commonPrefixes, versions, isTruncated := 0, [], [], false;
      nextKeyMarker, nextVersionIdMarker := start.key, [];
      done, over := [], false;
      new;
      assert stream[0..] == stream;
    }

    // -------------------------------------------------------------------------
    // Output

    /** Whether the page is full; if so, the listing takes no further step. */
    method ReachedMaxKeys() returns (reached: bool)
      modifies this`isTruncated
      ensures reached == (keys >= maxKeys)
      ensures isTruncated == if reached then maxKeys > 0 else old(isTruncated)
    {
      if keys >= maxKeys {
        isTruncated := maxKeys > 0;
        return true;
      }
      return false;
    }

    /** The second copy of a version is a step without an item. */
    ghost method TakeAgain()
      requires OutputValid() && keys < maxKeys
      modifies this`done
      ensures OutputValid() && done == old(done) + [Again]
    {
      StepOutput(Again);
      assert Items(done) + [] == Items(done);
      done := done + [Again];
    }

    lemma StepOutput(step: Step)
      ensures Items(done + [step]) == Items(done) + (if step.Listed? then [step.item] else [])
    {
      assert (done + [step])[..|done|] == done;
    }

    method AddVersion(key: Str, versionId: Str, value: Metadata)
      requires OutputValid() && keys < maxKeys
      modifies this`versions, this`keys, this`nextKeyMarker, this`nextVersionIdMarker, this`done
      ensures OutputValid() && done == old(done) + [Listed(VersionItem(key, versionId, value))]
    {
      ghost var item := VersionItem(key, versionId, value);
      StepOutput(Listed(item));
      assert (Items(done) + [item])[..|Items(done)|] == Items(done);
      versions := versions + [VersionItem(key, versionId, value)];
      nextKeyMarker := key;
      nextVersionIdMarker := versionId;
      keys := keys + 1;
      done := done + [Listed(item)];
    }

    method AddCommonPrefix(commonPrefix: Str)
      requires OutputValid() && keys < maxKeys
      modifies this`commonPrefixes, this`keys, this`nextKeyMarker, this`nextVersionIdMarker, this`done
      ensures OutputValid() && done == old(done) + [Listed(CommonPrefix(commonPrefix))]
    {
      ghost var item := CommonPrefix(commonPrefix);
      StepOutput(Listed(item));
      assert (Items(done) + [item])[..|Items(done)|] == Items(done);
      commonPrefixes := commonPrefixes + [commonPrefix];
      keys := keys + 1;
      nextKeyMarker := commonPrefix;
      nextVersionIdMarker := [];
      done := done + [Listed(item)];
    }

    /** Lists a version, or the common prefix it is under; then what is under it is skipped. */
    method AddKey(key: Str, versionId: Str, value: Metadata)
      requires OutputValid() && keys < maxKeys && state == NotSkipping
      modifies this`state, this`versions, this`commonPrefixes, this`keys, this`nextKeyMarker,
               this`nextVersionIdMarker, this`done
      ensures var e := Event(key, Some(versionId), value);
              && OutputValid() && done == old(done) + [Listed(ItemOf(e, scope))]
              && CurrentSkipping() == SkippingAfter(ItemOf(e, scope)) && !state.SkippingVersions?
    {
      var commonPrefix := CommonPrefixOf(key, scope.prefix, scope.delimiter);
      if commonPrefix.Some? {
        AddCommonPrefix(commonPrefix.value);
        state := SkippingPrefix(commonPrefix.value);
      } else {
        AddVersion(key, versionId, value);
      }
    }

    // -------------------------------------------------------------------------
    // Key handlers

    lemma Head(e: Event, rest: seq<Event>)
      ensures ([e] + rest)[0] == e && ([e] + rest)[1..] == rest
    {
    }

    method FilterOnNewKey(key: Str, versionId: Option<Str>, value: Metadata, ghost rest: seq<Event>)
      returns (r: FilterResult)
      requires Inv([Event(key, versionId, value)] + rest) && state == NotSkipping
      requires !StartsWith(key, REPLAY_PREFIX) && !value.isPHD
      modifies this
      ensures Inv(rest) && nullKey == old(nullKey) && !state.SkippingVersions?
      ensures r.FILTER_END? ==> over
      ensures !r.FILTER_SKIP?
    {
      hide OutputValid;
      hide StepsFrom;
      hide Steps;
      hide Drop;
      hide ItemOf;
      hide SkippingAfter;
      hide StartsWith;
      hide MasterIdOf;
      ghost var e, was := Event(key, versionId, value), done;
      TakeStep(e, rest, LastMaster(), scope);
      ghost var steps := Steps([e] + rest, LastMaster(), scope);
      assert !over ==> done + steps == Plan();
      assert !over ==> done == Plan()[..|done|];
      var reached := ReachedMaxKeys();
      if reached {
        over := true;
        return FILTER_END;
      }
      TakeNext(key, versionId, value);
      assert was + [steps[0]] + steps[1..] == was + steps;
      return FILTER_ACCEPT;
    }

    /** Takes the step of an event that the page has room for. */
    method TakeNext(key: Str, versionId: Option<Str>, value: Metadata)
      requires OutputValid() && FieldsValid() && keys < maxKeys && state == NotSkipping
      requires IsListable(Event(key, versionId, value))
      modifies this`masterKey, this`masterVersionId, this`state, this`versions, this`commonPrefixes, this`keys,
               this`nextKeyMarker, this`nextVersionIdMarker, this`done
      ensures OutputValid() && FieldsValid() && !state.SkippingVersions?
      ensures var e := Event(key, versionId, value);
              if IsAgain(e, old(LastMaster())) then
                done == old(done) + [Again] && LastMaster() == old(LastMaster()) && CurrentSkipping() == Nothing
              else
                && done == old(done) + [Listed(ItemOf(e, scope))]
                && LastMaster() == NextMaster(e, old(LastMaster()))
                && CurrentSkipping() == SkippingAfter(ItemOf(e, scope))
    {
      hide OutputValid;
      hide ItemOf;
      hide SkippingAfter;
      hide StartsWith;
      hide MasterIdOf;
      SameItem(Event(key, versionId, value));
      if versionId == None {
        masterKey := Some(key);
        masterVersionId := Some(MasterIdOf(value));
        AddKey(key, MasterIdOf(value), value);
      } else if masterKey == Some(key) && masterVersionId == versionId {
        TakeAgain();
      } else {
        AddKey(key, versionId.value, value);
      }
    }

    lemma SameItem(e: Event)
      ensures ItemOf(Event(e.key, Some(IdOf(e)), e.value), scope) == ItemOf(e, scope)
    {
    }

    method KeyHandlerNotSkipping(key: Str, versionId: Option<Str>, value: Metadata, ghost rest: seq<Event>)
      returns (r: FilterResult)
      requires Inv([Event(key, versionId, value)] + rest) && state == NotSkipping
      modifies this
      ensures Inv(rest) && nullKey == old(nullKey) && StaysSkipping(key, versionId)
      ensures r.FILTER_END? ==> over
      ensures r.FILTER_SKIP? ==> state.SkippingPrefix? && StartsWith(key, state.prefix)
    {
      Head(Event(key, versionId, value), rest);
      if StartsWith(key, REPLAY_PREFIX) {
        state := SkippingPrefix(REPLAY_PREFIX);
        return FILTER_SKIP;
      }
      if value.isPHD {
        return FILTER_ACCEPT;
      }
      r := FilterOnNewKey(key, versionId, value, rest);
    }

    method KeyHandlerSkippingPrefix(key: Str, versionId: Option<Str>, value: Metadata, ghost rest: seq<Event>)
      returns (r: FilterResult)
      requires Inv([Event(key, versionId, value)] + rest) && state.SkippingPrefix?
      modifies this
      ensures Inv(rest) && nullKey == old(nullKey) && StaysSkipping(key, versionId)
      ensures r.FILTER_END? ==> over
      ensures r.FILTER_SKIP? ==> state.SkippingPrefix? && StartsWith(key, state.prefix)
    {
      Head(Event(key, versionId, value), rest);
      if StartsWith(key, state.prefix) {
        return FILTER_SKIP;
      }
      state := NotSkipping;
      r := KeyHandlerNotSkipping(key, versionId, value, rest);
    }

    method KeyHandlerSkippingVersions(key: Str, versionId: Option<Str>, value: Metadata, ghost rest: seq<Event>)
      returns (r: FilterResult)
      requires Inv([Event(key, versionId, value)] + rest) && state.SkippingVersions?
      modifies this
      ensures Inv(rest) && nullKey == old(nullKey) && StaysSkipping(key, versionId)
      ensures r.FILTER_END? ==> over
      ensures r.FILTER_SKIP? ==>
                state.SkippingVersions? || (state.SkippingPrefix? && StartsWith(key, state.prefix))
    {
      hide Lt;
      Head(Event(key, versionId, value), rest);
      if key == start.key && versionId.Some? {
        Transitive(versionId.value, start.versionId, start.versionId);
        StrictTotalOrder(versionId.value, start.versionId, versionId.value);
        if Lt(versionId.value, start.versionId) {
          return FILTER_SKIP;
        }
        if versionId.value == start.versionId {
          return FILTER_ACCEPT;
        }
      }
      state := NotSkipping;
      r := KeyHandlerNotSkipping(key, versionId, value, rest);
    }

    method HandleKey(key: Str, versionId: Option<Str>, value: Metadata, ghost rest: seq<Event>)
      returns (r: FilterResult)
      requires Inv([Event(key, versionId, value)] + rest)
      modifies this
      ensures Inv(rest) && nullKey == old(nullKey) && StaysSkipping(key, versionId)
      ensures r.FILTER_END? ==> over
      ensures r.FILTER_SKIP? ==>
                state.SkippingVersions? || (state.SkippingPrefix? && StartsWith(key, state.prefix))
    {
      hide *;
      match state {
        case NotSkipping => r := KeyHandlerNotSkipping(key, versionId, value, rest);
        case SkippingPrefix(_) => r := KeyHandlerSkippingPrefix(key, versionId, value, rest);
        case SkippingVersions(_) => r := KeyHandlerSkippingVersions(key, versionId, value, rest);
      }
    }

    lemma FlowStep(nk: Option<Event>, p: nat)
      requires p < |stream|
      ensures var e := stream[p];
              Flow(nk, stream[p..]) ==
              if nk.Some? && ComesBefore(nk.value, e.key) then [nk.value] + Flow(None, stream[p..])
              else if IsNullEntry(e) then Flow(Some(EventOf(e)), stream[p+1..])
              else [EventOf(e)] + Flow(nk, stream[p+1..])
    {
      assert stream[p..] == [stream[p]] + stream[p+1..];
    }

    /** After reading the entry at `last`, the machine may jump. */
    ghost predicate CanJump(last: nat)
      reads this`nullKey, this`state
    {
      && last < |stream|
      && (nullKey.Some? ==> nullKey.value.key == MasterOf(stream[last].key))
      && !state.NotSkipping?
      && (state.SkippingPrefix? ==> StartsWith(MasterOf(stream[last].key), state.prefix))
      && HasPassed(last + 1)
    }

    /** Handles the next raw entry. */
    method Filter(e: Entry, ghost p: nat) returns (r: FilterResult)
      requires p < |stream| && e == stream[p] && Valid(p)
      modifies this
      ensures Valid(p + 1)
      ensures r.FILTER_END? ==> over
      ensures r.FILTER_SKIP? ==> CanJump(p)
    {
      hide Inv;
      hide Flow;
      hide IsStream;
      hide Lt;
      hide StartsWith;
      var nonversionedKey, keyVersionId := MasterOf(e.key), KeyVersionId(e.key);
      FlowStep(nullKey, p);
      FlowStep(None, p);
      if nullKey.Some? {
        if nullKey.value.key != nonversionedKey
           || (nullKey.value.versionId.Some? && keyVersionId.Some?
               && Lt(nullKey.value.versionId.value, keyVersionId.value)) {
          var _ := HandleKey(nullKey.value.key, nullKey.value.versionId, nullKey.value.value, Flow(None, stream[p..]));
          nullKey := None;
        }
      }
      if keyVersionId == Some([]) {
        CacheNullKey(nonversionedKey, e.value.versionId, e.value);
        InvFields(Flow(nullKey, stream[p+1..]));
        NullKeyIsPassed(p);
        if state.SkippingVersions? {
          return FILTER_SKIP;
        }
        return FILTER_ACCEPT;
      }
      r := HandleKey(nonversionedKey, keyVersionId, e.value, Flow(nullKey, stream[p+1..]));
      InvFields(Flow(nullKey, stream[p+1..]));
      VersionIsPassed(p);
    }

    lemma InvFields(events: seq<Event>)
      requires Inv(events)
      ensures FieldsValid()
    {
    }

    /** A null key that is read while versions are skipped is that of the marker's object. */
    lemma NullKeyIsPassed(p: nat)
      requires p < |stream| && IsStream(stream, start) && FieldsValid() && HasPassed(p)
      requires KeyVersionId(stream[p].key) == Some([])
      ensures HasPassed(p + 1)
    {
      hide Lt;
      hide MasterOf;
      if state.SkippingVersions? && HasMasters(stream, start) {
        assert IsVersionKey(stream[p].key);
        assert MasterOf(stream[p].key) == start.key;
        NothingBeforeEmpty(start.versionId);
        StrictTotalOrder(start.versionId, [], start.versionId);
        VersionIsPassed(p);
      }
    }

    lemma VersionIsPassed(p: nat)
      requires p < |stream| && FieldsValid()
      requires var id := KeyVersionId(stream[p].key);
               HasMasters(stream, start) && state.SkippingVersions? ==>
                 MasterOf(stream[p].key) == start.key && id.Some? && Le(id.value, start.versionId)
      ensures HasPassed(p + 1)
    {
      hide Lt;
      var k, m, marker := stream[p].key, start.key, start.versionId;
      if HasMasters(stream, start) && state.SkippingVersions? {
        var id := KeyVersionId(k).value;
        EntryPosition(stream[p]);
        assert k == m + [VID_SEP] + id;
        AppendKeepsOrder(m + [VID_SEP], marker, id);
        NextString(m + [VID_SEP] + marker, m + [VID_SEP] + marker + [VID_SEP]);
        Ordered();
      }
    }

    method CacheNullKey(key: Str, versionId: Option<Str>, value: Metadata)
      modifies this`nullKey
      ensures nullKey == Some(Event(key, versionId, value))
    {
      nullKey := Some(Event(key, versionId, value));
    }

    // -------------------------------------------------------------------------
    // Jumps

    /** The key from which the listing may continue after a skipped entry. */
    function SkippingBase(): Option<Str>
      reads this`state
    {
      match state
      case SkippingPrefix(p) => Some(Inc(p))
      case SkippingVersions(gt) => Some(gt + [VID_SEP])
      case NotSkipping => None
    }

    /** Only a prefix with a last code unit that can be incremented is a range. */
    predicate CarriesTarget()
      reads this`state
    {
      state.SkippingPrefix? ==> state.prefix != [] && state.prefix[|state.prefix|-1] < 0xFFFF
    }

    /** An entry between the last one read and the skip target adds no event to list. */
    lemma SkippedEntry(last: nat, p: nat)
      requires IsStream(stream, start) && FieldsValid() && CanJump(last) && CarriesTarget()
      requires last < p < |stream| && Lt(stream[p].key, SkippingBase().value)
      ensures Drop(Flow(nullKey, stream[p..]), CurrentSkipping())
           == Drop(Flow(nullKey, stream[p+1..]), CurrentSkipping())
    {
      hide Lt;
      hide Flow;
      hide IsNullEntry;
      hide StartsWith;
      var e, rest := stream[p], stream[p+1..];
      assert stream[p..] == [e] + rest;
      if state.SkippingPrefix? {
        hide EventOf;
        UnderTarget(last, p, state.prefix);
        SkippedUnderPrefix(nullKey, e, rest, state.prefix);
      } else {
        BeforeVersionMarker(last, p);
        SkippedVersion(nullKey, e, rest, start.key, start.versionId);
      }
    }

    lemma UnderTarget(last: nat, p: nat, q: Str)
      requires SortedEntries(stream) && last < p < |stream| && StartsWith(MasterOf(stream[last].key), q)
      requires q != [] ==> q[|q|-1] < 0xFFFF
      requires Lt(stream[p].key, Inc(q))
      ensures StartsWith(MasterOf(stream[p].key), q)
    {
      hide Lt;
      if q != [] {
        KeyUnderTarget(stream[last].key, stream[p].key, q);
      }
    }

    /** After an entry for a version id marker, entries before the target are versions of the
        marker's key up to the marker. */
    lemma BeforeVersionMarker(last: nat, p: nat)
      requires IsStream(stream, start) && start.versionId != [] && last < p < |stream|
      requires Lt(stream[p].key, start.key + [VID_SEP] + start.versionId + [VID_SEP])
      ensures var k := stream[p].key;
              && IsVersionKey(k) && MasterOf(k) == start.key && VersionIdIn(k) != []
              && Le(VersionIdIn(k), start.versionId)
      ensures MasterOf(stream[last].key) == start.key
      ensures forall j :: p <= j < |stream| ==> Lt(start.key + [0], stream[j].key)
    {
      hide Lt;
      var k0, k, m := stream[last].key, stream[p].key, start.key;
      assert Lt(k0, k);
      assert stream[last] in stream;
      Transitive(m + [0], k0, k);
      forall j | p <= j < |stream|
        ensures Lt(m + [0], stream[j].key)
      {
        assert Lt(k0, stream[j].key);
        Transitive(m + [0], k0, stream[j].key);
      }
      var top := m + [VID_SEP] + start.versionId;
      NextString(k, top + [VID_SEP]);
      NextString(top, k);
      Ordered();
      assert Le(k, top);
      assert top[..|m|+1] == m + [0];
      StartsWithVersion(top, m);
      NextString(m, m + [0]);
      Between(m, k, top);
      Between(m, k0, top);
      EntryPosition(Entry(k, stream[p].value));
      assert m + [VID_SEP] + VersionIdIn(k) == k;
      AppendKeepsOrder(m + [VID_SEP], start.versionId, VersionIdIn(k));
      assert m + [0] + [] == m + [0];
    }

    lemma Between(m: Str, k: Str, top: Str)
      requires !IsVersionKey(m) && IsVersionKey(top) && MasterOf(top) == m
      requires Le(m + [0], k) && Le(k, top)
      ensures IsVersionKey(k) && MasterOf(k) == m
    {
      hide Lt;
      NextString(m, k);
      BetweenVersions(m, k, top);
    }

    /**
      Jumps are sound: continuing from the first entry at or after the skip target is the
      same as reading all the entries, null versions included.
     */
    lemma {:induction false} JumpIsSound(last: nat, p: nat)
      requires Valid(last + 1) && CanJump(last) && CarriesTarget() && last < p <= |stream|
      requires forall j :: last < j < p ==> Lt(stream[j].key, SkippingBase().value)
      ensures Valid(p)
      decreases p
    {
      hide *;
      if p > last + 1 {
        JumpIsSound(last, p - 1);
        StillAhead(p);
        SkippedEntry(last, p - 1);
        SkippedIsPassed(last, p - 1);
      }
    }

    lemma SkippedIsPassed(last: nat, p: nat)
      requires IsStream(stream, start) && FieldsValid() && CanJump(last) && last < p < |stream|
      requires Lt(stream[p].key, SkippingBase().value)
      ensures HasPassed(p + 1)
    {
      hide Lt;
      hide IsStream;
      hide MasterOf;
      if state.SkippingVersions? {
        BeforeVersionMarker(last, p);
      }
    }

    /**
      There is a skip target in exactly the states in which something is skipped.  Of the keys
      that come after the last one read, those before the target are exactly those that would
      be skipped: keys under the prefix, or versions of the marker's key up to the marker.
     */
    lemma TargetIsExact(last: nat, k: Str)
      requires CanJump(last) && CarriesTarget() && IsStream(stream, start) && FieldsValid()
      requires Lt(stream[last].key, k)
      ensures SkippingBase().Some? <==> !state.NotSkipping?
      ensures state.SkippingPrefix? ==> (Lt(k, SkippingBase().value) <==> StartsWith(MasterOf(k), state.prefix))
      ensures state.SkippingVersions? ==>
                (Lt(k, SkippingBase().value) <==>
                   IsVersionKey(k) && MasterOf(k) == start.key && Le(VersionIdIn(k), start.versionId))
    {
      hide Lt;
      match state {
        case SkippingPrefix(q) =>
          if StartsWith(MasterOf(k), q) {
            MasterStarts(k, q);
            PrefixIsRange(k, q);
          }
          if Lt(k, Inc(q)) {
            KeyUnderTarget(stream[last].key, k, q);
          }
        case SkippingVersions(gt) =>
          assert stream[last] in stream;
          KeyBeforeMarker(stream[last].key, k);
      }
    }

    lemma KeyUnderTarget(k0: Str, k: Str, q: Str)
      requires Lt(k0, k) && StartsWith(MasterOf(k0), q) && q != [] && q[|q|-1] < 0xFFFF
      requires Lt(k, Inc(q))
      ensures StartsWith(MasterOf(k), q)
    {
      hide Lt;
      MasterStarts(k0, q);
      PrefixIsLe(k0, q);
      Transitive(q, k0, k);
      Transitive(q, k, k);
      PrefixIsRange(k, q);
      PrefixHasNoSeparator(MasterOf(k0), q);
      PrefixOfMaster(k, q);
    }

    lemma KeyBeforeMarker(k0: Str, k: Str)
      requires start.versionId != [] && !IsVersionKey(start.key)
      requires Le(start.key + [VID_SEP], k0) && Lt(k0, k)
      ensures Lt(k, start.key + [VID_SEP] + start.versionId + [VID_SEP]) <==>
                IsVersionKey(k) && MasterOf(k) == start.key && Le(VersionIdIn(k), start.versionId)
    {
      hide Lt;
      var m := start.key;
      var top := m + [VID_SEP] + start.versionId;
      NextString(k, top + [VID_SEP]);
      NextString(top, k);
      NextString(top, top + [VID_SEP]);
      Ordered();
      if Le(k, top) {
        assert top[..|m|+1] == m + [0];
        StartsWithVersion(top, m);
        Between(m, k, top);
      }
      if IsVersionKey(k) && MasterOf(k) == m {
        EntryPosition(Entry(k, Versions.Metadata(None, false, false, false, false, 0)));
        assert m + [VID_SEP] + VersionIdIn(k) == k;
        AppendKeepsOrder(m + [VID_SEP], start.versionId, VersionIdIn(k));
      }
    }

    /** The skip target is beyond the last key read. */
    lemma TargetIsAhead(last: nat)
      requires CanJump(last) && CarriesTarget() && HasMasters(stream, start)
      ensures Lt(stream[last].key, SkippingBase().value)
    {
      hide Lt;
      hide MasterOf;
      if state.SkippingPrefix? {
        MasterStarts(stream[last].key, state.prefix);
        PrefixIsRange(stream[last].key, state.prefix);
      }
    }

    lemma NothingIsReread(last: nat, q: nat)
      requires IsStream(stream, start) && CanJump(last) && CarriesTarget()
      requires q <= last && Le(SkippingBase().value, stream[q].key)
      ensures !HasMasters(stream, start)
    {
      hide Lt;
      if HasMasters(stream, start) {
        TargetIsAhead(last);
        if q < last {
          assert Lt(stream[q].key, stream[last].key);
        }
        Ordered();
        assert false;
      }
    }

    lemma MasterStarts(k: Str, q: Str)
      requires StartsWith(MasterOf(k), q)
      ensures StartsWith(k, q)
    {
      assert k[..SeparatorIndex(k)][..|q|] == k[..|q|];
    }

    lemma StillAhead(p: nat)
      requires 0 < p <= |stream| && Valid(p - 1)
      ensures IsStream(stream, start) && FieldsValid()
      ensures (Drop(Flow(nullKey, stream[p-1..]), CurrentSkipping())
               == Drop(Flow(nullKey, stream[p..]), CurrentSkipping())) ==> (HasPassed(p) ==> Valid(p))
    {
      hide IsStream;
      hide HasPassed;
      hide Flow;
      hide Steps;
      hide Drop;
      hide StepsFrom;
      hide OutputValid;
    }

    // -------------------------------------------------------------------------
    // Results

    /** With nothing left to list, the page is complete. */
    lemma PageIsComplete()
      requires Inv([])
      ensures keys == |Page(Items(Plan()), maxKeys)| && Items(done) == Page(Items(Plan()), maxKeys)
      ensures isTruncated == IsTruncated(Plan(), maxKeys)
    {
      hide StepsFrom;
      hide PrefixesIn;
      hide VersionsIn;
      if over {
        PageIsFull(done, Plan(), maxKeys);
      } else {
        assert Drop([], CurrentSkipping()) == [];
        assert done + [] == done;
      }
    }

    method Result(ghost p: nat) returns (r: ListingResult)
      requires Valid(p) && (p == |stream| || over)
      modifies this
      ensures r == PageResult(Plan(), maxKeys, Marker(start.key, []))
    {
      hide Flow;
      hide StepsFrom;
      hide Steps;
      assert over || Flow(nullKey, stream[p..]) == (if nullKey.Some? then [nullKey.value] else []) by {
        FlowEnds(p);
      }
      if nullKey.Some? {
        assert Inv([nullKey.value] + []) by {
          assert [nullKey.value] + [] == [nullKey.value];
        }
        var _ := HandleKey(nullKey.value.key, nullKey.value.versionId, nullKey.value.value, []);
      }
      PageIsComplete();
      r := ListingResult(
        commonPrefixes, versions, isTruncated,
        if isTruncated then Some(nextKeyMarker) else None,
        if isTruncated && nextVersionIdMarker != [] then Some(nextVersionIdMarker) else None);
    }

    lemma FlowEnds(p: nat)
      requires p <= |stream|
      ensures p == |stream| ==> Flow(nullKey, stream[p..]) == (if nullKey.Some? then [nullKey.value] else [])
    {
    }
  }

  /** The first step of listing an event that is not passed over. */
  lemma TakeStep(e: Event, rest: seq<Event>, master: Master, scope: Scope)
    requires IsListable(e)
    ensures var item := ItemOf(e, scope);
            Steps([e] + rest, master, scope)
            == if IsAgain(e, master) then [Again] + Steps(rest, master, scope)
               else [Listed(item)] + Steps(Drop(rest, SkippingAfter(item)), NextMaster(e, master), scope)
    ensures Drop([e] + rest, Nothing) == [e] + rest && Drop(rest, Nothing) == rest
    ensures ItemOf(Event(e.key, Some(IdOf(e)), e.value), scope) == ItemOf(e, scope)
  {
    assert ([e] + rest)[0] == e && ([e] + rest)[1..] == rest;
  }

  /** A full page with a further step that was refused. */
  lemma PageIsFull(done: seq<Step>, plan: seq<Step>, maxKeys: int)
    requires |done| < |plan| && done == plan[..|done|]
    requires |Items(done)| == maxKeys || (Items(done) == [] && maxKeys <= 0)
    ensures Items(done) == Page(Items(plan), maxKeys)
    ensures IsTruncated(plan, maxKeys) == (maxKeys > 0)
  {
    var tail := plan[|done|..];
    assert plan == done + tail;
    ItemsOfConcat(done, tail);
    assert (Items(done) + Items(tail))[..|Items(done)|] == Items(done);
    assert tail[|tail|-1] == plan[|plan|-1];
    assert tail[|tail|-1].Listed? ==> |Items(tail)| > 0;
  }

  // ---------------------------------------------------------------------------
  // Null versions while skipping

  /** A waiting null version that is skipped holds back only what is skipped too. */
  ghost predicate IsInert(s: Skipping, nullKey: Event, rest: seq<Entry>) {
    && Skips(s, nullKey)
    && forall e :: e in rest && !IsNullEntry(e) && !ComesBefore(nullKey, e.key) ==> Skips(s, EventOf(e))
  }

  /** It makes no difference whether a null version that is skipped still waits. */
  lemma {:induction false} NullIsSkipped(s: Skipping, nullKey: Event, rest: seq<Entry>)
    requires IsInert(s, nullKey, rest)
    ensures Drop(Flow(Some(nullKey), rest), s) == Drop(Flow(None, rest), s)
  {
    hide Skips;
    hide ComesBefore;
    hide EventOf;
    hide IsNullEntry;
    if rest == [] {
      assert Drop([nullKey], s) == Drop([nullKey][1..], s);
    } else if ComesBefore(nullKey, rest[0].key) {
      var flow := Flow(None, rest);
      assert ([nullKey] + flow)[1..] == flow;
    } else if !IsNullEntry(rest[0]) {
      assert rest[0] in rest;
      NullIsSkipped(s, nullKey, rest[1..]);
      DropHead(EventOf(rest[0]), Flow(Some(nullKey), rest[1..]), s);
      DropHead(EventOf(rest[0]), Flow(None, rest[1..]), s);
    }
  }

  lemma DropHead(e: Event, rest: seq<Event>, s: Skipping)
    requires Skips(s, e)
    ensures Drop([e] + rest, s) == Drop(rest, s)
  {
    hide Skips;
    assert ([e] + rest)[1..] == rest;
  }

  lemma InertUnderPrefix(nullKey: Event, rest: seq<Entry>, q: Str)
    requires StartsWith(nullKey.key, q)
    ensures IsInert(Under(q), nullKey, rest)
  {
    hide Lt;
    hide StartsWith;
    hide MasterOf;
  }

  /** An entry under the prefix being skipped adds nothing, be it a null version or not. */
  lemma SkippedUnderPrefix(nullKey: Option<Event>, e: Entry, rest: seq<Entry>, q: Str)
    requires StartsWith(MasterOf(e.key), q) && (nullKey.Some? ==> StartsWith(nullKey.value.key, q))
    ensures Drop(Flow(nullKey, [e] + rest), Under(q)) == Drop(Flow(nullKey, rest), Under(q))
  {
    hide Lt;
    hide StartsWith;
    hide MasterOf;
    hide IsNullEntry;
    hide ComesBefore;
    hide KeyVersionId;
    var s := Under(q);
    assert ([e] + rest)[0] == e && ([e] + rest)[1..] == rest;
    if nullKey.Some? {
      InertUnderPrefix(nullKey.value, [e] + rest, q);
      NullIsSkipped(s, nullKey.value, [e] + rest);
      InertUnderPrefix(nullKey.value, rest, q);
      NullIsSkipped(s, nullKey.value, rest);
    }
    if IsNullEntry(e) {
      InertUnderPrefix(EventOf(e), rest, q);
      NullIsSkipped(s, EventOf(e), rest);
    } else {
      DropHead(EventOf(e), Flow(None, rest), s);
    }
  }

  /** A version up to the marker adds nothing, whether a null version waits or not. */
  lemma SkippedVersion(nullKey: Option<Event>, e: Entry, rest: seq<Entry>, k: Str, v: Str)
    requires IsVersionKey(e.key) && MasterOf(e.key) == k && VersionIdIn(e.key) != []
    requires Le(VersionIdIn(e.key), v)
    requires forall d :: d in [e] + rest ==> Lt(k + [0], d.key)
    requires nullKey.Some? ==> nullKey.value.key == k
    ensures Drop(Flow(nullKey, [e] + rest), UpTo(k, v)) == Drop(Flow(nullKey, rest), UpTo(k, v))
  {
    hide Lt;
    hide MasterOf;
    hide IsVersionKey;
    hide VersionIdIn;
    var s := UpTo(k, v);
    assert ([e] + rest)[0] == e && ([e] + rest)[1..] == rest;
    if nullKey.Some? && ComesBefore(nullKey.value, e.key) {
      Transitive(nullKey.value.versionId.value, VersionIdIn(e.key), v);
      Transitive(nullKey.value.versionId.value, v, v);
      InertBeforeMarker(nullKey.value, [e] + rest, k, v);
      InertBeforeMarker(nullKey.value, rest, k, v);
      NullIsSkipped(s, nullKey.value, [e] + rest);
      NullIsSkipped(s, nullKey.value, rest);
      DropHead(EventOf(e), Flow(None, rest), s);
    } else {
      DropHead(EventOf(e), Flow(nullKey, rest), s);
    }
  }

  lemma InertBeforeMarker(nullKey: Event, rest: seq<Entry>, k: Str, v: Str)
    requires nullKey.key == k && nullKey.versionId.Some? && Le(nullKey.versionId.value, v)
    requires forall d :: d in rest ==> Lt(k + [0], d.key)
    ensures IsInert(UpTo(k, v), nullKey, rest)
  {
    hide Lt;
    forall d | d in rest && !IsNullEntry(d) && !ComesBefore(nullKey, d.key)
      ensures Skips(UpTo(k, v), EventOf(d))
    {
      if !IsVersionKey(d.key) {
        assert d.key[..|d.key|] == d.key;
        NextString(d.key, d.key + [0]);
        StrictTotalOrder(d.key, d.key + [0], d.key);
        Transitive(d.key + [0], d.key + [0], d.key);
      } else {
        Transitive(VersionIdIn(d.key), nullKey.versionId.value, v);
      }
    }
  }

  // ---------------------------------------------------------------------------
  // Whole listings

  /** A stream as part of a bucket, listed from its marker. */
  ghost predicate IsPart(stream: seq<Entry>, start: Marker) {
    IsStream(stream, start) && IsBucket(stream)
  }

  /** The items of the listable entries of a stream, past those up to the marker. */
  ghost predicate IsListed(stream: seq<Entry>, start: Marker, scope: Scope, item: Item) {
    exists e :: e in stream && IsListable(EventOf(e)) && !Skips(StartOf(start), EventOf(e))
                && ItemOf(EventOf(e), scope) == item
  }

  /** The last version to list is met a second time. */
  ghost predicate EndsAgain(stream: seq<Entry>, start: Marker, scope: Scope) {
    EndsWithCopy(Drop(Flow(None, stream), StartOf(start)), None, scope)
  }

  lemma EventsToList(stream: seq<Entry>, start: Marker)
    requires IsPart(stream, start)
    ensures var events := Drop(Flow(None, stream), StartOf(start));
            && SortedEvents(events) && AreVersions(events)
            && forall v :: v in events <==>
                 exists e :: e in stream && !Skips(StartOf(start), EventOf(e)) && EventOf(e) == v
  {
    hide Lt;
    hide Flow;
    hide EventOf;
    hide Position;
    hide MasterIsNewest;
    hide IsVersionKey;
    hide IsNullEntry;
    var events := Flow(None, stream);
    BucketFlow(stream);
    if start.versionId != [] {
      forall v | v in events
        ensures Lt(start.key, Position(v))
      {
        var e :| e in stream && EventOf(e) == v;
        EventIsLater(e);
        NextString(start.key, e.key);
        Transitive(start.key, e.key, Position(v));
      }
      DropUpTo(events, start.key, start.versionId);
    }
  }

  /** What a page lists of a stream that is part of a bucket. */
  lemma StreamPageIsRight(stream: seq<Entry>, scope: Scope, start: Marker, maxKeys: int)
    requires IsPart(stream, start)
    ensures IsPage(PageResult(StepsFrom(stream, start, scope), maxKeys, Marker(start.key, [])),
                   (iset item | IsListed(stream, start, scope, item)), EndsAgain(stream, start, scope), maxKeys)
  {
    hide Lt;
    hide Flow;
    hide EventOf;
    hide ItemOf;
    hide IsListable;
    hide SortedEvents;
    hide AreVersions;
    hide SortedItems;
    hide IsPage;
    hide PageResult;
    hide IsPart;
    hide EndsWithCopy;
    hide Steps;
    hide Items;
    hide Drop;
    hide Skips;
    var events := Drop(Flow(None, stream), StartOf(start));
    EventsToList(stream, start);
    StepsAreDistinct(events, None, scope);
    LastIsAgain(events, None, scope);
    forall item
      ensures item in Items(Steps(events, None, scope)) <==> IsListed(stream, start, scope, item)
    {
      if IsItemOf(item, events, None, scope) {
        var v :| v in events && IsListable(v) && !IsAgain(v, None) && ItemOf(v, scope) == item;
        var e :| e in stream && !Skips(StartOf(start), EventOf(e)) && EventOf(e) == v;
      }
      if IsListed(stream, start, scope, item) {
        var e :| e in stream && IsListable(EventOf(e)) && !Skips(StartOf(start), EventOf(e))
                 && ItemOf(EventOf(e), scope) == item;
        assert EventOf(e) in events && !IsAgain(EventOf(e), None);
      }
    }
    PageIsRight(StepsFrom(stream, start, scope), (iset item | IsListed(stream, start, scope, item)),
                EndsAgain(stream, start, scope), maxKeys, start.key);
  }

  /**
    A whole listing of versions, with a choice at every skipped entry whether the jump that
    the listing allows is taken.  The result does not depend on the choices.
   */
  method ListVersions(stream: seq<Entry>, scope: Scope, start: Marker, maxKeys: int, jumps: seq<bool>)
    returns (result: ListingResult)
    requires IsStream(stream, start) && |jumps| >= |stream|
    ensures result == PageResult(
              StepsFrom(stream, start, scope), if maxKeys == 0 then 1000 else maxKeys, Marker(start.key, []))
    ensures IsPart(stream, start) ==>
              IsPage(result, (iset item | IsListed(stream, start, scope, item)), EndsAgain(stream, start, scope),
                     if maxKeys == 0 then 1000 else maxKeys)
  {
    hide IsPage;
    hide IsListed;
    hide EndsAgain;
    hide IsPart;
    hide Flow;
    hide Steps;
    hide StepsFrom;
    hide Lt;
    hide IsStream;
    hide PageResult;
    var listing := new DelimiterVersions(scope, start, maxKeys, stream);
    var p: nat := 0;
    var n: nat := 0;
    while p < |stream|
      invariant n <= p <= |stream| && fresh(listing)
      invariant listing.Valid(p) && listing.stream == stream && listing.scope == scope
      invariant listing.start == start && listing.maxKeys == if maxKeys == 0 then 1000 else maxKeys
    {
      var r := listing.Filter(stream[p], p);
      p := p + 1;
      n := n + 1;
      if r.FILTER_END? {
        break;
      }
      if r.FILTER_SKIP? && jumps[n-1] && listing.CarriesTarget() {
        // the first of all entries at or after the target; where version keys follow their
        // master keys it is never one that has been read
        var q := FindFrom(stream, (e: Entry) => e.key, 0, listing.SkippingBase().value);
        if p <= q {
          listing.JumpIsSound(p - 1, q);
          p := q;
        } else {
          listing.NothingIsReread(p - 1, q);
        }
      }
    }
    result := listing.Result(p);
    if IsPart(stream, start) {
      StreamPageIsRight(stream, scope, start, if maxKeys == 0 then 1000 else maxKeys);
    }
  }
}
