/**
  Optimistic repair of the master entry of an object.  Deleting the newest version leaves a
  placeholder (PHD) in the master entry; a listing, possibly of an old state, later suggests
  what to put there, and the suggestion is applied only if the placeholder that is read is
  still the same.  What is read may be older than the state that the operations are applied
  to; exactly which late events do no harm is part of the results.  With such events, and so
  with reads that see the current state, the master entry is absent with no versions left, a
  placeholder, or exactly the newest surviving version, in every interleaving.
 */
module MasterRepair {
  import opened Strings
  import opened Keys
  import opened Versions
  import opened VersionIds

  // ---------------------------------------------------------------------------
  // Surviving versions

  /** `v` is stored under a version key, or under the null key. */
  ghost predicate Survives(s: Stored, v: ListedVersion) {
    if v.isNullKey then NULL_KEY in s && s[NULL_KEY] == v.value && v.value.versionId == Some(v.vid)
    else v.vid != [] && VersionSlot(v.vid) in s && s[VersionSlot(v.vid)] == v.value
  }

  ghost predicate IsNewest(s: Stored, v: ListedVersion) {
    Survives(s, v) && forall w :: Survives(s, w) ==> Le(v.vid, w.vid)
  }

  ghost predicate IsPHD(s: Stored) {
    MasterSlot in s && s[MasterSlot].isPHD
  }

  /** What every stored state of an object satisfies. */
  ghost predicate Consistent(s: Stored) {
    && (forall vid: Str :: vid != [] && VersionSlot(vid) in s ==>
          s[VersionSlot(vid)].versionId == Some(vid) && !s[VersionSlot(vid)].isPHD)
    && (NULL_KEY in s ==>
          var v := s[NULL_KEY];
          v.isNull && !v.isPHD && v.versionId.Some? && VersionSlot(v.versionId.value) !in s)
    && (MasterSlot in s ==> s[MasterSlot].versionId.Some?)
  }

  /** The master entry is absent with no versions, a placeholder, or the newest version. */
  ghost predicate MasterIsRight(s: Stored) {
    if MasterSlot !in s then s == map[]
    else if s[MasterSlot].isPHD then true
    else
      var m := s[MasterSlot];
      && m.versionId.Some?
      && (forall w :: Survives(s, w) ==> Le(m.versionId.value, w.vid))
      && (m.isNull || (VersionSlot(m.versionId.value) in s && s[VersionSlot(m.versionId.value)] == m))
  }

  /** The raw versions that the database lists for a stored state. */
  ghost predicate IsRawOf(raw: seq<RawVersion>, s: Stored) {
    && SortedRaw(raw)
    && (forall i :: 0 <= i < |raw| ==> VersionSlot(raw[i].vid) in s && s[VersionSlot(raw[i].vid)] == raw[i].value)
    && (forall vid :: VersionSlot(vid) in s ==> exists i :: 0 <= i < |raw| && raw[i].vid == vid)
  }

  // ---------------------------------------------------------------------------
  // Events

  /** What a listing that found a placeholder suggests. */
  datatype Hint = Hint(phd: Metadata, next: Option<ListedVersion>)

  datatype Event =
    | NewVersionPut(vid: Str, value: Metadata)
    | MasterRead(at: nat)
    | VersionDelete(vid: Str, isNull: bool, phdVid: Str, read: Option<Metadata>)
    | Listing(at: nat, raw: seq<RawVersion>)
    | Repair(hint: Hint, read: Option<Metadata>)

  /** The stored state, with all the operations that have been given to the database; all the
      states there have been, the version ids issued so far, the suggestions of the listings
      and the answers to reads of the master entry made so far. */
  datatype World = World(
    current: Stored, history: seq<Stored>, issued: set<Str>, hints: set<Hint>, answers: set<Option<Metadata>>)

  function PutOps(vid: Str, value: Metadata): seq<Op> {
    var v := value.(versionId := Some(vid));
    [Put(MasterSlot, v), Put(VersionSlot(vid), v)]
  }

  predicate DeletesMaster(master: Option<Metadata>, vid: Str) {
    master.Some? && (master.value.isPHD || master.value.versionId == Some(vid))
  }

  function DeletedSlot(vid: Str, isNull: bool): Slot {
    if isNull then NULL_KEY else VersionSlot(vid)
  }

  function DeleteOps(master: Option<Metadata>, vid: Str, isNull: bool, phdVid: Str): seq<Op> {
    [Del(DeletedSlot(vid, isNull))] + if DeletesMaster(master, vid) then [Put(MasterSlot, PHDVersion(phdVid))] else []
  }

  function RepairOps(next: Option<ListedVersion>): seq<Op> {
    match next
    case None => [Del(MasterSlot)]
    case Some(v) => [Put(MasterSlot, v.value)] + if v.isNullKey then [Del(NULL_KEY)] else []
  }

  function MasterOfStored(s: Stored): Option<Metadata> {
    if MasterSlot in s then Some(s[MasterSlot]) else None
  }

  /** The first entry of a listing limited to one version, which reads three raw entries. */
  function Suggested(raw: seq<RawVersion>): Option<ListedVersion>
    requires HasNullKey(raw) ==> raw[0].value.versionId.Some?
  {
    var versions := Take(Arranged(Take(raw, 2)), 1);
    if versions == [] then None else Some(versions[0])
  }

  ghost function Store(w: World, ops: seq<Op>): World {
    var s := Apply(w.current, ops);
    w.(current := s, history := w.history + [s])
  }

  /** The id that an event takes from the generator, if any. */
  function TakenId(w: World, e: Event): Option<Str> {
    match e
    case NewVersionPut(vid, _) => Some(vid)
    case VersionDelete(vid, _, phdVid, read) => if DeletesMaster(read, vid) then Some(phdVid) else None
    case _ => None
  }

  function IssuedWith(w: World, e: Event): set<Str> {
    if TakenId(w, e).Some? then w.issued + {TakenId(w, e).value} else w.issued
  }

  ghost function Step(w: World, e: Event): World
    requires Possible(w, e)
  {
    match e
    case NewVersionPut(vid, value) => Store(w, PutOps(vid, value)).(issued := IssuedWith(w, e))
    case MasterRead(at) => w.(answers := w.answers + {MasterOfStored(w.history[at])})
    case VersionDelete(vid, isNull, phdVid, read) =>
      Store(w, DeleteOps(read, vid, isNull, phdVid)).(issued := IssuedWith(w, e))
    case Listing(at, raw) =>
      if IsPHD(w.history[at])
      then w.(hints := w.hints + {Hint(w.history[at][MasterSlot], Suggested(raw))})
      else w
    case Repair(hint, read) =>
      if read == Some(hint.phd) then Store(w, RepairOps(hint.next)) else w
  }

  ghost predicate Fresh(w: World, vid: Str) {
    vid != [] && forall i :: i in w.issued ==> Lt(vid, i)
  }

  /** Listings and reads see some state there has been; a repair follows a listing, and
      repairs and deletes follow a read. */
  ghost predicate Possible(w: World, e: Event) {
    match e
    case NewVersionPut(_, value) => !value.isPHD && !value.isNull
    case MasterRead(at) => at < |w.history|
    case VersionDelete(vid, _, _, read) => vid != [] && read in w.answers
    case Listing(at, raw) =>
      && at < |w.history| && IsRawOf(raw, w.history[at])
      && (HasNullKey(raw) ==> raw[0].value.versionId.Some?)
    case Repair(hint, read) => hint in w.hints && read in w.answers
  }

  /** Ids are freshly generated. */
  ghost predicate Allowed(w: World, e: Event) {
    Possible(w, e) && (TakenId(w, e).Some? ==> Fresh(w, TakenId(w, e).value))
  }

  /** The state that was read is still the current one. */
  ghost predicate IsIsolated(w: World, e: Event) {
    match e
    case VersionDelete(_, _, _, read) => read == MasterOfStored(w.current)
    case Repair(_, read) => read == MasterOfStored(w.current)
    case _ => true
  }

  /**
    A late delete does no harm if it puts a placeholder, or need not: the master entry is
    neither the deleted version nor a placeholder that the version belongs to.
   */
  ghost predicate DeleteFits(s: Stored, vid: Str, isNull: bool, read: Option<Metadata>) {
    || DeletesMaster(read, vid)
    || (match MasterOfStored(s)
        case None => true
        case Some(m) =>
          if m.isPHD then DeletedSlot(vid, isNull) !in s
          else m.versionId != Some(vid) || m.isNull || isNull)
  }

  /** A late repair does no harm if the suggested version is still the newest, or there is
      still none.  A null version may be gone, if the others are older. */
  ghost predicate RepairFits(s: Stored, next: Option<ListedVersion>) {
    match next
    case None => forall w :: !Survives(s, w)
    case Some(v) =>
      if Survives(s, v) then IsNewest(s, v)
      else v.value.isNull && forall w :: Survives(s, w) && !(v.isNullKey && w.isNullKey) ==> Le(v.vid, w.vid)
  }

  ghost predicate IsHarmless(w: World, e: Event) {
    match e
    case VersionDelete(vid, isNull, _, read) => DeleteFits(w.current, vid, isNull, read)
    case Repair(hint, read) => read != Some(hint.phd) || RepairFits(w.current, hint.next)
    case _ => true
  }

  ghost predicate Issued(w: World, s: Stored) {
    && (MasterSlot in s && s[MasterSlot].versionId.Some? ==> s[MasterSlot].versionId.value in w.issued)
    && (forall v :: Survives(s, v) ==> v.vid in w.issued)
  }

  /** A suggestion is what was right for some state with its placeholder. */
  ghost predicate Justified(w: World, hint: Hint) {
    exists i :: 0 <= i < |w.history| && JustifiedBy(w.history[i], hint)
  }

  ghost predicate JustifiedBy(s: Stored, hint: Hint) {
    && hint.phd.isPHD && MasterOfStored(s) == Some(hint.phd)
    && (match hint.next
        case None => forall v :: !Survives(s, v)
        case Some(v) => IsNewest(s, v))
  }

  ghost predicate SamePHD(s: Stored, t: Stored) {
    IsPHD(t) && MasterOfStored(s) == MasterOfStored(t)
  }

  ghost predicate Safe(w: World) {
    && Consistent(w.current) && MasterIsRight(w.current)
    && (forall i :: 0 <= i < |w.history| ==> Consistent(w.history[i]) && Issued(w, w.history[i]))
    && w.current in w.history
    // a placeholder identifies the state it was put in
    && (forall i :: 0 <= i < |w.history| && SamePHD(w.current, w.history[i]) ==> w.history[i] == w.current)
    && (forall hint :: hint in w.hints ==> Justified(w, hint))
  }

  // ---------------------------------------------------------------------------
  // A listing limited to one version finds the newest one

  lemma ArrangedSurvive(s: Stored, raw: seq<RawVersion>, v: ListedVersion)
    requires Consistent(s) && IsRawOf(raw, s) && (HasNullKey(raw) ==> raw[0].value.versionId.Some?)
    ensures v in Arranged(raw) <==> Survives(s, v)
  {
    hide Lt;
    NullKeyIsDistinct(s, raw);
    ArrangedIsSorted(raw);
    assert v in Arranged(raw) <==> v in multiset(Arranged(raw));
    if HasNullKey(raw) {
      var n := ListedVersion(raw[0].value.versionId.value, raw[0].value, true);
      assert v in Arranged(raw) <==> v == n || v in AsListed(raw[1..]);
      RawSurvive(s, raw, 1, v);
    } else {
      assert raw[0..] == raw;
      RawSurvive(s, raw, 0, v);
    }
  }

  lemma NullKeyIsDistinct(s: Stored, raw: seq<RawVersion>)
    requires Consistent(s) && IsRawOf(raw, s)
    ensures HasNullKey(raw) <==> NULL_KEY in s
    ensures HasNullKey(raw) ==> raw[0].value == s[NULL_KEY]
    ensures forall i :: 1 <= i < |raw| ==> raw[i].vid != []
    ensures HasNullKey(raw) && raw[0].value.versionId.Some? ==>
              forall i :: 1 <= i < |raw| ==> raw[i].vid != raw[0].value.versionId.value
  {
    hide Lt;
    if NULL_KEY in s {
      var i :| 0 <= i < |raw| && raw[i].vid == [];
      if i > 0 {
        assert Lt(raw[0].vid, raw[i].vid);
        NothingBeforeEmpty(raw[0].vid);
        StrictTotalOrder(raw[0].vid, [], raw[0].vid);
      }
    }
    forall i | 1 <= i < |raw|
      ensures raw[i].vid != []
    {
      assert Lt(raw[0].vid, raw[i].vid);
      NothingBeforeEmpty(raw[0].vid);
      StrictTotalOrder(raw[0].vid, [], raw[0].vid);
    }
  }

  /** The raw versions past the null key are the ones stored under version keys. */
  lemma RawSurvive(s: Stored, raw: seq<RawVersion>, from: nat, v: ListedVersion)
    requires IsRawOf(raw, s) && from <= |raw|
    requires if HasNullKey(raw) then from == 1 else from == 0
    requires forall i :: from <= i < |raw| ==> raw[i].vid != []
    ensures v in AsListed(raw[from..]) <==> !v.isNullKey && Survives(s, v)
  {
    hide Lt;
    hide SortedRaw;
    hide IsRawOf;
    var rest := raw[from..];
    if !v.isNullKey && Survives(s, v) {
      var i := RawAt(s, raw, v.vid);
      assert rest[i-from] == raw[i];
      assert AsListed(rest)[i-from] == v;
    }
    if v in AsListed(rest) {
      var i :| 0 <= i < |rest| && AsListed(rest)[i] == v;
      RawIsStored(s, raw, i + from);
    }
  }

  lemma RawAt(s: Stored, raw: seq<RawVersion>, vid: Str) returns (i: nat)
    requires IsRawOf(raw, s) && VersionSlot(vid) in s
    ensures i < |raw| && raw[i].vid == vid && raw[i].value == s[VersionSlot(vid)]
  {
    hide SortedRaw;
    i :| 0 <= i < |raw| && raw[i].vid == vid;
  }

  lemma RawIsStored(s: Stored, raw: seq<RawVersion>, i: nat)
    requires IsRawOf(raw, s) && i < |raw|
    ensures VersionSlot(raw[i].vid) in s && s[VersionSlot(raw[i].vid)] == raw[i].value
  {
    hide SortedRaw;
  }

  lemma SuggestedIsFirst(raw: seq<RawVersion>)
    requires HasNullKey(raw) ==> raw[0].value.versionId.Some?
    ensures Suggested(raw) == if Arranged(raw) == [] then None else Some(Arranged(raw)[0])
  {
    hide Arranged;
    LimitedListingIsExact(raw, 1);
  }

  /** Two extra raw entries are enough to find the newest version of an object. */
  lemma ListingSuggestsNewest(s: Stored, raw: seq<RawVersion>)
    requires Consistent(s) && IsRawOf(raw, s) && (HasNullKey(raw) ==> raw[0].value.versionId.Some?)
    ensures match Suggested(raw)
            case None => forall v :: !Survives(s, v)
            case Some(v) => IsNewest(s, v)
  {
    hide Lt;
    hide Survives;
    hide Arranged;
    hide Suggested;
    hide HasNullKey;
    var all := Arranged(raw);
    NullKeyIsDistinct(s, raw);
    SuggestedIsFirst(raw);
    RawIsSorted(s, raw);
    forall v
      ensures v in all <==> Survives(s, v)
    {
      ArrangedSurvive(s, raw, v);
    }
    hide Consistent;
    hide IsRawOf;
    if all != [] {
      forall w | Survives(s, w)
        ensures Le(all[0].vid, w.vid)
      {
        var i :| 0 <= i < |all| && all[i] == w;
        StrictTotalOrder(all[0].vid, all[0].vid, all[0].vid);
        StrictTotalOrder(all[0].vid, w.vid, all[0].vid);
      }
      assert all[0] in all;
    }
  }

  lemma RawIsSorted(s: Stored, raw: seq<RawVersion>)
    requires Consistent(s) && IsRawOf(raw, s) && (HasNullKey(raw) ==> raw[0].value.versionId.Some?)
    ensures SortedListed(Arranged(raw))
  {
    hide Lt;
    NullKeyIsDistinct(s, raw);
    ArrangedIsSorted(raw);
  }

  // ---------------------------------------------------------------------------
  // Every event keeps the world safe

  lemma ApplyTwo(s: Stored, a: Op, b: Op)
    ensures Apply(s, [a]) == ApplyOp(s, a)
    ensures Apply(s, [a, b]) == ApplyOp(ApplyOp(s, a), b)
  {
    assert [a][..0] == [] && [a, b][..1] == [a];
  }

  /** A stored state whose master is no longer a placeholder there has been. */
  lemma StoreIsSafe(w: World, w': World)
    requires Safe(w) && w'.history == w.history + [w'.current] && w'.hints == w.hints && w.issued <= w'.issued
    requires Consistent(w'.current) && MasterIsRight(w'.current) && Issued(w', w'.current)
    requires forall i :: 0 <= i < |w.history| ==> !SamePHD(w'.current, w.history[i])
    ensures Safe(w')
  {
    hide Lt;
    hide Consistent;
    hide MasterIsRight;
    hide Survives;
    hide JustifiedBy;
    hide SamePHD;
    assert w'.history[|w.history|] == w'.current;
    forall hint | hint in w'.hints
      ensures Justified(w', hint)
    {
      var i :| 0 <= i < |w.history| && JustifiedBy(w.history[i], hint);
      assert JustifiedBy(w'.history[i], hint);
    }
  }

  lemma PutIsSafe(w: World, vid: Str, value: Metadata)
    requires Safe(w) && Allowed(w, NewVersionPut(vid, value))
    ensures Safe(Step(w, NewVersionPut(vid, value)))
  {
    hide Lt;
    var w' := Step(w, NewVersionPut(vid, value));
    var v := value.(versionId := Some(vid));
    ApplyTwo(w.current, Put(MasterSlot, v), Put(VersionSlot(vid), v));
    StrictTotalOrder(vid, vid, vid);
    assert vid !in w.issued;
    var i :| 0 <= i < |w.history| && w.history[i] == w.current;
    if NULL_KEY in w.current {
      var n := w.current[NULL_KEY];
      assert Survives(w.current, ListedVersion(n.versionId.value, n, true));
    }
    forall u | Survives(w'.current, u)
      ensures u.vid in w'.issued && Le(vid, u.vid)
    {
      if u.vid != vid || u.isNullKey {
        assert Survives(w.current, u);
        StrictTotalOrder(vid, u.vid, vid);
      }
    }
    StoreIsSafe(w, w');
  }

  lemma DeleteIsSafe(w: World, vid: Str, isNull: bool, phdVid: Str, read: Option<Metadata>)
    requires Safe(w) && Allowed(w, VersionDelete(vid, isNull, phdVid, read))
    ensures Safe(Step(w, VersionDelete(vid, isNull, phdVid, read))) <==> DeleteFits(w.current, vid, isNull, read)
  {
    hide Lt;
    var s := w.current;
    var w' := Step(w, VersionDelete(vid, isNull, phdVid, read));
    ApplyTwo(s, Del(DeletedSlot(vid, isNull)), Put(MasterSlot, PHDVersion(phdVid)));
    StrictTotalOrder(phdVid, phdVid, phdVid);
    assert DeletesMaster(read, vid) ==> phdVid !in w.issued;
    var i :| 0 <= i < |w.history| && w.history[i] == s;
    forall u | Survives(w'.current, u)
      ensures Survives(s, u)
    {
    }
    if !DeleteFits(s, vid, isNull, read) {
      LateDeleteHarms(w, vid, isNull, phdVid, read);
    } else if w'.current == s {
      NothingStored(w, w');
    } else {
      StoreIsSafe(w, w');
    }
  }

  /** Operations that change nothing. */
  lemma NothingStored(w: World, w': World)
    requires Safe(w) && w'.history == w.history + [w'.current] && w'.hints == w.hints && w.issued <= w'.issued
    requires w'.current == w.current
    ensures Safe(w')
  {
    hide Lt;
    hide Consistent;
    hide MasterIsRight;
    hide Survives;
    hide JustifiedBy;
    forall hint | hint in w'.hints
      ensures Justified(w', hint)
    {
      var i :| 0 <= i < |w.history| && JustifiedBy(w.history[i], hint);
      assert JustifiedBy(w'.history[i], hint);
    }
  }

  lemma LateDeleteHarms(w: World, vid: Str, isNull: bool, phdVid: Str, read: Option<Metadata>)
    requires Safe(w) && Allowed(w, VersionDelete(vid, isNull, phdVid, read))
    requires !DeleteFits(w.current, vid, isNull, read)
    ensures !Safe(Step(w, VersionDelete(vid, isNull, phdVid, read)))
  {
    hide Lt;
    var s := w.current;
    var w' := Step(w, VersionDelete(vid, isNull, phdVid, read));
    ApplyTwo(s, Del(DeletedSlot(vid, isNull)), Put(MasterSlot, PHDVersion(phdVid)));
    if IsPHD(s) {
      var i :| 0 <= i < |w.history| && w.history[i] == s;
      assert w'.history[i] == s && SamePHD(w'.current, w'.history[i]);
    }
  }

  lemma ReadIsSafe(w: World, at: nat)
    requires Safe(w) && Allowed(w, MasterRead(at))
    ensures Safe(Step(w, MasterRead(at)))
  {
    hide Lt;
    hide Survives;
    hide Consistent;
    hide MasterIsRight;
    hide JustifiedBy;
    var w' := Step(w, MasterRead(at));
    forall hint | hint in w'.hints
      ensures Justified(w', hint)
    {
      assert Justified(w, hint);
    }
  }

  lemma ListingIsSafe(w: World, at: nat, raw: seq<RawVersion>)
    requires Safe(w) && Allowed(w, Listing(at, raw))
    ensures Safe(Step(w, Listing(at, raw)))
  {
    hide Lt;
    hide Survives;
    hide Consistent;
    hide MasterIsRight;
    var s, w' := w.history[at], Step(w, Listing(at, raw));
    if IsPHD(s) {
      var added := Hint(s[MasterSlot], Suggested(raw));
      ListingSuggestsNewest(s, raw);
      assert JustifiedBy(s, added);
      forall hint | hint in w'.hints
        ensures Justified(w', hint)
      {
        if hint != added {
          assert Justified(w, hint);
        }
      }
    }
  }

  /** A suggestion that is applied after reading the current state is right for it, however
      old it is. */
  lemma AppliedHintIsRight(w: World, hint: Hint)
    requires Safe(w) && hint in w.hints && MasterOfStored(w.current) == Some(hint.phd)
    ensures JustifiedBy(w.current, hint)
  {
    hide Lt;
    hide Survives;
    hide Consistent;
    hide MasterIsRight;
    assert Justified(w, hint);
    var i :| 0 <= i < |w.history| && JustifiedBy(w.history[i], hint);
    assert SamePHD(w.current, w.history[i]);
  }

  /** A suggestion is about versions that have been stored. */
  lemma HintIsIssued(w: World, hint: Hint)
    requires Safe(w) && hint in w.hints && hint.next.Some?
    ensures var v := hint.next.value;
            && v.value.versionId == Some(v.vid) && !v.value.isPHD && v.vid in w.issued
            && (v.isNullKey ==> v.value.isNull)
  {
    hide Lt;
    hide MasterIsRight;
    assert Justified(w, hint);
    var i :| 0 <= i < |w.history| && JustifiedBy(w.history[i], hint);
    assert Consistent(w.history[i]) && Issued(w, w.history[i]);
  }

  /** What a repair leaves is right exactly when it fits the state that it is applied to. */
  lemma RepairIsRightExactly(s: Stored, next: Option<ListedVersion>)
    requires Consistent(s)
    requires next.Some? ==>
               var v := next.value;
               v.value.versionId == Some(v.vid) && !v.value.isPHD && (v.isNullKey ==> v.value.isNull)
    ensures MasterIsRight(Apply(s, RepairOps(next))) <==> RepairFits(s, next)
    ensures Consistent(Apply(s, RepairOps(next)))
    ensures forall u :: Survives(Apply(s, RepairOps(next)), u) ==> Survives(s, u)
  {
    hide Lt;
    var s' := Apply(s, RepairOps(next));
    match next {
      case None =>
        ApplyTwo(s, Del(MasterSlot), Del(MasterSlot));
        if RepairFits(s, next) {
          NothingSurvives(s);
        }
        forall u | Survives(s, u)
          ensures Survives(s', u)
        {
        }
      case Some(v) =>
        ApplyTwo(s, Put(MasterSlot, v.value), Del(NULL_KEY));
        StrictTotalOrder(v.vid, v.vid, v.vid);
        forall u
          ensures Survives(s', u) <==> Survives(s, u) && !(v.isNullKey && u.isNullKey)
        {
        }
    }
  }

  lemma RepairIsSafe(w: World, hint: Hint, read: Option<Metadata>)
    requires Safe(w) && Allowed(w, Repair(hint, read))
    ensures Safe(Step(w, Repair(hint, read))) <==> IsHarmless(w, Repair(hint, read))
    ensures read == Some(hint.phd) ==>
              (MasterIsRight(Step(w, Repair(hint, read)).current) <==> RepairFits(w.current, hint.next))
              && !IsPHD(Step(w, Repair(hint, read)).current)
  {
    hide Lt;
    hide RepairFits;
    hide MasterIsRight;
    if read == Some(hint.phd) {
      var w' := Step(w, Repair(hint, read));
      if hint.next.Some? {
        HintIsIssued(w, hint);
      }
      RepairIsRightExactly(w.current, hint.next);
      RepairedMaster(w.current, hint.next);
      var i :| 0 <= i < |w.history| && w.history[i] == w.current;
      if RepairFits(w.current, hint.next) {
        StoreIsSafe(w, w');
      }
    }
  }

  lemma RepairedMaster(s: Stored, next: Option<ListedVersion>)
    ensures MasterOfStored(Apply(s, RepairOps(next))) == if next.Some? then Some(next.value.value) else None
  {
    match next {
      case None => ApplyTwo(s, Del(MasterSlot), Del(MasterSlot));
      case Some(v) => ApplyTwo(s, Put(MasterSlot, v.value), Del(NULL_KEY));
    }
  }

  lemma NothingSurvives(s: Stored)
    requires Consistent(s) && forall v :: !Survives(s, v)
    ensures s - {MasterSlot} == map[]
  {
    forall slot | slot in s
      ensures slot == MasterSlot
    {
      if slot.VersionSlot? {
        if slot.vid == [] {
          assert Survives(s, ListedVersion(s[slot].versionId.value, s[slot], true));
        } else {
          assert Survives(s, ListedVersion(slot.vid, s[slot], false));
        }
      }
    }
  }

  // ---------------------------------------------------------------------------
  // Runs

  /** Exactly the harmless events keep the world safe. */
  lemma StepIsSafe(w: World, e: Event)
    requires Safe(w) && Allowed(w, e)
    ensures Safe(Step(w, e)) <==> IsHarmless(w, e)
  {
    hide Safe;
    hide Step;
    hide Allowed;
    match e {
      case NewVersionPut(vid, value) => PutIsSafe(w, vid, value);
      case MasterRead(at) => ReadIsSafe(w, at);
      case VersionDelete(vid, isNull, phdVid, read) => DeleteIsSafe(w, vid, isNull, phdVid, read);
      case Listing(at, raw) => ListingIsSafe(w, at, raw);
      case Repair(hint, read) => RepairIsSafe(w, hint, read);
    }
  }

  /** An event after an isolated read does no harm. */
  lemma IsolatedIsHarmless(w: World, e: Event)
    requires Safe(w) && Allowed(w, e) && IsIsolated(w, e)
    ensures IsHarmless(w, e)
  {
    hide Lt;
    hide Consistent;
    if e.Repair? && e.read == Some(e.hint.phd) {
      AppliedHintIsRight(w, e.hint);
    }
  }

  /** The worlds that a sequence of events goes through. */
  ghost predicate IsRun(worlds: seq<World>, events: seq<Event>) {
    && |worlds| == |events| + 1
    && forall i :: 0 <= i < |events| ==> Allowed(worlds[i], events[i]) && worlds[i+1] == Step(worlds[i], events[i])
  }

  /** An object as it is found: nothing listed yet. */
  ghost predicate IsStart(w: World) {
    && Consistent(w.current) && MasterIsRight(w.current)
    && w.history == [w.current] && Issued(w, w.current) && w.hints == {} && w.answers == {}
  }

  /** In every interleaving in which late deletes and repairs do no harm, the master is right. */
  lemma {:induction false} HarmlessRunsStayRight(worlds: seq<World>, events: seq<Event>)
    requires IsRun(worlds, events) && IsStart(worlds[0])
    requires forall i :: 0 <= i < |events| ==> IsHarmless(worlds[i], events[i])
    ensures forall i :: 0 <= i < |worlds| ==> Safe(worlds[i]) && MasterIsRight(worlds[i].current)
  {
    hide Consistent;
    hide MasterIsRight;
    hide Issued;
    hide Step;
    hide Allowed;
    hide IsHarmless;
    if events == [] {
      assert worlds[0].current in worlds[0].history;
    } else {
      var n := |events| - 1;
      HarmlessRunsStayRight(worlds[..n+1], events[..n]);
      assert worlds[..n+1][n] == worlds[n];
      StepIsSafe(worlds[n], events[n]);
    }
  }

  /** In every interleaving of puts, deletes, listings and repairs whose reads see the state
      that their operations are applied to, the master is right. */
  lemma {:induction false} MasterStaysRight(worlds: seq<World>, events: seq<Event>)
    requires IsRun(worlds, events) && IsStart(worlds[0])
    requires forall i :: 0 <= i < |events| ==> IsIsolated(worlds[i], events[i])
    ensures forall i :: 0 <= i < |worlds| ==> Safe(worlds[i]) && MasterIsRight(worlds[i].current)
  {
    hide Consistent;
    hide MasterIsRight;
    hide Issued;
    hide Step;
    hide Allowed;
    hide IsHarmless;
    hide IsIsolated;
    if events == [] {
      assert worlds[0].current in worlds[0].history;
    } else {
      var n := |events| - 1;
      MasterStaysRight(worlds[..n+1], events[..n]);
      assert worlds[..n+1][n] == worlds[n];
      IsolatedIsHarmless(worlds[n], events[n]);
      StepIsSafe(worlds[n], events[n]);
    }
  }

  /** A listing of the current state followed by its repair ends the placeholder. */
  lemma RepairEndsPlaceholder(w: World, at: nat, raw: seq<RawVersion>)
    requires Safe(w) && IsPHD(w.current) && at < |w.history| && w.history[at] == w.current
    requires Allowed(w, Listing(at, raw))
    ensures var listed := Step(w, Listing(at, raw));
            var phd := w.current[MasterSlot];
            var hint := Hint(phd, Suggested(raw));
            && Allowed(listed, MasterRead(at))
            && var read := Step(listed, MasterRead(at));
               && Allowed(read, Repair(hint, Some(phd)))
               && var repaired := Step(read, Repair(hint, Some(phd)));
                  MasterIsRight(repaired.current) && !IsPHD(repaired.current)
  {
    hide Lt;
    hide Survives;
    hide Consistent;
    hide MasterIsRight;
    hide Suggested;
    hide RepairOps;
    ListingIsSafe(w, at, raw);
    var listed := Step(w, Listing(at, raw));
    ReadIsSafe(listed, at);
    var read := Step(listed, MasterRead(at));
    var repair := Repair(Hint(w.current[MasterSlot], Suggested(raw)), MasterOfStored(w.current));
    IsolatedIsHarmless(read, repair);
    RepairIsSafe(read, repair.hint, repair.read);
  }

  // ---------------------------------------------------------------------------
  // Runs with generated ids

  /** How many ids the first `n` events take. */
  ghost function Taken(worlds: seq<World>, events: seq<Event>, n: nat): nat
    requires n <= |events| && n <= |worlds|
  {
    if n == 0 then 0
    else Taken(worlds, events, n - 1) + (if TakenId(worlds[n-1], events[n-1]).Some? then 1 else 0)
  }

  /** The ids generated so far. */
  ghost predicate AreGenerated(ids: set<Str>, times: seq<int>, rg: Str, infos: seq<Str>, n: nat)
    requires |times| == |infos|
  {
    n <= |times| && forall id :: id in ids ==> exists k :: 0 <= k < n && id == IdAt(times, rg, infos, k)
  }

  /** A run in which every id comes from the generator, in order, after the first `from`. */
  ghost predicate IsGeneratedRun(worlds: seq<World>, events: seq<Event>,
                                 times: seq<int>, rg: Str, infos: seq<Str>, from: nat)
    requires |times| == |infos|
  {
    && |worlds| == |events| + 1
    && AreGenerated(worlds[0].issued, times, rg, infos, from)
    && forall i :: 0 <= i < |events| ==>
         && Possible(worlds[i], events[i]) && worlds[i+1] == Step(worlds[i], events[i])
         && (TakenId(worlds[i], events[i]).Some? ==>
               var k := from + Taken(worlds, events, i);
               k < |times| && TakenId(worlds[i], events[i]).value == IdAt(times, rg, infos, k))
  }

  lemma IdIsNotEmpty(times: seq<int>, rg: Str, infos: seq<Str>, k: nat)
    requires k < |times| == |infos|
    ensures IdAt(times, rg, infos, k) != []
  {
    var s := StampAt(times, k);
    assert |PadLeft(IntToString(MAX_TS - s.ts), Repeat(48, LENGTH_TS))| == LENGTH_TS;
  }

  lemma {:induction false} IssuedAreGenerated(worlds: seq<World>, events: seq<Event>,
                                              times: seq<int>, rg: Str, infos: seq<Str>, from: nat, n: nat)
    requires |times| == |infos| && IsGeneratedRun(worlds, events, times, rg, infos, from) && n <= |events|
    ensures AreGenerated(worlds[n].issued, times, rg, infos, from + Taken(worlds, events, n))
  {
    hide Possible;
    hide IdAt;
    hide Store;
    if n > 0 {
      IssuedAreGenerated(worlds, events, times, rg, infos, from, n - 1);
      var w, e := worlds[n-1], events[n-1];
      assert worlds[n-1+1] == Step(w, e);
      IssuedAfter(w, e);
    }
  }

  lemma IssuedAfter(w: World, e: Event)
    requires Possible(w, e)
    ensures Step(w, e).issued == IssuedWith(w, e)
  {
  }

  /** Ids from the generator, over a clock that is slow enough, are fresh at every put and
      every delete. */
  lemma GeneratedIdsAreFresh(worlds: seq<World>, events: seq<Event>,
                             times: seq<int>, rg: Str, infos: seq<Str>, from: nat)
    requires |times| == |infos| && IsGeneratedRun(worlds, events, times, rg, infos, from)
    requires IsClock(times) && IsSlow(times)
    ensures IsRun(worlds, events)
  {
    hide Lt;
    hide Possible;
    hide IdAt;
    hide Step;
    forall i | 0 <= i < |events|
      ensures Allowed(worlds[i], events[i])
    {
      IssuedAreGenerated(worlds, events, times, rg, infos, from, i);
      if TakenId(worlds[i], events[i]).Some? {
        var k := from + Taken(worlds, events, i);
        IdIsNotEmpty(times, rg, infos, k);
        forall id | id in worlds[i].issued
          ensures Lt(IdAt(times, rg, infos, k), id)
        {
          var m :| 0 <= m < k && id == IdAt(times, rg, infos, m);
          GeneratedIdsDecrease(times, rg, infos, m, k);
        }
      }
    }
  }

  /** In every interleaving with ids from the generator and harmless late events, the master
      is right. */
  lemma GeneratedRunsStayRight(worlds: seq<World>, events: seq<Event>,
                               times: seq<int>, rg: Str, infos: seq<Str>, from: nat)
    requires |times| == |infos| && IsGeneratedRun(worlds, events, times, rg, infos, from)
    requires IsClock(times) && IsSlow(times) && IsStart(worlds[0])
    requires forall i :: 0 <= i < |events| ==> IsHarmless(worlds[i], events[i])
    ensures forall i :: 0 <= i < |worlds| ==> MasterIsRight(worlds[i].current)
  {
    hide *;
    GeneratedIdsAreFresh(worlds, events, times, rg, infos, from);
    HarmlessRunsStayRight(worlds, events);
  }
}
