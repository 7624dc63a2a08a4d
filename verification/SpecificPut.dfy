/**
  Version-specific puts: the operations they produce, seen on the map from versions to
  values that the master entry, the version entries and the null entry stand for together.
 */
module SpecificPut {
  import opened Strings
  import opened Keys
  import opened Versions
  import opened VersionIds

  /** The id of versions from before versioning, older than any other. */
  function InfVid(replicationGroupId: Str): Str {
    VersionIdOf(Stamp(0, 0), replicationGroupId, [])
  }

  /** A null version as it is stored under the null key. */
  function AsNull(m: Metadata, inf: Str): Metadata {
    m.(isNull := true, isNull2 := true, versionId := if m.versionId.Some? then m.versionId else Some(inf))
  }

  predicate IsNullMaster(s: Stored) {
    MasterSlot in s && !s[MasterSlot].isPHD && (s[MasterSlot].isNull || s[MasterSlot].versionId == None)
  }

  /** A null version that older software has stored under its own id. */
  predicate IsFlagged(s: Stored, vid: Str) {
    vid != [] && VersionSlot(vid) in s && s[VersionSlot(vid)].isNull
  }

  /** The null version of an object: in the master entry, under the null key, or under its
      own id. */
  ghost function NullVersion(s: Stored, inf: Str): Option<Metadata> {
    if IsNullMaster(s) then Some(AsNull(s[MasterSlot], inf))
    else if NULL_KEY in s then Some(AsNull(s[NULL_KEY], inf))
    else if vid :| IsFlagged(s, vid) then Some(AsNull(s[VersionSlot(vid)], inf))
    else None
  }

  /** The regular version with a given id; an entry with the id of the null version is no
      version of its own. */
  ghost function RegularVersion(s: Stored, vid: Str, inf: Str): Option<Metadata> {
    if vid == [] || VersionSlot(vid) !in s then None
    else if NullVersion(s, inf).Some? && NullVersion(s, inf).value.versionId == Some(vid) then None
    else Some(s[VersionSlot(vid)])
  }

  /** The id that a value stands for. */
  function IdAt(s: Stored, slot: Slot, inf: Str): Str
    requires slot in s
  {
    if s[slot].versionId.Some? then s[slot].versionId.value else inf
  }

  function MasterId(s: Stored, inf: Str): Str
    requires MasterSlot in s
  {
    IdAt(s, MasterSlot, inf)
  }

  /** Whether the value in a slot is a null version. */
  predicate IsNullAt(s: Stored, slot: Slot) {
    match slot
    case MasterSlot => IsNullMaster(s)
    case VersionSlot(vid) => if vid == [] then NULL_KEY in s else IsFlagged(s, vid)
  }

  /** All null values, wherever they are stored, are of one version. */
  ghost predicate OneNullVersion(s: Stored, inf: Str) {
    forall a, b :: IsNullAt(s, a) && IsNullAt(s, b) ==> IdAt(s, a, inf) == IdAt(s, b, inf)
  }

  /** How the versions of an object are laid out. */
  ghost predicate Layout(s: Stored, inf: Str) {
    && (MasterSlot !in s ==> s == map[])
    && OneNullVersion(s, inf)
    && (forall vid: Str :: vid != [] && VersionSlot(vid) in s ==>
          s[VersionSlot(vid)].versionId == Some(vid) && !s[VersionSlot(vid)].isPHD
          && Le(MasterId(s, inf), vid))
    && (NULL_KEY in s ==>
          var n := s[NULL_KEY];
          && !n.isPHD && n.versionId.Some? && n.versionId.value != []
          && Le(MasterId(s, inf), n.versionId.value)
          && VersionSlot(n.versionId.value) !in s
          && !IsNullMaster(s))
    && (MasterSlot in s ==>
          var m := s[MasterSlot];
          && (m.versionId.Some? ==> m.versionId.value != [])
          && (m.isPHD ==> m.versionId.Some? && !m.isNull)
          && (m.versionId == None ==> s == map[MasterSlot := m])
          && (IsNullMaster(s) && m.isNull2 && m.versionId.Some? ==> VersionSlot(m.versionId.value) !in s)
          && (!m.isPHD && !IsNullMaster(s) ==>
                VersionSlot(m.versionId.value) in s && s[VersionSlot(m.versionId.value)] == m))
  }

  /** What a put of version `vid` may be asked on top of a stored state. */
  ghost predicate IsRequest(s: Stored, vid: Str, isNull: bool, value: Metadata, inf: Str) {
    && vid != [] && inf != [] && Le(vid, inf)
    && value.versionId == Some(vid) && value.isNull == isNull && !value.isPHD
    // the ids of placeholders are never handed out
    && (MasterSlot in s && s[MasterSlot].isPHD ==> s[MasterSlot].versionId != Some(vid))
    && (if isNull then
          // not the id of a regular version
          RegularVersion(s, vid, inf) == None
        else
          // not the id of the null version
          NullVersion(s, inf).Some? ==> NullVersion(s, inf).value.versionId != Some(vid))
  }

  /** A null put that is older than a null master is dropped. */
  ghost predicate IsDropped(s: Stored, vid: Str, isNull: bool, inf: Str) {
    isNull && IsNullMaster(s) && Lt(MasterId(s, inf), vid)
  }

  /** A null put leaves behind a null version that older software has stored under an id of
      its own, unless it is a put of that version or the master entry is null, too. */
  ghost predicate LeavesOldNull(s: Stored, vid: Str, isNull: bool) {
    isNull && !IsNullMaster(s) && exists old' :: IsFlagged(s, old') && old' != vid
  }

  /** Entries that older software may have left for a null master under its own id. */
  function DeprecatedOps(m: Metadata): seq<Op> {
    if m.isNull && !m.isNull2 && m.versionId.Some? && m.versionId.value != []
    then [Del(VersionSlot(m.versionId.value))] else []
  }

  /** What becomes of the null version when `vid` takes the master entry from `m`. */
  function DemotionOps(m: Metadata, vid: Str, isNull: bool, inf: Str): seq<Op> {
    var stays := m.versionId == None || (m.isNull && m.versionId.value != []);
    if m.versionId == Some(vid) then []
    else if isNull then (if stays then [] else [Del(NULL_KEY)])
    else if stays then [Put(NULL_KEY, AsNull(m, inf))]
    else []
  }

  function SpecificPutOps(master: Option<Metadata>, vid: Str, isNull: bool, value: Metadata, inf: Str): seq<Op> {
    var own := if isNull then [] else [Put(VersionSlot(vid), value)];
    match master
    case None => own + [Put(MasterSlot, value)]
    case Some(m) =>
      if m.versionId.Some? && Lt(m.versionId.value, vid) then
        own + if isNull && !m.isNull then [Put(NULL_KEY, value), Del(VersionSlot(vid))] else []
      else
        own + DeprecatedOps(m) + DemotionOps(m, vid, isNull, inf) + [Put(MasterSlot, value)]
  }

  function MasterOption(s: Stored): Option<Metadata> {
    if MasterSlot in s then Some(s[MasterSlot]) else None
  }

  lemma {:induction false} ApplyConcat(s: Stored, a: seq<Op>, b: seq<Op>)
    ensures Apply(s, a + b) == Apply(Apply(s, a), b)
  {
    if b == [] {
      assert a + b == a;
    } else {
      var n := |b| - 1;
      ApplyConcat(s, a, b[..n]);
      assert (a + b)[..|a+b|-1] == a + b[..n];
    }
  }

  lemma ApplySingle(s: Stored, op: Op)
    ensures Apply(s, [op]) == ApplyOp(s, op)
  {
    assert [op][..0] == [];
  }

  /** The stored state after a put, in one update. */
  function AfterPut(s: Stored, vid: Str, isNull: bool, value: Metadata, inf: Str): Stored {
    var own := if isNull then s else s[VersionSlot(vid) := value];
    if MasterSlot !in s then own[MasterSlot := value]
    else
      var m := s[MasterSlot];
      if m.versionId.Some? && Lt(m.versionId.value, vid) then
        if isNull && !m.isNull then own[NULL_KEY := value] - {VersionSlot(vid)} else own
      else
        var cleaned := if DeprecatedOps(m) == [] then own else own - {VersionSlot(m.versionId.value)};
        var demoted :=
          if DemotionOps(m, vid, isNull, inf) == [] then cleaned
          else if isNull then cleaned - {NULL_KEY}
          else cleaned[NULL_KEY := AsNull(m, inf)];
        demoted[MasterSlot := value]
  }

  lemma PutOpsApplied(s: Stored, vid: Str, isNull: bool, value: Metadata, inf: Str)
    ensures Apply(s, SpecificPutOps(MasterOption(s), vid, isNull, value, inf)) == AfterPut(s, vid, isNull, value, inf)
  {
    hide Lt;
    hide Apply;
    var own: seq<Op> := if isNull then [] else [Put(VersionSlot(vid), value)];
    var s1 := Apply(s, own);
    ApplyOptional(s, own);
    if MasterSlot !in s {
      ApplySingle(s1, Put(MasterSlot, value));
      ApplyConcat(s, own, [Put(MasterSlot, value)]);
    } else {
      var m := s[MasterSlot];
      if m.versionId.Some? && Lt(m.versionId.value, vid) {
        if isNull && !m.isNull {
          ApplyPair(s, Put(NULL_KEY, value), Del(VersionSlot(vid)));
          assert own + [Put(NULL_KEY, value), Del(VersionSlot(vid))] == [Put(NULL_KEY, value), Del(VersionSlot(vid))];
        } else {
          assert own + [] == own;
        }
      } else {
        NewerOpsApplied(s1, own, s, m, vid, isNull, value, inf);
      }
    }
  }

  lemma NewerOpsApplied(s1: Stored, own: seq<Op>, s: Stored, m: Metadata,
                        vid: Str, isNull: bool, value: Metadata, inf: Str)
    requires s1 == Apply(s, own)
    ensures var dep, dem := DeprecatedOps(m), DemotionOps(m, vid, isNull, inf);
            var s2 := if dep == [] then s1 else ApplyOp(s1, dep[0]);
            var s3 := if dem == [] then s2 else ApplyOp(s2, dem[0]);
            Apply(s, own + dep + dem + [Put(MasterSlot, value)]) == s3[MasterSlot := value]
  {
    hide Lt;
    hide Apply;
    var dep, dem := DeprecatedOps(m), DemotionOps(m, vid, isNull, inf);
    ApplyConcat(s, own + dep + dem, [Put(MasterSlot, value)]);
    ApplyConcat(s, own + dep, dem);
    ApplyConcat(s, own, dep);
    ApplyOptional(s1, dep);
    ApplyOptional(Apply(s1, dep), dem);
    ApplySingle(Apply(Apply(s1, dep), dem), Put(MasterSlot, value));
  }

  lemma ApplyOptional(s: Stored, ops: seq<Op>)
    requires |ops| <= 1
    ensures Apply(s, ops) == if ops == [] then s else ApplyOp(s, ops[0])
  {
    if ops != [] {
      assert ops == [ops[0]];
      ApplySingle(s, ops[0]);
    }
  }

  lemma ApplyPair(s: Stored, a: Op, b: Op)
    ensures Apply(s, [a, b]) == ApplyOp(ApplyOp(s, a), b)
  {
    assert [a, b][..1] == [a];
    ApplySingle(s, a);
  }

  /** With neither a null master nor a null key, the null version is one that older software
      has stored. */
  lemma FlaggedIsNull(s: Stored, inf: Str, vid: Str)
    requires !IsNullMaster(s) && NULL_KEY !in s && IsFlagged(s, vid)
    ensures exists v :: IsFlagged(s, v) && NullVersion(s, inf) == Some(AsNull(s[VersionSlot(v)], inf))
  {
    var v :| IsFlagged(s, v) && NullVersion(s, inf) == Some(AsNull(s[VersionSlot(v)], inf));
  }

  /** The places of the null version agree on its id. */
  lemma NullIsUnique(s: Stored, inf: Str, slot: Slot)
    requires OneNullVersion(s, inf) && IsNullAt(s, slot)
    requires forall vid :: IsFlagged(s, vid) ==> s[VersionSlot(vid)].versionId == Some(vid)
    ensures NullVersion(s, inf).Some? && NullVersion(s, inf).value.versionId == Some(IdAt(s, slot, inf))
  {
    if IsNullMaster(s) {
      assert IsNullAt(s, MasterSlot);
    } else if NULL_KEY in s {
      assert IsNullAt(s, NULL_KEY);
    } else {
      FlaggedIsNull(s, inf, slot.vid);
      var vid :| IsFlagged(s, vid) && NullVersion(s, inf) == Some(AsNull(s[VersionSlot(vid)], inf));
      assert IsNullAt(s, VersionSlot(vid));
    }
  }

  /** Every version that the layout has, by its id. */
  lemma NullIs(s: Stored, inf: Str)
    requires Layout(s, inf)
    ensures IsNullMaster(s) ==> NullVersion(s, inf) == Some(AsNull(s[MasterSlot], inf))
    ensures NULL_KEY in s ==> NullVersion(s, inf) == Some(AsNull(s[NULL_KEY], inf)) && !IsNullMaster(s)
    ensures NULL_KEY in s ==> forall vid :: !IsFlagged(s, vid)
    ensures forall vid :: IsFlagged(s, vid) ==>
              NullVersion(s, inf).Some? && NullVersion(s, inf).value.versionId == Some(vid)
    ensures forall vid :: IsFlagged(s, vid) && !IsNullMaster(s) ==>
              NullVersion(s, inf) == Some(AsNull(s[VersionSlot(vid)], inf))
    ensures NullVersion(s, inf).Some? ==> IsNullMaster(s) || NULL_KEY in s || exists vid :: IsFlagged(s, vid)
  {
    hide Lt;
    forall vid | IsFlagged(s, vid)
      ensures NULL_KEY !in s
      ensures NullVersion(s, inf).Some? && NullVersion(s, inf).value.versionId == Some(vid)
      ensures !IsNullMaster(s) ==> NullVersion(s, inf) == Some(AsNull(s[VersionSlot(vid)], inf))
    {
      if NULL_KEY in s {
        assert IsNullAt(s, NULL_KEY) && IsNullAt(s, VersionSlot(vid));
      }
      NullIsUnique(s, inf, VersionSlot(vid));
      if !IsNullMaster(s) {
        FlaggedIsNull(s, inf, vid);
      }
    }
  }

  /** What holds of the entries other than their null versions. */
  lemma EntriesStayLaidOut(s: Stored, vid: Str, isNull: bool, value: Metadata, inf: Str)
    requires Layout(s, inf) && IsRequest(s, vid, isNull, value, inf)
    requires OneNullVersion(AfterPut(s, vid, isNull, value, inf), inf)
    ensures Layout(AfterPut(s, vid, isNull, value, inf), inf)
  {
    hide Lt;
    hide OneNullVersion;
    Ordered();
    NullIs(s, inf);
  }

  /** Where null values are stored after a put. */
  lemma NullsAfter(s: Stored, vid: Str, isNull: bool, value: Metadata, inf: Str, slot: Slot)
    requires Layout(s, inf) && IsRequest(s, vid, isNull, value, inf)
    requires IsNullAt(AfterPut(s, vid, isNull, value, inf), slot)
    ensures var s' := AfterPut(s, vid, isNull, value, inf);
            if isNull && !IsDropped(s, vid, isNull, inf)
            then IdAt(s', slot, inf) == vid || (slot.VersionSlot? && IsFlagged(s, slot.vid) && !IsNullMaster(s)
                                                && slot.vid != vid)
            else NullVersion(s, inf).Some? && NullVersion(s, inf).value.versionId == Some(IdAt(s', slot, inf))
  {
    hide Lt;
    Ordered();
    NullIs(s, inf);
  }

  /** The null version that is left behind is a second one. */
  lemma TwoNullVersions(s: Stored, vid: Str, value: Metadata, inf: Str, other: Str)
    requires Layout(s, inf) && IsRequest(s, vid, true, value, inf) && !IsNullMaster(s)
    requires IsFlagged(s, other) && other != vid
    ensures !OneNullVersion(AfterPut(s, vid, true, value, inf), inf)
  {
    hide Lt;
    Ordered();
    NullIs(s, inf);
    var s' := AfterPut(s, vid, true, value, inf);
    assert IsNullAt(s', VersionSlot(other)) && IdAt(s', VersionSlot(other), inf) == other;
    var slot := if IsNullMaster(s') then MasterSlot else NULL_KEY;
    assert IsNullAt(s', slot) && IdAt(s', slot, inf) == vid;
  }

  /**
    Exactly when a put keeps the layout, with one null version in it: a null put under a
    regular master leaves behind, and so makes a second one of, a null version that older
    software has stored under another id.
   */
  lemma PutKeepsLayout(s: Stored, vid: Str, isNull: bool, value: Metadata, inf: Str)
    requires Layout(s, inf) && IsRequest(s, vid, isNull, value, inf)
    ensures Layout(AfterPut(s, vid, isNull, value, inf), inf) <==> !LeavesOldNull(s, vid, isNull)
  {
    hide Lt;
    var s' := AfterPut(s, vid, isNull, value, inf);
    if LeavesOldNull(s, vid, isNull) {
      var other :| IsFlagged(s, other) && other != vid;
      TwoNullVersions(s, vid, value, inf, other);
    } else {
      forall a, b | IsNullAt(s', a) && IsNullAt(s', b)
        ensures IdAt(s', a, inf) == IdAt(s', b, inf)
      {
        NullsAfter(s, vid, isNull, value, inf, a);
        NullsAfter(s, vid, isNull, value, inf, b);
      }
      EntriesStayLaidOut(s, vid, isNull, value, inf);
    }
  }

  /**
    A put updates exactly its own entry of the version map: a regular put the version with
    its id, a null put the null version.  Every other version stays as it was: the null
    version in particular when its master entry is taken over by a newer version, and an
    old null version becomes the new one when a null put migrates it.
   */
  lemma PutUpdatesOneVersion(s: Stored, vid: Str, isNull: bool, value: Metadata, inf: Str, other: Str)
    requires Layout(s, inf) && IsRequest(s, vid, isNull, value, inf)
    requires !LeavesOldNull(s, vid, isNull) && !IsDropped(s, vid, isNull, inf)
    ensures var s' := AfterPut(s, vid, isNull, value, inf);
            if isNull then
              && NullVersion(s', inf) == Some(AsNull(value, inf))
              && RegularVersion(s', other, inf) == RegularVersion(s, other, inf)
            else
              && NullVersion(s', inf) == NullVersion(s, inf)
              && RegularVersion(s', other, inf) == if other == vid then Some(value) else RegularVersion(s, other, inf)
  {
    hide Lt;
    Ordered();
    NullIs(s, inf);
    PutKeepsLayout(s, vid, isNull, value, inf);
    NullIs(AfterPut(s, vid, isNull, value, inf), inf);
  }

  /** When a regular put takes the master entry from a null version, that one goes under the
      null key: flagged as null, under its own id or else the oldest of all, and otherwise as it
      was. */
  lemma NullMasterIsDemoted(s: Stored, vid: Str, value: Metadata, inf: Str)
    requires Layout(s, inf) && IsRequest(s, vid, false, value, inf)
    requires IsNullMaster(s) && !Lt(MasterId(s, inf), vid)
    ensures var s', m := AfterPut(s, vid, false, value, inf), s[MasterSlot];
            && NULL_KEY in s' && s'[NULL_KEY].isNull && s'[NULL_KEY].isNull2
            && s'[NULL_KEY].versionId == Some(MasterId(s, inf))
            && s'[NULL_KEY].isDeleteMarker == m.isDeleteMarker && s'[NULL_KEY].body == m.body
            && MasterSlot in s' && s'[MasterSlot] == value
            && VersionSlot(vid) in s' && s'[VersionSlot(vid)] == value
  {
    hide Lt;
    Ordered();
    NullIs(s, inf);
  }

  /** The id of versions from before versioning is older than any that is generated. */
  lemma InfVidIsOldest(stamp: Stamp, rg: Str, rg': Str, info: Str)
    requires Representable(stamp) && Later(Stamp(0, 0), stamp)
    ensures Lt(VersionIdOf(stamp, rg, info), InfVid(rg'))
  {
    hide Lt;
    hide VersionIdOf;
    LaterIdsAreSmaller(Stamp(0, 0), stamp, rg', rg, [], info);
  }

  /** A null put that is dropped changes nothing at all. */
  lemma DroppedPutChangesNothing(s: Stored, vid: Str, value: Metadata, inf: Str)
    requires Layout(s, inf) && IsDropped(s, vid, true, inf) && Le(vid, inf)
    ensures AfterPut(s, vid, true, value, inf) == s
  {
    hide Lt;
  }

  /**
    Exactly when a null put becomes the one null version of the object: it is not older
    than a null master, and leaves no other null version behind.
   */
  lemma NullPutTakesEffect(s: Stored, vid: Str, value: Metadata, inf: Str)
    requires Layout(s, inf) && IsRequest(s, vid, true, value, inf)
    ensures var s' := AfterPut(s, vid, true, value, inf);
            OneNullVersion(s', inf) && NullVersion(s', inf) == Some(AsNull(value, inf))
            <==> !IsDropped(s, vid, true, inf) && !LeavesOldNull(s, vid, true)
  {
    hide Lt;
    var s' := AfterPut(s, vid, true, value, inf);
    if IsDropped(s, vid, true, inf) {
      DroppedPutChangesNothing(s, vid, value, inf);
      NullIs(s, inf);
      StrictTotalOrder(vid, MasterId(s, inf), vid);
      StrictTotalOrder(vid, vid, vid);
    } else if LeavesOldNull(s, vid, true) {
      var other :| IsFlagged(s, other) && other != vid;
      TwoNullVersions(s, vid, value, inf, other);
    } else {
      PutKeepsLayout(s, vid, true, value, inf);
      PutUpdatesOneVersion(s, vid, true, value, inf, vid);
    }
  }

  /** A null put below a regular master migrates the null version that older software has
      stored under its own id: it moves to the null key. */
  lemma NullPutMigrates(s: Stored, vid: Str, value: Metadata, inf: Str)
    requires Layout(s, inf) && IsRequest(s, vid, true, value, inf)
    requires IsFlagged(s, vid) && !IsNullMaster(s)
    ensures var s' := AfterPut(s, vid, true, value, inf);
            && s' == s[NULL_KEY := value] - {VersionSlot(vid)} && NULL_KEY !in s
            && Layout(s', inf) && NullVersion(s', inf) == Some(AsNull(value, inf))
  {
    hide Lt;
    Ordered();
    NullIs(s, inf);
    assert !LeavesOldNull(s, vid, true);
    PutKeepsLayout(s, vid, true, value, inf);
    PutUpdatesOneVersion(s, vid, true, value, inf, vid);
  }
}
