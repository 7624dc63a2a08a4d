/**
  Repairs and deletes that have read a master entry older than the one that they are applied
  to: exactly when they leave the master right, and runs in which they do not.
 */
module LateRepairs {
  import opened Strings
  import opened Keys
  import opened Versions
  import opened MasterRepair

  /**
    Exactly when a repair leaves the master right, however old the placeholder is that it has
    read: when the suggested version, if it is still there, is still the newest one.
   */
  lemma LateRepairExactly(w: World, hint: Hint)
    requires Safe(w) && Allowed(w, Repair(hint, Some(hint.phd)))
    ensures var s := Step(w, Repair(hint, Some(hint.phd))).current;
            && (MasterIsRight(s) <==> RepairFits(w.current, hint.next))
            && (hint.next.Some? && Survives(w.current, hint.next.value) ==>
                  (MasterIsRight(s) <==> IsNewest(w.current, hint.next.value)))
  {
    hide Safe;
    hide Step;
    hide Allowed;
    hide MasterIsRight;
    hide Survives;
    hide IsNewest;
    RepairIsSafe(w, hint, Some(hint.phd));
  }

  /**
    Exactly when a delete leaves the master right, however old the master entry is that it
    has read: unless it has not seen that the version which it deletes is in the current
    master entry, as a regular version.
   */
  lemma LateDeleteExactly(w: World, vid: Str, isNull: bool, phdVid: Str, read: Option<Metadata>)
    requires Safe(w) && Allowed(w, VersionDelete(vid, isNull, phdVid, read))
    ensures MasterIsRight(Step(w, VersionDelete(vid, isNull, phdVid, read)).current)
       <==> (DeletesMaster(read, vid) || isNull
             || !(MasterSlot in w.current && w.current[MasterSlot].versionId == Some(vid))
             || w.current[MasterSlot].isPHD || w.current[MasterSlot].isNull)
  {
    hide Lt;
    var s, w' := w.current, Step(w, VersionDelete(vid, isNull, phdVid, read));
    ApplyTwo(s, Del(DeletedSlot(vid, isNull)), Put(MasterSlot, PHDVersion(phdVid)));
    forall u | Survives(w'.current, u)
      ensures Survives(s, u)
    {
    }
  }

  /**
    A late delete under a placeholder leaves the placeholder, and so a suggestion to put the
    deleted version in the master entry is taken for a current one: the next repair, although
    it reads the current state, brings the version back to the master entry alone.
   */
  lemma LateDeleteMisleads(w: World, hint: Hint, phdVid: Str, read: Option<Metadata>)
    requires Safe(w) && hint in w.hints && MasterOfStored(w.current) == Some(hint.phd)
    requires hint.next.Some? && !hint.next.value.value.isNull
    requires read in w.answers && !DeletesMaster(read, hint.next.value.vid)
    requires Some(hint.phd) in w.answers
    ensures var v := hint.next.value;
            var delete := VersionDelete(v.vid, false, phdVid, read);
            && Allowed(w, delete)
            && var deleted := Step(w, delete);
               && MasterIsRight(deleted.current)
               && Allowed(deleted, Repair(hint, Some(hint.phd))) && IsIsolated(deleted, Repair(hint, Some(hint.phd)))
               && !MasterIsRight(Step(deleted, Repair(hint, Some(hint.phd))).current)
  {
    hide Lt;
    AppliedHintIsRight(w, hint);
    HintIsIssued(w, hint);
    var v := hint.next.value;
    var delete := VersionDelete(v.vid, false, phdVid, read);
    var deleted := Step(w, delete);
    ApplyTwo(w.current, Del(VersionSlot(v.vid)), Del(VersionSlot(v.vid)));
    ApplyTwo(deleted.current, Put(MasterSlot, v.value), Del(NULL_KEY));
  }

  // ---------------------------------------------------------------------------
  // A run that loses the newest version

  /** After a listing: a put, a delete of another version that has seen the put, and then a
      repair that has not seen it. */
  ghost function LateEvents(w: World, hint: Hint, vid: Str, value: Metadata, other: Str, at: nat): seq<Event> {
    [NewVersionPut(vid, value),
     MasterRead(|w.history|),
     VersionDelete(other, false, [], Some(value.(versionId := Some(vid)))),
     MasterRead(at),
     Repair(hint, Some(hint.phd))]
  }

  /**
    Whenever a repair is to come, a new version may be put and then disappear from the master
    entry although it survives: every event is right but the repair, which has read the
    placeholder from before the put.
   */
  lemma LateRepairLosesNewest(w: World, hint: Hint, vid: Str, value: Metadata, other: Str, at: nat)
    returns (worlds: seq<World>)
    requires Safe(w) && hint in w.hints && MasterOfStored(w.current) == Some(hint.phd)
    requires hint.next.Some? && other != vid && other != []
    requires Fresh(w, vid) && !value.isPHD && !value.isNull
    requires at < |w.history| && w.history[at] == w.current
    ensures var events := LateEvents(w, hint, vid, value, other, at);
            var newest := ListedVersion(vid, value.(versionId := Some(vid)), false);
            && IsRun(worlds, events) && worlds[0] == w
            && (forall i :: 0 <= i < 4 ==> IsIsolated(worlds[i], events[i]))
            && (forall i :: 0 <= i < 5 ==> Safe(worlds[i]) && MasterIsRight(worlds[i].current))
            && IsNewest(worlds[5].current, newest) && !MasterIsRight(worlds[5].current)
            && MasterOfStored(worlds[5].current) == Some(hint.next.value.value)
  {
    hide Lt;
    hide Safe;
    hide MasterIsRight;
    hide RepairFits;
    hide Fresh;
    var events := LateEvents(w, hint, vid, value, other, at);
    var v := value.(versionId := Some(vid));
    var w1 := Step(w, events[0]);
    PutIsNewest(w, vid, value);
    PutIsSafe(w, vid, value);
    RightIfSafe(w);
    RightIfSafe(w1);
    assert w1.history[|w.history|] == w1.current;
    var w2 := Step(w1, events[1]);
    ReadIsSafe(w1, |w.history|);
    var w3 := Step(w2, events[2]);
    DeleteOfOther(w2, other, v);
    RightIfSafe(w3);
    StillNewest(w2.current, ListedVersion(vid, v, false), other);
    assert w3.history[at] == w.current;
    var w4 := Step(w3, events[3]);
    ReadIsSafe(w3, at);
    var w5 := Step(w4, events[4]);
    RepairIsSafe(w4, hint, Some(hint.phd));
    RepairedMaster(w4.current, hint.next);
    FreshIsNewer(w, hint, vid);
    NotNewest(w4, hint, ListedVersion(vid, v, false));
    worlds := [w, w1, w2, w3, w4, w5];
    forall i | 0 <= i < 5
      ensures Allowed(worlds[i], events[i]) && worlds[i+1] == Step(worlds[i], events[i])
    {
    }
  }

  lemma RightIfSafe(w: World)
    requires Safe(w)
    ensures MasterIsRight(w.current)
  {
  }

  lemma PutIsNewest(w: World, vid: Str, value: Metadata)
    requires Safe(w) && Allowed(w, NewVersionPut(vid, value))
    ensures var w' := Step(w, NewVersionPut(vid, value));
            && MasterOfStored(w'.current) == Some(value.(versionId := Some(vid)))
            && IsNewest(w'.current, ListedVersion(vid, value.(versionId := Some(vid)), false))
  {
    hide Lt;
    var v, s' := value.(versionId := Some(vid)), Step(w, NewVersionPut(vid, value)).current;
    ApplyTwo(w.current, Put(MasterSlot, v), Put(VersionSlot(vid), v));
    StrictTotalOrder(vid, vid, vid);
    forall u | Survives(s', u)
      ensures Le(vid, u.vid)
    {
      if u.vid != vid || u.isNullKey {
        assert Survives(w.current, u);
        StrictTotalOrder(vid, u.vid, vid);
      }
    }
  }

  lemma DeleteOfOther(w: World, other: Str, v: Metadata)
    requires Safe(w) && MasterOfStored(w.current) == Some(v) && Some(v) in w.answers
    requires !v.isPHD && v.versionId != Some(other) && other != []
    ensures var delete := VersionDelete(other, false, [], Some(v));
            Allowed(w, delete) && Safe(Step(w, delete))
            && Step(w, delete).current == w.current - {VersionSlot(other)}
  {
    hide Lt;
    hide Safe;
    var delete := VersionDelete(other, false, [], Some(v));
    ApplyTwo(w.current, Del(VersionSlot(other)), Del(VersionSlot(other)));
    IsolatedIsHarmless(w, delete);
    DeleteIsSafe(w, other, false, [], Some(v));
  }

  lemma StillNewest(s: Stored, v: ListedVersion, other: Str)
    requires IsNewest(s, v) && !v.isNullKey && v.vid != other && other != []
    ensures IsNewest(s - {VersionSlot(other)}, v)
  {
    hide Lt;
    forall u | Survives(s - {VersionSlot(other)}, u)
      ensures Survives(s, u)
    {
    }
  }

  lemma FreshIsNewer(w: World, hint: Hint, vid: Str)
    requires Safe(w) && hint in w.hints && hint.next.Some? && Fresh(w, vid)
    ensures Lt(vid, hint.next.value.vid)
  {
    HintIsIssued(w, hint);
  }

  /** A suggestion does not fit once there is a newer version. */
  lemma NotNewest(w: World, hint: Hint, newest: ListedVersion)
    requires hint.next.Some? && IsNewest(w.current, newest) && !newest.isNullKey
    requires Lt(newest.vid, hint.next.value.vid)
    ensures !RepairFits(w.current, hint.next)
    ensures IsNewest(Apply(w.current, RepairOps(hint.next)), newest)
  {
    hide Lt;
    var v := hint.next.value;
    var s' := Apply(w.current, RepairOps(hint.next));
    ApplyTwo(w.current, Put(MasterSlot, v.value), Del(NULL_KEY));
    StrictTotalOrder(newest.vid, v.vid, newest.vid);
    forall u | Survives(s', u)
      ensures Survives(w.current, u)
    {
    }
    assert Survives(s', newest);
  }

  // ---------------------------------------------------------------------------
  // From a start

  function Regular(vid: Str): Metadata {
    Metadata(Some(vid), false, false, false, false, 0)
  }

  /** A placeholder above two versions. */
  function Start(): Stored {
    map[MasterSlot := PHDVersion([2]), VersionSlot([3]) := Regular([3]), VersionSlot([4]) := Regular([4])]
  }

  ghost function StartWorld(): World {
    World(Start(), [Start()], {[2], [3], [4]}, {}, {})
  }

  lemma StartIsStart()
    ensures IsStart(StartWorld()) && Safe(StartWorld())
  {
    hide Lt;
  }

  /** A listing suggests version 3; then version 1 is put while version 4 is being deleted,
      and the repair that has read the old placeholder puts version 3 above version 1. */
  lemma LateRepairRun() returns (worlds: seq<World>, events: seq<Event>)
    ensures IsRun(worlds, events) && |events| == 6 && IsStart(worlds[0])
    ensures forall i :: 0 <= i < 5 ==> IsIsolated(worlds[i], events[i])
    ensures forall i :: 0 <= i < 6 ==> MasterIsRight(worlds[i].current)
    ensures !MasterIsRight(worlds[6].current)
    ensures IsNewest(worlds[6].current, ListedVersion([1], Regular([1]), false))
    ensures MasterOfStored(worlds[6].current) == Some(Regular([3]))
  {
    hide Lt;
    hide Safe;
    hide MasterIsRight;
    hide IsStart;
    hide IsNewest;
    hide Survives;
    var w0 := StartWorld();
    StartIsStart();
    RightIfSafe(w0);
    var raw := [RawVersion([3], Regular([3])), RawVersion([4], Regular([4]))];
    StartIsListed(raw);
    ListingIsSafe(w0, 0, raw);
    var w1 := Step(w0, Listing(0, raw));
    var hint := Hint(PHDVersion([2]), Some(ListedVersion([3], Regular([3]), false)));
    FreshId(w1);
    var rest := LateRepairLosesNewest(w1, hint, [1], Regular([1]), [4], 0);
    events := [Listing(0, raw)] + LateEvents(w1, hint, [1], Regular([1]), [4], 0);
    worlds := [w0] + rest;
    forall i | 0 <= i < 6
      ensures Allowed(worlds[i], events[i]) && worlds[i+1] == Step(worlds[i], events[i])
      ensures MasterIsRight(worlds[i].current) && (i < 5 ==> IsIsolated(worlds[i], events[i]))
    {
      if i > 0 {
        assert worlds[i] == rest[i-1] && worlds[i+1] == rest[i];
      }
    }
  }

  lemma FreshId(w: World)
    requires w.issued == {[2], [3], [4]}
    ensures Fresh(w, [1])
  {
  }

  lemma StartIsListed(raw: seq<RawVersion>)
    requires raw == [RawVersion([3], Regular([3])), RawVersion([4], Regular([4]))]
    ensures IsRawOf(raw, Start()) && !HasNullKey(raw)
    ensures Suggested(raw) == Some(ListedVersion([3], Regular([3]), false))
  {
    assert Lt([3], [4]);
    var s := Start();
    forall vid | VersionSlot(vid) in s
      ensures exists i :: 0 <= i < |raw| && raw[i].vid == vid
    {
      assert vid == raw[0].vid || vid == raw[1].vid;
    }
  }
}
