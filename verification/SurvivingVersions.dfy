/**
  Which versions of an object there are: what puts, deletes and repairs leave of them, which
  ones survive a whole run, and that a deleted version does not come back.
 */
module SurvivingVersions {
  import opened Strings
  import opened Keys
  import opened Versions
  import opened MasterRepair

  /** Where a version is stored. */
  function SlotOf(v: ListedVersion): Slot {
    if v.isNullKey then NULL_KEY else VersionSlot(v.vid)
  }

  /** Nothing is different but what is in the master entry and in the given slot. */
  ghost predicate SameButFor(s: Stored, s': Stored, slot: Slot) {
    forall other :: other != MasterSlot && other != slot ==>
      (other in s' <==> other in s) && (other in s ==> s'[other] == s[other])
  }

  /** What survives depends on the slot of the version only. */
  lemma SameSurvives(s: Stored, s': Stored, slot: Slot, v: ListedVersion)
    requires SameButFor(s, s', slot) && SlotOf(v) != slot
    ensures Survives(s', v) <==> Survives(s, v)
  {
    assert SlotOf(v) != MasterSlot;
  }

  // ---------------------------------------------------------------------------
  // What each kind of operations leaves

  /** A delete removes the version from its slot, whatever has been read; all others stay. */
  lemma DeleteTakesEffect(s: Stored, read: Option<Metadata>, vid: Str, isNull: bool, phdVid: Str)
    ensures var slot := if isNull then NULL_KEY else VersionSlot(vid);
            var s' := Apply(s, DeleteOps(read, vid, isNull, phdVid));
            && slot !in s' && SameButFor(s, s', slot)
            && MasterOfStored(s') == (if read.Some? && (read.value.isPHD || read.value.versionId == Some(vid))
                                      then Some(PHDVersion(phdVid)) else MasterOfStored(s))
            && forall v :: Survives(s', v) <==> Survives(s, v) && SlotOf(v) != slot
  {
    var slot := if isNull then NULL_KEY else VersionSlot(vid);
    var s' := Apply(s, DeleteOps(read, vid, isNull, phdVid));
    ApplyTwo(s, Del(slot), Put(MasterSlot, PHDVersion(phdVid)));
    forall v
      ensures Survives(s', v) <==> Survives(s, v) && SlotOf(v) != slot
    {
      if SlotOf(v) != slot {
        SameSurvives(s, s', slot, v);
      }
    }
  }

  /** A put leaves the new version in the master entry and under its id; all others stay. */
  lemma PutTakesEffect(s: Stored, vid: Str, value: Metadata)
    requires vid != []
    ensures var stored := value.(versionId := Some(vid));
            var s' := Apply(s, PutOps(vid, value));
            && MasterOfStored(s') == Some(stored)
            && VersionSlot(vid) in s' && s'[VersionSlot(vid)] == stored
            && SameButFor(s, s', VersionSlot(vid))
            && forall v :: Survives(s', v) <==>
                 v == ListedVersion(vid, stored, false) || (Survives(s, v) && SlotOf(v) != VersionSlot(vid))
  {
    var stored, s' := value.(versionId := Some(vid)), Apply(s, PutOps(vid, value));
    ApplyTwo(s, Put(MasterSlot, stored), Put(VersionSlot(vid), stored));
    forall v
      ensures Survives(s', v) <==>
                v == ListedVersion(vid, stored, false) || (Survives(s, v) && SlotOf(v) != VersionSlot(vid))
    {
      if SlotOf(v) != VersionSlot(vid) {
        SameSurvives(s, s', VersionSlot(vid), v);
      }
    }
  }

  /** The slot that a repair empties, if any. */
  function RepairedSlot(next: Option<ListedVersion>): Slot {
    if next.Some? && next.value.isNullKey then NULL_KEY else MasterSlot
  }

  /** A repair puts what is suggested in the master entry; of the other entries, it touches
      the null key alone, and only if the null version is what is suggested. */
  lemma RepairTakesEffect(s: Stored, next: Option<ListedVersion>)
    ensures var s' := Apply(s, RepairOps(next));
            && MasterOfStored(s') == (if next.Some? then Some(next.value.value) else None)
            && SameButFor(s, s', RepairedSlot(next)) && (RepairedSlot(next) == NULL_KEY ==> NULL_KEY !in s')
            && forall v :: Survives(s', v) <==> Survives(s, v) && SlotOf(v) != RepairedSlot(next)
  {
    var s' := Apply(s, RepairOps(next));
    match next {
      case None => ApplyTwo(s, Del(MasterSlot), Del(MasterSlot));
      case Some(v) => ApplyTwo(s, Put(MasterSlot, v.value), Del(NULL_KEY));
    }
    forall v
      ensures Survives(s', v) <==> Survives(s, v) && SlotOf(v) != RepairedSlot(next)
    {
      if SlotOf(v) != RepairedSlot(next) {
        SameSurvives(s, s', RepairedSlot(next), v);
      }
    }
  }

  /** A value is stored somewhere, and is no placeholder. */
  ghost predicate IsVersion(s: Stored, value: Metadata) {
    !value.isPHD && exists slot :: slot in s && s[slot] == value
  }

  /** A repair of a placeholder with one of the surviving versions loses none of them. */
  lemma RepairLosesNone(s: Stored, next: Option<ListedVersion>, value: Metadata)
    requires IsPHD(s)
    requires next.Some? ==> Survives(s, next.value) && !next.value.value.isPHD
    ensures IsVersion(Apply(s, RepairOps(next)), value) <==> IsVersion(s, value)
  {
    hide RepairOps;
    hide Apply;
    var s' := Apply(s, RepairOps(next));
    RepairTakesEffect(s, next);
    if IsVersion(s, value) {
      var slot :| slot in s && s[slot] == value;
      assert slot != MasterSlot;
      assert if slot == RepairedSlot(next) then s'[MasterSlot] == value else slot in s' && s'[slot] == value;
    }
    if IsVersion(s', value) {
      var slot :| slot in s' && s'[slot] == value;
      if slot == MasterSlot {
        assert SlotOf(next.value) in s && s[SlotOf(next.value)] == value;
      } else {
        assert slot in s && s[slot] == value;
      }
    }
  }

  // ---------------------------------------------------------------------------
  // Runs

  /** The version that an event stores. */
  ghost function PutBy(e: Event): Option<ListedVersion> {
    if e.NewVersionPut? then Some(ListedVersion(e.vid, e.value.(versionId := Some(e.vid)), false)) else None
  }

  /** An event writes or empties the slot. */
  ghost predicate Touches(e: Event, slot: Slot) {
    match e
    case NewVersionPut(vid, _) => slot == VersionSlot(vid)
    case VersionDelete(vid, isNull, _, _) => slot == if isNull then NULL_KEY else VersionSlot(vid)
    case Repair(hint, read) => read == Some(hint.phd) && slot == RepairedSlot(hint.next)
    case _ => false
  }

  lemma StepSurvives(w: World, e: Event, v: ListedVersion)
    requires Allowed(w, e)
    ensures Survives(Step(w, e).current, v)
       <==> PutBy(e) == Some(v) || (Survives(w.current, v) && !Touches(e, SlotOf(v)))
  {
    hide Survives;
    hide Apply;
    hide PutOps;
    hide DeleteOps;
    hide RepairOps;
    hide Lt;
    hide SameButFor;
    match e {
      case NewVersionPut(vid, value) => PutTakesEffect(w.current, vid, value);
      case VersionDelete(vid, isNull, phdVid, read) => DeleteTakesEffect(w.current, read, vid, isNull, phdVid);
      case Repair(hint, read) => RepairTakesEffect(w.current, hint.next);
      case _ =>
    }
  }

  /** No event from `from` on touches the slot of the version. */
  ghost predicate IsLeft(events: seq<Event>, from: nat, v: ListedVersion) {
    forall j :: from <= j < |events| ==> !Touches(events[j], SlotOf(v))
  }

  ghost predicate IsPutAndLeft(events: seq<Event>, i: nat, v: ListedVersion) {
    i < |events| && PutBy(events[i]) == Some(v) && IsLeft(events, i + 1, v)
  }

  /** A version survives a run exactly if it was there at the start or was put, and nothing has
      touched its slot since. */
  lemma {:induction false} SurvivesExactly(worlds: seq<World>, events: seq<Event>, v: ListedVersion)
    requires IsRun(worlds, events)
    ensures Survives(worlds[|events|].current, v)
       <==> (Survives(worlds[0].current, v) && IsLeft(events, 0, v))
            || exists i: nat :: IsPutAndLeft(events, i, v)
  {
    hide Survives;
    hide Step;
    hide Allowed;
    hide PutBy;
    hide Touches;
    if events != [] {
      var n := |events| - 1;
      var before := events[..n];
      SurvivesExactly(worlds[..n+1], before, v);
      assert worlds[..n+1][n] == worlds[n];
      StepSurvives(worlds[n], events[n], v);
      OneMoreEvent(events, v);
    }
  }

  lemma OneMoreEvent(events: seq<Event>, v: ListedVersion)
    requires events != []
    ensures var n := |events| - 1;
            var before, e := events[..n], events[n];
            && (IsLeft(events, 0, v) <==> IsLeft(before, 0, v) && !Touches(e, SlotOf(v)))
            && ((exists i: nat :: IsPutAndLeft(events, i, v))
                <==> PutBy(e) == Some(v)
                     || ((exists i: nat :: IsPutAndLeft(before, i, v)) && !Touches(e, SlotOf(v))))
  {
    hide PutBy;
    hide Touches;
    var n := |events| - 1;
    var before, e := events[..n], events[n];
    assert PutBy(e) == Some(v) ==> IsPutAndLeft(events, n, v);
    forall i: nat | i < n
      ensures IsPutAndLeft(events, i, v) <==> IsPutAndLeft(before, i, v) && !Touches(e, SlotOf(v))
    {
      assert forall j :: 0 <= j < n ==> before[j] == events[j];
    }
  }

  // ---------------------------------------------------------------------------
  // Deleted versions

  /** A slot that no new version can be put in. */
  ghost predicate IsUsed(w: World, slot: Slot) {
    slot == NULL_KEY || (slot.VersionSlot? && slot.vid in w.issued)
  }

  /** States since the slot was emptied. */
  ghost predicate StaysEmpty(w: World, slot: Slot, from: nat) {
    && IsUsed(w, slot) && slot !in w.current
    && forall at :: from <= at < |w.history| ==> slot !in w.history[at]
  }

  lemma StepStaysEmpty(w: World, e: Event, slot: Slot, from: nat)
    requires Allowed(w, e) && StaysEmpty(w, slot, from)
    ensures StaysEmpty(Step(w, e), slot, from)
  {
    hide Apply;
    hide PutOps;
    hide DeleteOps;
    hide RepairOps;
    hide Survives;
    match e {
      case NewVersionPut(vid, value) =>
        PutTakesEffect(w.current, vid, value);
        StrictTotalOrder(vid, vid, vid);
      case VersionDelete(vid, isNull, phdVid, read) => DeleteTakesEffect(w.current, read, vid, isNull, phdVid);
      case Repair(hint, read) => RepairTakesEffect(w.current, hint.next);
      case _ =>
    }
  }

  lemma DeleteEmpties(w: World, vid: Str, isNull: bool, phdVid: Str, read: Option<Metadata>)
    requires Allowed(w, VersionDelete(vid, isNull, phdVid, read)) && (isNull || vid in w.issued)
    ensures StaysEmpty(Step(w, VersionDelete(vid, isNull, phdVid, read)), DeletedSlot(vid, isNull), |w.history|)
  {
    hide Apply;
    hide DeleteOps;
    hide Survives;
    DeleteTakesEffect(w.current, read, vid, isNull, phdVid);
  }

  lemma RunStep(worlds: seq<World>, events: seq<Event>, j: nat)
    requires IsRun(worlds, events) && j < |events|
    ensures Allowed(worlds[j], events[j]) && worlds[j+1] == Step(worlds[j], events[j])
  {
    hide Step;
  }

  /** What is deleted stays deleted: ids are fresh, so nothing is put in its slot again. */
  lemma {:induction false} DeletedStaysDeleted(worlds: seq<World>, events: seq<Event>, i: nat, n: nat)
    requires IsRun(worlds, events) && i < n <= |events|
    requires events[i].VersionDelete? && (events[i].isNull || events[i].vid in worlds[i].issued)
    ensures StaysEmpty(worlds[n], DeletedSlot(events[i].vid, events[i].isNull), |worlds[i].history|)
    decreases n
  {
    hide Step;
    hide Allowed;
    hide StaysEmpty;
    hide DeletedSlot;
    var VersionDelete(vid, isNull, phdVid, read) := events[i];
    if n == i + 1 {
      DeleteEmpties(worlds[i], vid, isNull, phdVid, read);
    } else {
      DeletedStaysDeleted(worlds, events, i, n - 1);
      RunStep(worlds, events, n - 1);
      StepStaysEmpty(worlds[n-1], events[n-1], DeletedSlot(vid, isNull), |worlds[i].history|);
    }
  }

  /** A listing of a state since a delete does not suggest the deleted version. */
  lemma DeletedIsNotSuggested(worlds: seq<World>, events: seq<Event>, i: nat, n: nat, at: nat, raw: seq<RawVersion>)
    requires IsRun(worlds, events) && i < n <= |events|
    requires events[i].VersionDelete? && (events[i].isNull || events[i].vid in worlds[i].issued)
    requires Safe(worlds[n]) && Possible(worlds[n], Listing(at, raw)) && |worlds[i].history| <= at
    ensures Suggested(raw).Some? ==>
              SlotOf(Suggested(raw).value) != (if events[i].isNull then NULL_KEY else VersionSlot(events[i].vid))
  {
    hide Step;
    hide Allowed;
    hide Suggested;
    hide IsRawOf;
    hide MasterIsRight;
    hide Consistent;
    DeletedStaysDeleted(worlds, events, i, n);
    ListingSuggestsNewest(worlds[n].history[at], raw);
  }

  /** Where late events do no harm, a deleted version is not in the master entry again either. */
  lemma DeletedIsGone(worlds: seq<World>, events: seq<Event>, i: nat, n: nat)
    requires IsRun(worlds, events) && IsStart(worlds[0]) && i < n <= |events|
    requires forall j :: 0 <= j < |events| ==> IsHarmless(worlds[j], events[j])
    requires events[i].VersionDelete? && !events[i].isNull && events[i].vid in worlds[i].issued
    ensures var s := worlds[n].current;
            && VersionSlot(events[i].vid) !in s
            && (MasterSlot in s && !s[MasterSlot].isPHD && !s[MasterSlot].isNull ==>
                  s[MasterSlot].versionId != Some(events[i].vid))
  {
    hide Step;
    hide Allowed;
    hide IsHarmless;
    hide Survives;
    hide Consistent;
    hide Issued;
    DeletedStaysDeleted(worlds, events, i, n);
    HarmlessRunsStayRight(worlds, events);
  }
}
