/**
  The gap cache as a protocol.  Gaps recorded from listings stay in a staging set, then in
  a frozen set, and are exposed to lookups two ticks later, unless a key in them has been
  reported as updated in between.  The main result is about whole runs: every key that a
  lookup can skip is in a gap recorded from a snapshot taken after its last update.
 */
module GapExposure {
  import opened Strings
  import opened Gaps

  datatype CacheState = CacheState(
    stagingGaps: seq<Gap>, stagingKeys: set<Str>,
    frozenGaps: seq<Gap>, frozenKeys: set<Str>,
    exposedGaps: seq<Gap>,
    maxGaps: int, policy: Policy)

  ghost predicate ValidState(s: CacheState) {
    Sorted(s.stagingGaps) && Sorted(s.frozenGaps) && Sorted(s.exposedGaps)
  }

  // ---------------------------------------------------------------------------
  // The effect of each operation on the cache

  ghost function RecordGap(s: CacheState, first: Str, last: Str, weight: int): CacheState {
    s.(stagingGaps := SetGap(s.stagingGaps, first, last, weight, s.policy))
  }

  ghost function ReportUpdates(s: CacheState, keys: set<Str>): CacheState {
    s.(stagingKeys := s.stagingKeys + keys,
       exposedGaps := RemoveOverlapping(s.exposedGaps, keys))
  }

  ghost function ClearGaps(s: CacheState): CacheState {
    s.(stagingGaps := [], frozenGaps := [], exposedGaps := [])
  }

  ghost function SetMaxWeight(s: CacheState, maxWeight: int): CacheState {
    s.(policy := s.policy.(maxWeight := maxWeight))
  }

  /** What is left of a set of new gaps before exposure: both update sets apply to it. */
  ghost function Surviving(s: CacheState, gaps: seq<Gap>): seq<Gap> {
    RemoveOverlapping(RemoveOverlapping(gaps, s.stagingKeys), s.frozenKeys)
  }

  /** `exposed` with each of `gaps` recorded in it, in order, while there is room. */
  ghost function Expose(exposed: seq<Gap>, gaps: seq<Gap>, maxGaps: int, policy: Policy): seq<Gap> {
    if gaps == [] then exposed
    else
      var before := Expose(exposed, gaps[..|gaps|-1], maxGaps, policy);
      var g := gaps[|gaps|-1];
      if |before| < maxGaps then SetGap(before, g.firstKey, g.lastKey, g.weight, policy) else before
  }

  /** The timer: expose the frozen gaps and freeze the staging ones. */
  ghost function Rotate(s: CacheState): CacheState {
    CacheState(
      [], {}, Surviving(s, s.stagingGaps), s.stagingKeys,
      Expose(s.exposedGaps, Surviving(s, s.frozenGaps), s.maxGaps, s.policy),
      s.maxGaps, s.policy)
  }

  // ---------------------------------------------------------------------------
  // Runs

  datatype Event =
    | Record(firstKey: Str, lastKey: Str, weight: int, snapshot: int)
    | Update(keys: set<Str>)
    | Tick
    | Clearing
    | SetWeight(maxWeight: int)

  /** An event and the time at which it happens. */
  datatype Timed = Timed(event: Event, time: int)

  ghost function Step(s: CacheState, e: Event): CacheState {
    match e
    case Record(first, last, weight, _) => RecordGap(s, first, last, weight)
    case Update(keys) => ReportUpdates(s, keys)
    case Tick => Rotate(s)
    case Clearing => ClearGaps(s)
    case SetWeight(w) => SetMaxWeight(s, w)
  }

  ghost function Initial(maxGaps: int, policy: Policy): CacheState {
    CacheState([], {}, [], {}, [], maxGaps, policy)
  }

  /** The state of the cache after a run. */
  ghost function After(run: seq<Timed>, maxGaps: int, policy: Policy): CacheState {
    if run == [] then Initial(maxGaps, policy)
    else Step(After(run[..|run|-1], maxGaps, policy), run[|run|-1].event)
  }

  /** Only non-empty ranges are recorded. */
  ghost predicate RecordsRanges(run: seq<Timed>) {
    forall i :: 0 <= i < |run| && run[i].event.Record? ==> Le(run[i].event.firstKey, run[i].event.lastKey)
  }

  /** Time does not go back, ticks are at least `delay` apart, and a gap is recorded less
      than `delay` after the snapshot it was built from. */
  ghost predicate Timely(run: seq<Timed>, delay: int) {
    && RecordsRanges(run)
    && (forall i, j :: 0 <= i <= j < |run| ==> run[i].time <= run[j].time)
    && (forall i, j :: 0 <= i < j < |run| && run[i].event.Tick? && run[j].event.Tick? ==>
          run[i].time + delay <= run[j].time)
    && (forall i :: 0 <= i < |run| && run[i].event.Record? ==> run[i].time < run[i].event.snapshot + delay)
  }

  /** What the users of the cache ensure; no updated key is the empty string. */
  ghost predicate Legal(run: seq<Timed>, delay: int) {
    Timely(run, delay) && forall i :: 0 <= i < |run| && run[i].event.Update? ==> [] !in run[i].event.keys
  }

  ghost predicate IsUpdateOf(e: Event, k: Str) {
    e.Update? && k in e.keys
  }

  ghost predicate RecordsKey(e: Event, k: Str) {
    e.Record? && Le(e.firstKey, k) && Le(k, e.lastKey)
  }

  /** Event `i` records `k`, and if `k` was updated at or after its snapshot then that
      update is still to be applied. */
  ghost predicate Vouches(run: seq<Timed>, i: nat, k: Str, pending: set<Str>)
    requires i < |run|
  {
    && RecordsKey(run[i].event, k)
    && (forall j :: 0 <= j < |run| && IsUpdateOf(run[j].event, k) && run[i].event.snapshot <= run[j].time ==>
          k in pending)
  }

  ghost predicate Vouched(run: seq<Timed>, k: Str, pending: set<Str>) {
    exists i :: 0 <= i < |run| && Vouches(run, i, k, pending)
  }

  /** Number of ticks from position `from` on. */
  ghost function Ticks(run: seq<Timed>, from: nat): nat
    requires from <= |run|
    decreases |run|
  {
    if from == |run| then 0
    else Ticks(run[..|run|-1], from) + (if run[|run|-1].event.Tick? then 1 else 0)
  }

  /** Updates are kept for two ticks. */
  ghost predicate Retained(run: seq<Timed>, s: CacheState) {
    forall j, k :: 0 <= j < |run| && IsUpdateOf(run[j].event, k) ==>
      && (Ticks(run, j) == 0 ==> k in s.stagingKeys)
      && (Ticks(run, j) == 1 ==> k in s.frozenKeys)
  }

  ghost predicate Safe(run: seq<Timed>, s: CacheState) {
    && ValidState(s)
    && [] !in s.stagingKeys && [] !in s.frozenKeys
    && Retained(run, s)
    && (forall k :: Covers(s.stagingGaps, k) ==> Vouched(run, k, s.stagingKeys + s.frozenKeys))
    && (forall k :: Covers(s.frozenGaps, k) ==> Vouched(run, k, s.stagingKeys + s.frozenKeys))
    && (forall k :: Covers(s.exposedGaps, k) ==> Vouched(run, k, {}))
  }

  // ---------------------------------------------------------------------------
  // Bookkeeping

  lemma {:induction false} SomeTick(run: seq<Timed>, from: nat)
    requires from <= |run| && Ticks(run, from) > 0
    ensures exists i :: from <= i < |run| && run[i].event.Tick?
    decreases |run|
  {
    if !run[|run|-1].event.Tick? {
      SomeTick(run[..|run|-1], from);
    }
  }

  /** Two ticks take at least `delay`. */
  lemma {:induction false} TwoTicks(run: seq<Timed>, delay: int, from: nat)
    requires Legal(run, delay) && from < |run| && Ticks(run, from) >= 2
    ensures run[from].time + delay <= run[|run|-1].time
    decreases |run|
  {
    var n := |run| - 1;
    if run[n].event.Tick? {
      SomeTick(run[..n], from);
    } else {
      TwoTicks(run[..n], delay, from);
    }
  }

  lemma VouchedStays(run: seq<Timed>, e: Timed, k: Str, pending: set<Str>, pending': set<Str>)
    requires Vouched(run, k, pending) && pending <= pending'
    requires IsUpdateOf(e.event, k) ==> k in pending'
    ensures Vouched(run + [e], k, pending')
  {
    var run' := run + [e];
    var i :| 0 <= i < |run| && Vouches(run, i, k, pending);
    assert forall j :: 0 <= j < |run| ==> run'[j] == run[j];
    assert Vouches(run', i, k, pending');
  }

  /** A key whose updates have all been applied is vouched for without reserve. */
  lemma VouchedFully(run: seq<Timed>, k: Str, pending: set<Str>)
    requires Vouched(run, k, pending) && k !in pending
    ensures Vouched(run, k, {})
  {
    var i :| 0 <= i < |run| && Vouches(run, i, k, pending);
    assert Vouches(run, i, k, {});
  }

  lemma {:induction false} ExposeIsSound(exposed: seq<Gap>, gaps: seq<Gap>, maxGaps: int, policy: Policy, k: Str)
    requires Sorted(exposed) && forall i :: 0 <= i < |gaps| ==> Le(gaps[i].firstKey, gaps[i].lastKey)
    ensures var r := Expose(exposed, gaps, maxGaps, policy);
            && Sorted(r)
            && (|r| <= maxGaps || |r| <= |exposed|)
            && (Covers(r, k) ==> Covers(exposed, k) || Covers(gaps, k))
  {
    hide Lt;
    hide Sorted;
    hide Within;
    hide SetGap;
    if gaps != [] {
      var n := |gaps| - 1;
      var g := gaps[n];
      ExposeIsSound(exposed, gaps[..n], maxGaps, policy, k);
      var before := Expose(exposed, gaps[..n], maxGaps, policy);
      SetGapSorted(before, g.firstKey, g.lastKey, g.weight, policy);
      if Covers(SetGap(before, g.firstKey, g.lastKey, g.weight, policy), k) {
        SetGapInventsNothing(before, g.firstKey, g.lastKey, g.weight, policy, k);
        assert Le(g.firstKey, k) && Le(k, g.lastKey) ==> Within(gaps[n], k) by {
          WithinIs(g, k);
        }
      }
      assert Covers(gaps[..n], k) ==> Covers(gaps, k);
    }
  }

  lemma WithinIs(g: Gap, k: Str)
    ensures Within(g, k) <==> Le(g.firstKey, k) && Le(k, g.lastKey)
  {
  }

  lemma RemoveIsSound(gaps: seq<Gap>, keys: set<Str>, k: Str)
    requires Sorted(gaps) && [] !in keys
    ensures var r := RemoveOverlapping(gaps, keys);
            && Sorted(r)
            && (Covers(r, k) ==> Covers(gaps, k) && k !in keys)
  {
    ClearSorted(gaps, keys);
    ClearCovers(gaps, keys, k);
  }

  lemma SurvivingIsSound(s: CacheState, gaps: seq<Gap>, k: Str)
    requires Sorted(gaps) && [] !in s.stagingKeys && [] !in s.frozenKeys
    ensures Sorted(Surviving(s, gaps))
    ensures Covers(Surviving(s, gaps), k) ==> Covers(gaps, k) && k !in s.stagingKeys + s.frozenKeys
  {
    hide RemoveOverlapping;
    hide Sorted;
    RemoveIsSound(gaps, s.stagingKeys, k);
    RemoveIsSound(RemoveOverlapping(gaps, s.stagingKeys), s.frozenKeys, k);
  }

  // ---------------------------------------------------------------------------
  // Every event keeps the cache safe

  lemma RetainedStep(run: seq<Timed>, e: Timed, s: CacheState)
    requires Retained(run, s)
    ensures Retained(run + [e], Step(s, e.event))
  {
    var run' := run + [e];
    assert run'[..|run|] == run;
    forall j, k | 0 <= j < |run'| && IsUpdateOf(run'[j].event, k)
      ensures Ticks(run', j) == 0 ==> k in Step(s, e.event).stagingKeys
      ensures Ticks(run', j) == 1 ==> k in Step(s, e.event).frozenKeys
    {
      if j == |run| {
        assert Ticks(run, j) == 0;
      }
    }
  }

  lemma RecordIsSafe(run: seq<Timed>, delay: int, e: Timed, s: CacheState)
    requires Legal(run + [e], delay) && Safe(run, s) && e.event.Record?
    ensures Safe(run + [e], Step(s, e.event))
  {
    hide Lt;
    hide Sorted;
    hide Covers;
    hide SetGap;
    var run' := run + [e];
    var Record(first, last, weight, snapshot) := e.event;
    var s' := Step(s, e.event);
    var pending := s.stagingKeys + s.frozenKeys;
    assert run'[|run|] == e;
    RetainedStep(run, e, s);
    SetGapSorted(s.stagingGaps, first, last, weight, s.policy);
    forall k | Le(first, k) && Le(k, last)
      ensures Vouches(run', |run|, k, pending)
    {
      forall j | 0 <= j < |run'| && IsUpdateOf(run'[j].event, k) && snapshot <= run'[j].time
        ensures k in pending
      {
        if Ticks(run', j) >= 2 {
          TwoTicks(run', delay, j);
        }
      }
    }
    forall k | Covers(s'.stagingGaps, k)
      ensures Vouched(run', k, pending)
    {
      SetGapInventsNothing(s.stagingGaps, first, last, weight, s.policy, k);
      if Covers(s.stagingGaps, k) {
        VouchedStays(run, e, k, pending, pending);
      }
    }
    forall k | Covers(s.frozenGaps, k)
      ensures Vouched(run', k, pending)
    {
      VouchedStays(run, e, k, pending, pending);
    }
    forall k | Covers(s.exposedGaps, k)
      ensures Vouched(run', k, {})
    {
      VouchedStays(run, e, k, {}, {});
    }
  }

  lemma UpdateIsSafe(run: seq<Timed>, delay: int, e: Timed, s: CacheState)
    requires Legal(run + [e], delay) && Safe(run, s) && e.event.Update?
    ensures Safe(run + [e], Step(s, e.event))
  {
    hide Lt;
    hide Sorted;
    hide Covers;
    hide RemoveOverlapping;
    var run' := run + [e];
    var s' := Step(s, e.event);
    var pending, pending' := s.stagingKeys + s.frozenKeys, s'.stagingKeys + s'.frozenKeys;
    assert run'[|run|] == e;
    RetainedStep(run, e, s);
    RemoveIsSound(s.exposedGaps, e.event.keys, []);
    forall k | Covers(s.stagingGaps, k) || Covers(s.frozenGaps, k)
      ensures Vouched(run', k, pending')
    {
      VouchedStays(run, e, k, pending, pending');
    }
    forall k | Covers(s'.exposedGaps, k)
      ensures Vouched(run', k, {})
    {
      RemoveIsSound(s.exposedGaps, e.event.keys, k);
      VouchedStays(run, e, k, {}, {});
    }
  }

  lemma TickIsSafe(run: seq<Timed>, delay: int, e: Timed, s: CacheState)
    requires Legal(run + [e], delay) && Safe(run, s) && e.event.Tick?
    ensures Safe(run + [e], Step(s, e.event))
  {
    hide Lt;
    hide Sorted;
    hide Covers;
    hide Surviving;
    hide Expose;
    var run' := run + [e];
    var s' := Step(s, e.event);
    var pending := s.stagingKeys + s.frozenKeys;
    RetainedStep(run, e, s);
    SurvivingIsSound(s, s.stagingGaps, []);
    SurvivingIsSound(s, s.frozenGaps, []);
    var frozen := Surviving(s, s.frozenGaps);
    SortedIsNonEmpty(frozen);
    ExposeIsSound(s.exposedGaps, frozen, s.maxGaps, s.policy, []);
    forall k | Covers(s'.frozenGaps, k)
      ensures Vouched(run', k, s'.stagingKeys + s'.frozenKeys)
    {
      SurvivingIsSound(s, s.stagingGaps, k);
      VouchedFully(run, k, pending);
      VouchedStays(run, e, k, {}, s'.stagingKeys + s'.frozenKeys);
    }
    forall k | Covers(s'.exposedGaps, k)
      ensures Vouched(run', k, {})
    {
      ExposeIsSound(s.exposedGaps, frozen, s.maxGaps, s.policy, k);
      if Covers(frozen, k) {
        SurvivingIsSound(s, s.frozenGaps, k);
        VouchedFully(run, k, pending);
      }
      VouchedStays(run, e, k, {}, {});
    }
    NothingCovered();
    EmptySorted();
  }

  lemma NothingCovered()
    ensures forall k :: !Covers([], k)
  {
  }

  lemma SortedIsNonEmpty(gaps: seq<Gap>)
    requires Sorted(gaps)
    ensures forall i :: 0 <= i < |gaps| ==> Le(gaps[i].firstKey, gaps[i].lastKey)
  {
    hide Lt;
  }

  lemma OtherIsSafe(run: seq<Timed>, e: Timed, s: CacheState)
    requires Safe(run, s) && (e.event.Clearing? || e.event.SetWeight?)
    ensures Safe(run + [e], Step(s, e.event))
  {
    hide Lt;
    hide Sorted;
    hide Covers;
    var run' := run + [e];
    var s' := Step(s, e.event);
    var pending := s.stagingKeys + s.frozenKeys;
    RetainedStep(run, e, s);
    NothingCovered();
    EmptySorted();
    forall k | Covers(s'.stagingGaps, k) || Covers(s'.frozenGaps, k)
      ensures Vouched(run', k, pending)
    {
      VouchedStays(run, e, k, pending, pending);
    }
    forall k | Covers(s'.exposedGaps, k)
      ensures Vouched(run', k, {})
    {
      VouchedStays(run, e, k, {}, {});
    }
  }

  lemma {:induction false} RunsAreSafe(run: seq<Timed>, delay: int, maxGaps: int, policy: Policy)
    requires Legal(run, delay)
    ensures Safe(run, After(run, maxGaps, policy))
  {
    if run == [] {
      NothingCovered();
      EmptySorted();
    } else {
      var n := |run| - 1;
      var before, e := run[..n], run[n];
      assert run == before + [e];
      RunsAreSafe(before, delay, maxGaps, policy);
      var s := After(before, maxGaps, policy);
      hide *;
      StepIsSafe(before, delay, e, s);
    }
  }

  lemma StepIsSafe(run: seq<Timed>, delay: int, e: Timed, s: CacheState)
    requires Legal(run + [e], delay) && Safe(run, s)
    ensures Safe(run + [e], Step(s, e.event))
  {
    hide *;
    match e.event {
      case Record(_, _, _, _) => RecordIsSafe(run, delay, e, s);
      case Update(_) => UpdateIsSafe(run, delay, e, s);
      case Tick => TickIsSafe(run, delay, e, s);
      case Clearing => OtherIsSafe(run, e, s);
      case SetWeight(_) => OtherIsSafe(run, e, s);
    }
  }

  /**
    Exposure safety: in every legal run, each key that a lookup may skip lies in a
    recorded gap whose snapshot is later than every reported update of that key.
   */
  lemma ExposedKeysAreFresh(run: seq<Timed>, delay: int, maxGaps: int, policy: Policy, k: Str)
    requires Legal(run, delay)
    requires Covers(After(run, maxGaps, policy).exposedGaps, k)
    ensures IsFresh(run, k)
  {
    RunsAreSafe(run, delay, maxGaps, policy);
    hide After;
    var i :| 0 <= i < |run| && Vouches(run, i, k, {});
  }

  /** A key is in a recorded gap whose snapshot is later than all its reported updates. */
  ghost predicate IsFresh(run: seq<Timed>, k: Str) {
    exists i :: 0 <= i < |run| && RecordsKey(run[i].event, k)
             && forall j :: 0 <= j < |run| && IsUpdateOf(run[j].event, k) ==> run[j].time < run[i].event.snapshot
  }

  /** The sets of gaps stay sorted in every run, legal or not. */
  lemma {:induction false} StatesAreValid(run: seq<Timed>, maxGaps: int, policy: Policy)
    requires RecordsRanges(run)
    ensures ValidState(After(run, maxGaps, policy))
  {
    if run == [] {
      EmptySorted();
    } else {
      var before := run[..|run|-1];
      StatesAreValid(before, maxGaps, policy);
      AfterStep(run, maxGaps, policy);
      var s := After(before, maxGaps, policy);
      hide *;
      hide After;
      StepIsValid(s, run[|run|-1].event);
    }
  }

  lemma StepIsValid(s: CacheState, e: Event)
    requires ValidState(s) && (e.Record? ==> Le(e.firstKey, e.lastKey))
    ensures ValidState(Step(s, e))
  {
    hide Lt;
    hide Sorted;
    hide SetGap;
    hide RemoveOverlapping;
    hide Expose;
    EmptySorted();
    match e {
      case Record(first, last, weight, _) => SetGapSorted(s.stagingGaps, first, last, weight, s.policy);
      case Update(keys) => RemoveKeepsSorted(s.exposedGaps, keys);
      case Tick =>
        SurvivingIsSorted(s, s.stagingGaps);
        SurvivingIsSorted(s, s.frozenGaps);
        var frozen := Surviving(s, s.frozenGaps);
        SortedIsNonEmpty(frozen);
        ExposeIsSound(s.exposedGaps, frozen, s.maxGaps, s.policy, []);
      case _ =>
    }
  }

  lemma RemoveKeepsSorted(gaps: seq<Gap>, keys: set<Str>)
    requires Sorted(gaps)
    ensures Sorted(RemoveOverlapping(gaps, keys))
  {
    ClearSorted(gaps, keys);
  }

  lemma SurvivingIsSorted(s: CacheState, gaps: seq<Gap>)
    requires Sorted(gaps)
    ensures Sorted(Surviving(s, gaps))
  {
    hide Sorted;
    hide RemoveOverlapping;
    RemoveKeepsSorted(gaps, s.stagingKeys);
    RemoveKeepsSorted(RemoveOverlapping(gaps, s.stagingKeys), s.frozenKeys);
  }

  /** The cache never exposes more gaps than its limit. */
  lemma {:induction false} ExposedIsBounded(run: seq<Timed>, maxGaps: nat, policy: Policy)
    requires RecordsRanges(run)
    ensures |After(run, maxGaps, policy).exposedGaps| <= maxGaps
  {
    if run != [] {
      var before := run[..|run|-1];
      var s := After(before, maxGaps, policy);
      ExposedIsBounded(before, maxGaps, policy);
      StatesAreValid(before, maxGaps, policy);
      LimitIsConstant(before, maxGaps, policy);
      hide *;
      StepIsBounded(s, run[|run|-1].event);
      AfterStep(run, maxGaps, policy);
    }
  }

  lemma AfterStep(run: seq<Timed>, maxGaps: int, policy: Policy)
    requires run != []
    ensures After(run, maxGaps, policy)
         == Step(After(run[..|run|-1], maxGaps, policy), run[|run|-1].event)
  {
  }

  lemma {:induction false} LimitIsConstant(run: seq<Timed>, maxGaps: int, policy: Policy)
    ensures After(run, maxGaps, policy).maxGaps == maxGaps
  {
    hide SetGap;
    hide RemoveOverlapping;
    hide Surviving;
    hide Expose;
    if run != [] {
      LimitIsConstant(run[..|run|-1], maxGaps, policy);
    }
  }

  lemma StepIsBounded(s: CacheState, e: Event)
    requires ValidState(s) && |s.exposedGaps| <= s.maxGaps
    ensures |Step(s, e).exposedGaps| <= s.maxGaps
  {
    hide Lt;
    hide Sorted;
    hide SetGap;
    hide Surviving;
    hide Expose;
    SurvivingIsSorted(s, s.frozenGaps);
    var frozen := Surviving(s, s.frozenGaps);
    SortedIsNonEmpty(frozen);
    ExposeIsSound(s.exposedGaps, frozen, s.maxGaps, s.policy, []);
  }

  /** A run that is legal but for its last batch of updates, which comes after the gap of
      one of its keys has been exposed. */
  ghost function LateBatch(keys: set<Str>, k: Str, delay: int): seq<Timed> {
    [Timed(Record(k, k, 1, 0), 0), Timed(Tick, delay), Timed(Tick, 2 * delay), Timed(Update(keys), 3 * delay)]
  }

  /** With the empty string among the updated keys, every one of them can stay exposed. */
  lemma EmptyKeyBreaksSafety(keys: set<Str>, k: Str, delay: int, maxGaps: int, policy: Policy)
    requires [] in keys && k in keys && delay > 0 && maxGaps > 0
    ensures var run := LateBatch(keys, k, delay);
            Timely(run, delay) && Covers(After(run, maxGaps, policy).exposedGaps, k) && !IsFresh(run, k)
  {
    hide Lt;
    var run := LateBatch(keys, k, delay);
    var g := Gap(k, k, 1);
    StrictTotalOrder(k, k, k);
    FirstGapOfSet(g, policy);
    NoKeysRemoveNothing([g]);
    NoKeysRemoveNothing([]);
    hide SetGap;
    hide RemoveOverlapping;
    var s0 := Initial(maxGaps, policy);
    var s1, s2, s3 := s0.(stagingGaps := [g]), s0.(frozenGaps := [g]), s0.(exposedGaps := [g]);
    assert run[..0] == [] && After(run[..0], maxGaps, policy) == s0;
    assert run[..1][..0] == run[..0] && After(run[..1], maxGaps, policy) == s1;
    assert run[..2][..1] == run[..1] && After(run[..2], maxGaps, policy) == Rotate(s1) == s2;
    assert [g][..0] == [] && Expose([], [g], maxGaps, policy) == [g];
    assert run[..3][..2] == run[..2] && After(run[..3], maxGaps, policy) == Rotate(s2) == s3;
    assert run[..3] == run[..|run|-1];
    EmptyKeyRemovesNothing([g], keys);
    assert Within([g][0], k);
    assert IsUpdateOf(run[3].event, k);
  }

  /** A run that is legal but for batches that are exactly `keys`. */
  ghost predicate LegalBut(run: seq<Timed>, delay: int, keys: set<Str>) {
    && Timely(run, delay)
    && forall i :: 0 <= i < |run| && run[i].event.Update? ==> run[i].event.keys == keys || [] !in run[i].event.keys
  }

  /**
    Exactly which batches of updates are safe to report: those without the empty string
    leave no otherwise legal run with a stale key exposed, and all others do.
   */
  lemma SafeBatchExactly(keys: set<Str>, delay: int, maxGaps: int, policy: Policy)
    requires delay > 0 && maxGaps > 0
    ensures [] !in keys
       <==> forall run, k :: LegalBut(run, delay, keys) && Covers(After(run, maxGaps, policy).exposedGaps, k) ==>
                               IsFresh(run, k)
  {
    hide After;
    hide Covers;
    hide IsFresh;
    hide Timely;
    if [] !in keys {
      forall run, k | LegalBut(run, delay, keys) && Covers(After(run, maxGaps, policy).exposedGaps, k)
        ensures IsFresh(run, k)
      {
        ExposedKeysAreFresh(run, delay, maxGaps, policy, k);
      }
    } else {
      EmptyKeyBreaksSafety(keys, [], delay, maxGaps, policy);
      assert LegalBut(LateBatch(keys, [], delay), delay, keys);
    }
  }

  lemma FirstGapOfSet(g: Gap, policy: Policy)
    requires Le(g.firstKey, g.lastKey)
    ensures SetGap([], g.firstKey, g.lastKey, g.weight, policy) == [g]
  {
    assert UpperBound([], g.firstKey) == 0;
    assert AbsorbEnd([], 0, g.lastKey) == 0;
  }

  lemma {:induction false} NoKeysRemoveNothing(gaps: seq<Gap>)
    ensures RemoveOverlapping(gaps, {}) == gaps
  {
    if gaps != [] {
      NoKeysRemoveNothing(gaps[1..]);
    }
  }

  lemma EmptyKeyRemovesNothing(gaps: seq<Gap>, keys: set<Str>)
    requires [] in keys
    ensures RemoveOverlapping(gaps, keys) == gaps
  {
  }
}
