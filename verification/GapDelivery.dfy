/**
  What becomes of the gaps that are recorded: exactly which of them each tick passes on, and
  that a recorded key is exposed after two ticks unless something removes the gaps holding it.
 */
module GapDelivery {
  import opened Strings
  import opened Gaps
  import opened GapExposure
  import opened GapWeights

  // ---------------------------------------------------------------------------
  // Exposing gaps

  /** Each of the gaps is recorded without a loss, if there is room for it. */
  ghost predicate AllLossless(exposed: seq<Gap>, gaps: seq<Gap>, maxGaps: int, policy: Policy) {
    gaps == []
    || var n := |gaps| - 1;
       && AllLossless(exposed, gaps[..n], maxGaps, policy)
       && Lossless(Expose(exposed, gaps[..n], maxGaps, policy), gaps[n].firstKey, gaps[n].lastKey,
                   gaps[n].weight, policy)
  }

  lemma {:induction false} ReplacingIsLossless(exposed: seq<Gap>, gaps: seq<Gap>, maxGaps: int, policy: Policy)
    requires policy.insertReplaces
    ensures AllLossless(exposed, gaps, maxGaps, policy)
  {
    if gaps != [] {
      ReplacingIsLossless(exposed, gaps[..|gaps|-1], maxGaps, policy);
    }
  }

  /** When gap `i` gets its turn, there is room for it. */
  ghost predicate HasRoom(exposed: seq<Gap>, gaps: seq<Gap>, maxGaps: int, policy: Policy, i: nat)
    requires i <= |gaps|
  {
    |Expose(exposed, gaps[..i], maxGaps, policy)| < maxGaps
  }

  ghost predicate CoversWithRoom(exposed: seq<Gap>, gaps: seq<Gap>, maxGaps: int, policy: Policy, k: Str) {
    exists i :: 0 <= i < |gaps| && Within(gaps[i], k) && HasRoom(exposed, gaps, maxGaps, policy, i)
  }

  /** Exposing gaps loses nothing of what is exposed already, and adds just those gaps that
      find room. */
  lemma {:induction false} ExposeExactly(exposed: seq<Gap>, gaps: seq<Gap>, maxGaps: int, policy: Policy, k: Str)
    requires Sorted(exposed) && forall i :: 0 <= i < |gaps| ==> Le(gaps[i].firstKey, gaps[i].lastKey)
    requires AllLossless(exposed, gaps, maxGaps, policy)
    ensures Covers(Expose(exposed, gaps, maxGaps, policy), k)
       <==> Covers(exposed, k) || CoversWithRoom(exposed, gaps, maxGaps, policy, k)
  {
    hide Lt;
    hide Sorted;
    hide Within;
    hide SetGap;
    hide Lossless;
    hide Covers;
    if gaps != [] {
      var n := |gaps| - 1;
      var g, before := gaps[n], Expose(exposed, gaps[..n], maxGaps, policy);
      ExposeExactly(exposed, gaps[..n], maxGaps, policy, k);
      ExposeIsSound(exposed, gaps[..n], maxGaps, policy, k);
      SetGapExact(before, g.firstKey, g.lastKey, g.weight, policy);
      WithinIs(g, k);
      OneMoreTurn(exposed, gaps, maxGaps, policy, k);
    }
  }

  lemma OneMoreTurn(exposed: seq<Gap>, gaps: seq<Gap>, maxGaps: int, policy: Policy, k: Str)
    requires gaps != []
    ensures var n := |gaps| - 1;
            CoversWithRoom(exposed, gaps, maxGaps, policy, k)
            <==> CoversWithRoom(exposed, gaps[..n], maxGaps, policy, k)
                 || (Within(gaps[n], k) && HasRoom(exposed, gaps, maxGaps, policy, n))
  {
    hide Within;
    hide Expose;
    var n := |gaps| - 1;
    assert forall i :: 0 <= i < n ==> gaps[..n][..i] == gaps[..i];
    forall i | 0 <= i < n
      ensures HasRoom(exposed, gaps[..n], maxGaps, policy, i) <==> HasRoom(exposed, gaps, maxGaps, policy, i)
    {
    }
  }

  /** The exposed set grows by at most one gap for each. */
  lemma {:induction false} ExposeGrows(exposed: seq<Gap>, gaps: seq<Gap>, maxGaps: int, policy: Policy)
    requires Sorted(exposed) && forall i :: 0 <= i < |gaps| ==> Le(gaps[i].firstKey, gaps[i].lastKey)
    ensures |Expose(exposed, gaps, maxGaps, policy)| <= |exposed| + |gaps|
  {
    hide Lt;
    hide Sorted;
    hide SetGap;
    if gaps != [] {
      var n := |gaps| - 1;
      var g, before := gaps[n], Expose(exposed, gaps[..n], maxGaps, policy);
      ExposeGrows(exposed, gaps[..n], maxGaps, policy);
      ExposeIsSound(exposed, gaps[..n], maxGaps, policy, []);
      SetGapSorted(before, g.firstKey, g.lastKey, g.weight, policy);
    }
  }

  /** With room for all, exposing loses nothing. */
  lemma ExposeLosesNothing(exposed: seq<Gap>, gaps: seq<Gap>, maxGaps: int, policy: Policy, k: Str)
    requires Sorted(exposed) && forall i :: 0 <= i < |gaps| ==> Le(gaps[i].firstKey, gaps[i].lastKey)
    requires |exposed| + |gaps| <= maxGaps && AllLossless(exposed, gaps, maxGaps, policy)
    ensures Covers(Expose(exposed, gaps, maxGaps, policy), k) <==> Covers(exposed, k) || Covers(gaps, k)
  {
    hide Lt;
    hide Sorted;
    hide Within;
    hide Expose;
    hide AllLossless;
    ExposeExactly(exposed, gaps, maxGaps, policy, k);
    forall i | 0 <= i < |gaps|
      ensures HasRoom(exposed, gaps, maxGaps, policy, i)
    {
      ExposeGrows(exposed, gaps[..i], maxGaps, policy);
    }
  }

  ghost predicate AreSeparate(gaps: seq<Gap>) {
    forall i, j :: 0 <= i < |gaps| && 0 <= j < |gaps| && i != j ==>
      Lt(gaps[i].lastKey, gaps[j].firstKey) || Lt(gaps[j].lastKey, gaps[i].firstKey)
  }

  lemma SeparateFromRest(all: seq<Gap>)
    requires AreSeparate(all) && all != []
    ensures var rest, g := all[..|all|-1], all[|all|-1];
            AreSeparate(rest) && forall d :: d in rest ==> Lt(d.lastKey, g.firstKey) || Lt(g.lastKey, d.firstKey)
  {
    hide Lt;
    var rest, g := all[..|all|-1], all[|all|-1];
    forall d | d in rest
      ensures Lt(d.lastKey, g.firstKey) || Lt(g.lastKey, d.firstKey)
    {
      var i :| 0 <= i < |rest| && rest[i] == d;
      assert all[i] == d;
    }
  }

  /** Gaps that do not touch are exposed as they are, with their weights. */
  lemma {:induction false} SeparateAreExposed(exposed: seq<Gap>, gaps: seq<Gap>, maxGaps: int, policy: Policy)
    requires Sorted(exposed) && forall i :: 0 <= i < |gaps| ==> Le(gaps[i].firstKey, gaps[i].lastKey)
    requires |exposed| + |gaps| <= maxGaps && AreSeparate(exposed + gaps)
    ensures forall g :: g in Expose(exposed, gaps, maxGaps, policy) <==> g in exposed || g in gaps
  {
    hide Lt;
    hide Sorted;
    hide SetGap;
    hide AreSeparate;
    if gaps != [] {
      var n := |gaps| - 1;
      var g, before := gaps[n], Expose(exposed, gaps[..n], maxGaps, policy);
      assert exposed + gaps[..n] == (exposed + gaps)[..|exposed|+n];
      SeparateFromRest(exposed + gaps);
      SeparateAreExposed(exposed, gaps[..n], maxGaps, policy);
      ExposeIsSound(exposed, gaps[..n], maxGaps, policy, []);
      ExposeGrows(exposed, gaps[..n], maxGaps, policy);
      SeparateIsInserted(before, g.firstKey, g.lastKey, g.weight, policy);
    }
  }

  // ---------------------------------------------------------------------------
  // One tick

  /** A new gap stays: no key reported since the last two ticks is in it, unless the empty
      string, which stops the removal, was reported as well. */
  ghost predicate Survives(s: CacheState, g: Gap) {
    && ([] in s.stagingKeys || !Overlaps(g, s.stagingKeys))
    && ([] in s.frozenKeys || !Overlaps(g, s.frozenKeys))
  }

  lemma SurvivingExactly(s: CacheState, gaps: seq<Gap>)
    ensures forall g :: g in Surviving(s, gaps) <==> g in gaps && Survives(s, g)
    ensures |Surviving(s, gaps)| <= |gaps|
  {
    hide Overlaps;
  }

  /** Of the gaps that hold `k`, one is not removed. */
  ghost predicate SurvivesIn(s: CacheState, gaps: seq<Gap>, k: Str) {
    exists g :: g in gaps && Within(g, k) && Survives(s, g)
  }

  /** There is room for all frozen gaps, and each is recorded without a loss. */
  ghost predicate ExposesAll(s: CacheState) {
    && |s.exposedGaps| + |s.frozenGaps| <= s.maxGaps
    && AllLossless(s.exposedGaps, Surviving(s, s.frozenGaps), s.maxGaps, s.policy)
  }

  /** What a tick does to any state. */
  lemma TickExactly(s: CacheState, k: Str)
    requires ValidState(s)
    ensures var s' := Step(s, Tick);
            && s'.stagingGaps == [] && s'.stagingKeys == {} && s'.frozenKeys == s.stagingKeys
            && s'.maxGaps == s.maxGaps && s'.policy == s.policy
            && (forall g :: g in s'.frozenGaps <==> g in s.stagingGaps && Survives(s, g))
            && (Covers(s'.frozenGaps, k) <==> SurvivesIn(s, s.stagingGaps, k))
            && (ExposesAll(s) ==>
                  (Covers(s'.exposedGaps, k) <==> Covers(s.exposedGaps, k) || SurvivesIn(s, s.frozenGaps, k)))
  {
    hide Lt;
    hide Sorted;
    hide Within;
    hide Surviving;
    hide Survives;
    hide Expose;
    hide AllLossless;
    SurvivingExactly(s, s.stagingGaps);
    SurvivingExactly(s, s.frozenGaps);
    SurvivingIsSorted(s, s.frozenGaps);
    SortedIsNonEmpty(Surviving(s, s.frozenGaps));
    CoversIsMember(Surviving(s, s.stagingGaps), k);
    CoversIsMember(Surviving(s, s.frozenGaps), k);
    if ExposesAll(s) {
      ExposeLosesNothing(s.exposedGaps, Surviving(s, s.frozenGaps), s.maxGaps, s.policy, k);
    }
  }

  lemma CoversIsMember(gaps: seq<Gap>, k: Str)
    ensures Covers(gaps, k) <==> exists g :: g in gaps && Within(g, k)
  {
    hide Within;
  }

  /** A cleared cache covers nothing at any stage, and keeps the reported keys. */
  lemma ClearedCoversNothing(s: CacheState, k: Str)
    ensures var s' := Step(s, Clearing);
            && !Covers(s'.stagingGaps, k) && !Covers(s'.frozenGaps, k) && !Covers(s'.exposedGaps, k)
            && s'.stagingKeys == s.stagingKeys && s'.frozenKeys == s.frozenKeys
  {
    hide Within;
  }

  // ---------------------------------------------------------------------------
  // Runs

  /** Key `k` is covered at the stage that its gap reaches after `ticks` ticks, or later. */
  ghost predicate HasReached(s: CacheState, k: Str, ticks: nat) {
    || Covers(s.exposedGaps, k)
    || (ticks <= 1 && Covers(s.frozenGaps, k))
    || (ticks == 0 && Covers(s.stagingGaps, k))
  }

  /** Nothing is done to the gaps that hold `k`. */
  ghost predicate Keeps(s: CacheState, e: Event, k: Str) {
    match e
    case Record(first, last, weight, _) => Lossless(s.stagingGaps, first, last, weight, s.policy)
    case Update(keys) => [] in keys || !exists g :: g in s.exposedGaps && Within(g, k) && Overlaps(g, keys)
    case Tick =>
      && ExposesAll(s)
      && (forall g :: g in s.stagingGaps && Within(g, k) ==> Survives(s, g))
      && (forall g :: g in s.frozenGaps && Within(g, k) ==> Survives(s, g))
    case Clearing => false
    case SetWeight(_) => true
  }

  lemma StepKeeps(s: CacheState, e: Event, k: Str, ticks: nat)
    requires ValidState(s) && (e.Record? ==> Le(e.firstKey, e.lastKey))
    requires HasReached(s, k, ticks) && Keeps(s, e, k)
    ensures HasReached(Step(s, e), k, if e.Tick? then ticks + 1 else ticks)
  {
    hide Lt;
    hide Sorted;
    hide Within;
    hide SetGap;
    hide Lossless;
    hide Rotate;
    hide Survives;
    hide ExposesAll;
    CoversIsMember(s.stagingGaps, k);
    CoversIsMember(s.frozenGaps, k);
    CoversIsMember(s.exposedGaps, k);
    hide Covers;
    match e {
      case Record(first, last, weight, _) => SetGapExact(s.stagingGaps, first, last, weight, s.policy);
      case Update(keys) => ClearCovers(s.exposedGaps, keys, k);
      case Tick => TickExactly(s, k);
      case _ =>
    }
  }

  /** From event `i` on, which records `k`, nothing is done to the gaps that hold it. */
  ghost predicate Undisturbed(run: seq<Timed>, maxGaps: int, policy: Policy, i: nat, k: Str)
    requires i < |run|
  {
    && RecordsKey(run[i].event, k)
    && forall j :: i <= j < |run| ==> Keeps(After(run[..j], maxGaps, policy), run[j].event, k)
  }

  lemma {:induction false} ReachesStages(run: seq<Timed>, maxGaps: int, policy: Policy, i: nat, k: Str)
    requires RecordsRanges(run) && i < |run| && Undisturbed(run, maxGaps, policy, i, k)
    ensures HasReached(After(run, maxGaps, policy), k, Ticks(run, i))
    decreases |run|
  {
    hide Lt;
    hide Keeps;
    hide HasReached;
    hide After;
    var n := |run| - 1;
    var before, e := run[..n], run[n].event;
    var s := After(before, maxGaps, policy);
    AfterStep(run, maxGaps, policy);
    StatesAreValid(before, maxGaps, policy);
    if i == n {
      RecordedIsStaged(s, e, k);
    } else {
      assert forall j :: i <= j < n ==> before[..j] == run[..j];
      ReachesStages(before, maxGaps, policy, i, k);
      StepKeeps(s, e, k, Ticks(before, i));
    }
  }

  lemma RecordedIsStaged(s: CacheState, e: Event, k: Str)
    requires ValidState(s) && RecordsKey(e, k) && Keeps(s, e, k) && Le(e.firstKey, e.lastKey)
    ensures HasReached(Step(s, e), k, 0)
  {
    hide Lt;
    hide Sorted;
    hide SetGap;
    hide Covers;
    hide Lossless;
    SetGapExact(s.stagingGaps, e.firstKey, e.lastKey, e.weight, s.policy);
  }

  /** A recorded key is exposed once it has seen two ticks, if nothing was done to the gaps
      that came to hold it. */
  lemma RecordedIsExposed(run: seq<Timed>, maxGaps: int, policy: Policy, i: nat, k: Str)
    requires RecordsRanges(run) && i < |run| && Undisturbed(run, maxGaps, policy, i, k)
    requires Ticks(run, i) >= 2
    ensures Covers(After(run, maxGaps, policy).exposedGaps, k)
  {
    ReachesStages(run, maxGaps, policy, i, k);
  }

  // ---------------------------------------------------------------------------
  // Conditions on the run alone

  ghost function Records(run: seq<Timed>): nat {
    if run == [] then 0 else Records(run[..|run|-1]) + (if run[|run|-1].event.Record? then 1 else 0)
  }

  ghost predicate IsRecorded(run: seq<Timed>, k: Str) {
    exists i :: 0 <= i < |run| && RecordsKey(run[i].event, k)
  }

  ghost predicate CoversOnlyRecorded(run: seq<Timed>, s: CacheState) {
    forall k :: Covers(s.stagingGaps, k) || Covers(s.frozenGaps, k) || Covers(s.exposedGaps, k) ==> IsRecorded(run, k)
  }

  /** How many gaps there are, and which keys they have. */
  lemma {:induction false} GapsAreRecorded(run: seq<Timed>, maxGaps: int, policy: Policy)
    requires RecordsRanges(run)
    ensures var s := After(run, maxGaps, policy);
            && |s.stagingGaps| + |s.frozenGaps| + |s.exposedGaps| <= Records(run)
            && CoversOnlyRecorded(run, s)
  {
    hide Lt;
    hide After;
    if run == [] {
      assert After(run, maxGaps, policy) == Initial(maxGaps, policy) by {
        NothingYet(maxGaps, policy);
      }
    } else {
      var n := |run| - 1;
      var before, e, s := run[..n], run[n].event, After(run[..n], maxGaps, policy);
      AfterStep(run, maxGaps, policy);
      StatesAreValid(before, maxGaps, policy);
      GapsAreRecorded(before, maxGaps, policy);
      StepGrows(s, e);
      forall k
        ensures IsRecorded(run, k) <==> IsRecorded(before, k) || RecordsKey(e, k)
      {
      }
      hide IsRecorded;
      hide Covers;
      hide Step;
      forall k | Covers(Step(s, e).stagingGaps, k) || Covers(Step(s, e).frozenGaps, k)
                 || Covers(Step(s, e).exposedGaps, k)
        ensures IsRecorded(run, k)
      {
        StepInventsNothing(s, e, k);
      }
    }
  }

  lemma NothingYet(maxGaps: int, policy: Policy)
    ensures After([], maxGaps, policy) == Initial(maxGaps, policy)
  {
  }

  lemma StepGrows(s: CacheState, e: Event)
    requires ValidState(s) && (e.Record? ==> Le(e.firstKey, e.lastKey))
    ensures var s' := Step(s, e);
            |s'.stagingGaps| + |s'.frozenGaps| + |s'.exposedGaps|
            <= |s.stagingGaps| + |s.frozenGaps| + |s.exposedGaps| + (if e.Record? then 1 else 0)
  {
    hide Lt;
    hide Sorted;
    hide SetGap;
    hide Surviving;
    hide Expose;
    match e {
      case Record(first, last, weight, _) => SetGapSorted(s.stagingGaps, first, last, weight, s.policy);
      case Tick =>
        SurvivingExactly(s, s.stagingGaps);
        SurvivingExactly(s, s.frozenGaps);
        SurvivingIsSorted(s, s.frozenGaps);
        SortedIsNonEmpty(Surviving(s, s.frozenGaps));
        ExposeGrows(s.exposedGaps, Surviving(s, s.frozenGaps), s.maxGaps, s.policy);
      case _ =>
    }
  }

  lemma StepInventsNothing(s: CacheState, e: Event, k: Str)
    requires ValidState(s) && (e.Record? ==> Le(e.firstKey, e.lastKey))
    requires var s' := Step(s, e);
             Covers(s'.stagingGaps, k) || Covers(s'.frozenGaps, k) || Covers(s'.exposedGaps, k)
    ensures Covers(s.stagingGaps, k) || Covers(s.frozenGaps, k) || Covers(s.exposedGaps, k) || RecordsKey(e, k)
  {
    hide Lt;
    hide Sorted;
    hide SetGap;
    hide Within;
    hide Expose;
    hide Surviving;
    hide Survives;
    hide Overlaps;
    match e {
      case Record(first, last, weight, _) =>
        if Covers(Step(s, e).stagingGaps, k) {
          SetGapInventsNothing(s.stagingGaps, first, last, weight, s.policy, k);
        }
      case Update(keys) => ClearCovers(s.exposedGaps, keys, k);
        CoversIsMember(s.exposedGaps, k);
      case Tick =>
        SurvivingExactly(s, s.stagingGaps);
        SurvivingExactly(s, s.frozenGaps);
        SurvivingIsSorted(s, s.frozenGaps);
        CoversIsMember(s.stagingGaps, k);
        CoversIsMember(s.frozenGaps, k);
        CoversIsMember(Surviving(s, s.stagingGaps), k);
        CoversIsMember(Surviving(s, s.frozenGaps), k);
        SortedIsNonEmpty(Surviving(s, s.frozenGaps));
        ExposeIsSound(s.exposedGaps, Surviving(s, s.frozenGaps), s.maxGaps, s.policy, k);
      case _ => NothingCovered();
    }
  }

  /** The keys a cache remembers are those reported in the last two intervals between ticks. */
  lemma {:induction false} ReportedExactly(run: seq<Timed>, maxGaps: int, policy: Policy, u: Str)
    ensures var s := After(run, maxGaps, policy);
            && (u in s.stagingKeys <==> exists j :: 0 <= j < |run| && IsUpdateOf(run[j].event, u) && Ticks(run, j) == 0)
            && (u in s.frozenKeys <==> exists j :: 0 <= j < |run| && IsUpdateOf(run[j].event, u) && Ticks(run, j) == 1)
  {
    hide SetGap;
    hide RemoveOverlapping;
    hide Surviving;
    hide Expose;
    if run != [] {
      var n := |run| - 1;
      var before, e := run[..n], run[n].event;
      ReportedExactly(before, maxGaps, policy, u);
      AfterStep(run, maxGaps, policy);
      hide After;
      forall j | 0 <= j <= n
        ensures Ticks(run, j) == (if j == n then 0 else Ticks(before, j)) + (if e.Tick? then 1 else 0)
      {
        assert j == n ==> Ticks(before, n) == 0;
      }
      hide Ticks;
      assert forall j :: 0 <= j < n ==> before[j] == run[j];
    }
  }

  /** Keys `k` and `u` are never in one gap: a key between them is not recorded at all. */
  ghost predicate AreApart(run: seq<Timed>, k: Str, u: Str) {
    exists x :: ((Le(k, x) && Le(x, u)) || (Le(u, x) && Le(x, k))) && !IsRecorded(run, x)
  }

  /** The updates that event `i` or later ones may apply to gaps. */
  ghost predicate MayApply(run: seq<Timed>, i: nat, j: nat)
    requires i <= |run| && j < |run|
  {
    i <= j || Ticks(run[..i], j) <= 1
  }

  /** The run does nothing to gaps that hold `k` from event `i` on, and has room for all gaps. */
  ghost predicate Spares(run: seq<Timed>, i: nat, k: Str)
    requires i <= |run|
  {
    && (forall j :: i <= j < |run| ==> !run[j].event.Clearing?)
    && (forall j, u :: 0 <= j < |run| && IsUpdateOf(run[j].event, u) && MayApply(run, i, j) ==> AreApart(run, k, u))
  }

  lemma GapIsRecorded(run: seq<Timed>, gaps: seq<Gap>, g: Gap, k: Str, u: Str)
    requires g in gaps && forall x :: Covers(gaps, x) ==> IsRecorded(run, x)
    requires Within(g, k) && Within(g, u)
    ensures !AreApart(run, k, u)
  {
    hide Lt;
    hide IsRecorded;
    var i :| 0 <= i < |gaps| && gaps[i] == g;
    Ordered();
    forall x | (Le(k, x) && Le(x, u)) || (Le(u, x) && Le(x, k))
      ensures IsRecorded(run, x)
    {
      assert Within(gaps[i], x);
    }
  }

  lemma {:induction false} TicksGrow(run: seq<Timed>, i: nat, j: nat, from: nat)
    requires from <= i <= j <= |run|
    ensures Ticks(run[..i], from) <= Ticks(run[..j], from)
    decreases j
  {
    if i < j {
      TicksGrow(run, i, j - 1, from);
      assert run[..j][..j-1] == run[..j-1];
    }
  }

  lemma {:induction false} RecordsGrow(run: seq<Timed>, j: nat)
    requires j <= |run|
    ensures Records(run[..j]) <= Records(run)
    decreases |run|
  {
    if j < |run| {
      RecordsGrow(run[..|run|-1], j);
      assert run[..|run|-1][..j] == run[..j];
    } else {
      assert run[..j] == run;
    }
  }

  lemma {:induction false} InsertionIsConstant(run: seq<Timed>, maxGaps: int, policy: Policy)
    ensures After(run, maxGaps, policy).policy.insertReplaces == policy.insertReplaces
  {
    hide SetGap;
    hide RemoveOverlapping;
    hide Surviving;
    hide Expose;
    if run != [] {
      InsertionIsConstant(run[..|run|-1], maxGaps, policy);
    }
  }

  /** No gap that holds `k` is hit by what may be applied to it. */
  lemma SparedGap(run: seq<Timed>, i: nat, j: nat, k: Str, u: Str, gaps: seq<Gap>, g: Gap)
    requires i < |run| && Spares(run, i, k) && j < |run|
    requires IsUpdateOf(run[j].event, u) && MayApply(run, i, j)
    requires g in gaps && forall x :: Covers(gaps, x) ==> IsRecorded(run, x)
    requires Within(g, k)
    ensures !Within(g, u)
  {
    hide Within;
    hide Covers;
    hide IsRecorded;
    hide AreApart;
    hide MayApply;
    if Within(g, u) {
      GapIsRecorded(run, gaps, g, k, u);
    }
  }

  /** What is covered during a run is recorded in it. */
  lemma CoveredIsRecorded(run: seq<Timed>, maxGaps: int, policy: Policy, j: nat)
    requires RecordsRanges(run) && j <= |run|
    ensures var s := After(run[..j], maxGaps, policy);
            && CoversOnlyRecorded(run, s)
            && |s.stagingGaps| + |s.frozenGaps| + |s.exposedGaps| <= Records(run)
  {
    hide After;
    hide Covers;
    hide RecordsKey;
    hide Records;
    GapsAreRecorded(run[..j], maxGaps, policy);
    RecordsGrow(run, j);
    assert forall x :: IsRecorded(run[..j], x) ==> IsRecorded(run, x);
  }

  /** The keys that a tick at event `j` knows of are reported lately enough. */
  lemma KnownAtTick(run: seq<Timed>, maxGaps: int, policy: Policy, i: nat, j: nat, u: Str)
    requires i <= j < |run|
    requires var s := After(run[..j], maxGaps, policy); u in s.stagingKeys || u in s.frozenKeys
    ensures exists n :: 0 <= n < |run| && IsUpdateOf(run[n].event, u) && MayApply(run, i, n)
  {
    hide After;
    hide Ticks;
    ReportedExactly(run[..j], maxGaps, policy, u);
    var n :| 0 <= n < j && IsUpdateOf(run[..j][n].event, u) && Ticks(run[..j], n) <= 1;
    if n < i {
      TicksGrow(run, i, j, n);
    }
    assert MayApply(run, i, n);
  }

  lemma SparedTick(run: seq<Timed>, maxGaps: int, policy: Policy, i: nat, j: nat, k: Str, gaps: seq<Gap>, g: Gap)
    requires RecordsRanges(run) && i <= j < |run| && Spares(run, i, k)
    requires g in gaps && Within(g, k) && forall x :: Covers(gaps, x) ==> IsRecorded(run, x)
    ensures Survives(After(run[..j], maxGaps, policy), g)
  {
    hide Within;
    hide Covers;
    hide After;
    hide Spares;
    hide MayApply;
    hide IsRecorded;
    hide RecordsRanges;
    var s := After(run[..j], maxGaps, policy);
    forall u | u in s.stagingKeys || u in s.frozenKeys
      ensures !Within(g, u)
    {
      KnownAtTick(run, maxGaps, policy, i, j, u);
      var n :| 0 <= n < |run| && IsUpdateOf(run[n].event, u) && MayApply(run, i, n);
      SparedGap(run, i, n, k, u, gaps, g);
    }
  }

  lemma SparedStep(run: seq<Timed>, maxGaps: int, policy: Policy, i: nat, j: nat, k: Str)
    requires RecordsRanges(run) && policy.insertReplaces && Records(run) <= maxGaps
    requires i <= j < |run| && Spares(run, i, k)
    ensures Keeps(After(run[..j], maxGaps, policy), run[j].event, k)
  {
    hide Lt;
    hide Within;
    hide Covers;
    hide After;
    hide Ticks;
    hide Records;
    hide IsRecorded;
    hide AreApart;
    hide Survives;
    hide AllLossless;
    var s := After(run[..j], maxGaps, policy);
    CoveredIsRecorded(run, maxGaps, policy, j);
    InsertionIsConstant(run[..j], maxGaps, policy);
    LimitIsConstant(run[..j], maxGaps, policy);
    match run[j].event {
      case Update(keys) =>
        forall g, u | g in s.exposedGaps && Within(g, k) && u in keys
          ensures !Within(g, u)
        {
          SparedGap(run, i, j, k, u, s.exposedGaps, g);
        }
      case Tick =>
        ReplacingIsLossless(s.exposedGaps, Surviving(s, s.frozenGaps), s.maxGaps, s.policy);
        forall g | g in s.stagingGaps && Within(g, k)
          ensures Survives(s, g)
        {
          SparedTick(run, maxGaps, policy, i, j, k, s.stagingGaps, g);
        }
        forall g | g in s.frozenGaps && Within(g, k)
          ensures Survives(s, g)
        {
          SparedTick(run, maxGaps, policy, i, j, k, s.frozenGaps, g);
        }
      case _ =>
    }
  }

  /** Where all gaps fit, inserting replaces, and no key is updated that a gap may hold along
      with `k`, every recorded key is exposed after two ticks. */
  lemma SparedIsExposed(run: seq<Timed>, maxGaps: int, policy: Policy, i: nat, k: Str)
    requires RecordsRanges(run) && policy.insertReplaces && Records(run) <= maxGaps
    requires i < |run| && RecordsKey(run[i].event, k) && Spares(run, i, k) && Ticks(run, i) >= 2
    ensures Covers(After(run, maxGaps, policy).exposedGaps, k)
  {
    hide Lt;
    hide Keeps;
    hide After;
    hide Ticks;
    hide Records;
    hide Spares;
    hide RecordsKey;
    forall j | i <= j < |run|
      ensures Keeps(After(run[..j], maxGaps, policy), run[j].event, k)
    {
      SparedStep(run, maxGaps, policy, i, j, k);
    }
    RecordedIsExposed(run, maxGaps, policy, i, k);
  }
}
