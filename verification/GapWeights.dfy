/**
  The weights of gaps: what setGap returns, which weight a request adds to the set, when the
  gap that it records stays within the limit, and the weight of what a lookup finds.
 */
module GapWeights {
  import opened Strings
  import opened Keys
  import opened Gaps

  // ---------------------------------------------------------------------------
  // Sums

  lemma {:induction false} TotalOfConcat(a: seq<Gap>, b: seq<Gap>)
    ensures TotalWeight(a + b) == TotalWeight(a) + TotalWeight(b)
  {
    if b == [] {
      assert a + b == a;
    } else {
      var n := |b| - 1;
      TotalOfConcat(a, b[..n]);
      assert (a + b)[..|a+b|-1] == a + b[..n];
    }
  }

  lemma TotalOfOne(g: Gap)
    ensures TotalWeight([g]) == g.weight && TotalWeight([]) == 0
  {
    assert [g][..0] == [];
  }

  lemma TotalOfNext(gaps: seq<Gap>, i: nat, j: nat)
    requires i <= j < |gaps|
    ensures TotalWeight(gaps[i..j+1]) == TotalWeight(gaps[i..j]) + gaps[j].weight
  {
    assert gaps[i..j+1][..j-i] == gaps[i..j];
  }

  /** Replacing a range of gaps by one. */
  lemma TotalOfSplice(gaps: seq<Gap>, lo: nat, hi: nat, gap: Gap)
    requires lo <= hi <= |gaps|
    ensures TotalWeight(gaps[..lo] + [gap] + gaps[hi..])
         == TotalWeight(gaps) - TotalWeight(gaps[lo..hi]) + gap.weight
  {
    hide TotalWeight;
    TotalOfConcat(gaps[..lo] + [gap], gaps[hi..]);
    TotalOfConcat(gaps[..lo], [gap]);
    TotalOfOne(gap);
    TotalOfConcat(gaps[..lo], gaps[lo..]);
    assert gaps == gaps[..lo] + gaps[lo..];
    TotalOfConcat(gaps[lo..hi], gaps[hi..]);
    assert gaps[lo..] == gaps[lo..hi] + gaps[hi..];
  }

  // ---------------------------------------------------------------------------
  // What setGap returns

  /** The start of the new gap is refused: a gap with the same first key stays. */
  predicate IsRefused(gaps: seq<Gap>, first: Str, last: Str, weight: int, policy: Policy) {
    !AlreadyCovered(gaps, first, last) && StartOf(gaps, first, weight, policy).detached
  }

  lemma ReturnedOfPlan(gaps: seq<Gap>, first: Str, last: Str, a: Anchor, policy: Policy)
    requires Sorted(gaps) && Le(first, last) && Started(gaps, first, last, a)
    requires a.detached ==> a.lo < a.next
    ensures var plan := PlanFrom(gaps, first, last, a, policy);
            && (plan.returned == plan.gap || (plan.hi < |gaps| && plan.returned == gaps[plan.hi]))
            && Within(plan.returned, last)
  {
    hide Lt;
    hide Sorted;
    hide ExtendedGap;
    hide Absorb;
    hide AbsorbEnd;
    hide MergedWeight;
    hide Grounded;
    hide Connected;
    hide Fits;
    Ordered();
    ExtendedReaches(gaps, first, last, a);
    assert Le(a.gap.firstKey, a.gap.lastKey) by {
      FitsIsRange(gaps, a);
    }
  }

  lemma FitsIsRange(gaps: seq<Gap>, a: Anchor)
    requires a.lo <= a.next <= |gaps| && Fits(gaps, a.lo, a.next, a.gap)
    ensures Le(a.gap.firstKey, a.gap.lastKey)
  {
  }

  /** Unless its start was refused, what setGap returns is a gap of the set that it leaves, the
      one to go on from: it holds the last key of the request. */
  lemma ReturnedIsStored(gaps: seq<Gap>, first: Str, last: Str, weight: int, policy: Policy)
    requires Sorted(gaps) && Le(first, last) && !IsRefused(gaps, first, last, weight, policy)
    ensures SetGapResult(gaps, first, last, weight, policy) in SetGap(gaps, first, last, weight, policy)
    ensures Within(SetGapResult(gaps, first, last, weight, policy), last)
  {
    hide Lt;
    hide Sorted;
    hide StartOf;
    hide PlanFrom;
    if AlreadyCovered(gaps, first, last) {
      Ordered();
    } else {
      var a := StartOf(gaps, first, weight, policy);
      StartIsSound(gaps, first, last, weight, policy);
      ReturnedOfPlan(gaps, first, last, a, policy);
      var plan := PlanGap(gaps, first, last, weight, policy);
      var result := gaps[..plan.lo] + [plan.gap] + gaps[plan.hi..];
      assert result[plan.lo] == plan.gap;
      assert plan.hi < |gaps| ==> result[plan.lo+1] == gaps[plan.hi];
    }
  }

  // ---------------------------------------------------------------------------
  // Requests that overlap no gap

  /** The request touches gaps at most. */
  ghost predicate IsApart(gaps: seq<Gap>, first: Str, last: Str) {
    forall i :: 0 <= i < |gaps| ==> Le(gaps[i].lastKey, first) || Le(last, gaps[i].firstKey)
  }

  ghost predicate AreNatural(gaps: seq<Gap>) {
    forall i :: 0 <= i < |gaps| ==> gaps[i].weight >= 0
  }

  /** A single-key gap is stored at the last key of the request. */
  predicate EndsOnSingleKeyGap(gaps: seq<Gap>, first: Str, last: Str) {
    var p := UpperBound(gaps, first);
    p < |gaps| && gaps[p].firstKey == gaps[p].lastKey == last
  }

  /**
    The weight that a request makes the set forget, although it overlaps no gap: that of a
    single-key gap which is replaced at its first key, that of one which is absorbed at its
    last key, and with the latter that of the gap which it extends.
   */
  function Forgotten(gaps: seq<Gap>, first: Str, last: Str, weight: int, policy: Policy): int {
    var p := UpperBound(gaps, first);
    (if StartsOnSingleKeyGap(gaps, first, weight, policy) then gaps[p-1].weight else 0)
    + (if EndsOnSingleKeyGap(gaps, first, last)
       then gaps[p].weight + (if StartsFresh(gaps, first, weight, policy) then 0 else gaps[p-1].weight)
       else 0)
  }

  /** Where the new gap starts, if the request overlaps no gap. */
  lemma ApartStart(gaps: seq<Gap>, first: Str, last: Str, weight: int, policy: Policy)
    requires Sorted(gaps) && Le(first, last) && IsApart(gaps, first, last) && !AlreadyCovered(gaps, first, last)
    ensures var p, a := UpperBound(gaps, first), StartOf(gaps, first, weight, policy);
            && a.next == p && a.weight == weight && a.gap.lastKey == first
            && if StartsFresh(gaps, first, weight, policy) then
                 a.lo == (if StartsOnSingleKeyGap(gaps, first, weight, policy) then p - 1 else p)
                 && a.gap.weight == 0
               else
                 a.lo == p - 1 && a.gap == gaps[p-1] && Lt(first, last)
  {
    hide Lt;
    hide Sorted;
    Ordered();
    var p := UpperBound(gaps, first);
    if p > 0 {
      Apart(gaps, p - 1, p - 1);
    }
  }

  /** What is absorbed, if the request overlaps no gap: a single-key gap at its last key. */
  lemma ApartEnd(gaps: seq<Gap>, first: Str, last: Str)
    requires Sorted(gaps) && Le(first, last) && IsApart(gaps, first, last)
    ensures var p := UpperBound(gaps, first);
            var e := AbsorbEnd(gaps, p, last);
            && e == (if EndsOnSingleKeyGap(gaps, first, last) then p + 1 else p)
            && (EndsOnSingleKeyGap(gaps, first, last) ==> Lt(first, last))
            && (e < |gaps| && !Lt(last, gaps[e].firstKey) ==>
                  last == gaps[e].firstKey && !EndsOnSingleKeyGap(gaps, first, last))
  {
    hide Lt;
    hide Sorted;
    hide UpperBound;
    Ordered();
    var p := UpperBound(gaps, first);
    if p < |gaps| {
      Apart(gaps, p, p);
      if p + 1 < |gaps| {
        Apart(gaps, p, p + 1);
        Apart(gaps, p + 1, p + 1);
      }
    }
  }

  /** The weight of the recorded gap, merged or chained or neither. */
  lemma ApartPlan(gaps: seq<Gap>, first: Str, last: Str, weight: int, policy: Policy)
    requires Sorted(gaps) && Le(first, last) && IsApart(gaps, first, last) && !AlreadyCovered(gaps, first, last)
    requires AreNatural(gaps) && weight >= 0
    ensures var p, plan := UpperBound(gaps, first), PlanGap(gaps, first, last, weight, policy);
            var start := if StartsFresh(gaps, first, weight, policy) then 0 else gaps[p-1].weight;
            && plan.lo == StartOf(gaps, first, weight, policy).lo && p <= plan.hi
            && plan.gap.weight == (if EndsOnSingleKeyGap(gaps, first, last) then weight
                                   else start + weight + TotalWeight(gaps[p..plan.hi]))
            && (EndsOnSingleKeyGap(gaps, first, last) ==> plan.hi == p + 1)
  {
    hide Lt;
    hide StartOf;
    hide StartsFresh;
    hide StartsOnSingleKeyGap;
    hide UpperBound;
    hide AbsorbEnd;
    hide IsApart;
    hide Sorted;
    Ordered();
    ApartStart(gaps, first, last, weight, policy);
    ApartEnd(gaps, first, last);
    var p := UpperBound(gaps, first);
    assert gaps[p..p] == [];
    TotalOfOne(Gap(first, first, 0));
    if p < |gaps| {
      assert gaps[p..p+1] == [gaps[p]];
      TotalOfOne(gaps[p]);
    }
  }

  /**
    A request that overlaps no gap adds exactly its own weight to the set, whether it is
    stored on its own, extends a gap, is merged with one or chained to it, except for what is
    forgotten of single-key gaps at its ends.
   */
  lemma WeightIsConserved(gaps: seq<Gap>, first: Str, last: Str, weight: int, policy: Policy)
    requires Sorted(gaps) && Le(first, last) && IsApart(gaps, first, last)
    requires AreNatural(gaps) && weight >= 0
    requires !AlreadyCovered(gaps, first, last) && !IsRefused(gaps, first, last, weight, policy)
    ensures TotalWeight(SetGap(gaps, first, last, weight, policy))
         == TotalWeight(gaps) + weight - Forgotten(gaps, first, last, weight, policy)
  {
    hide Lt;
    hide StartOf;
    hide StartsFresh;
    hide StartsOnSingleKeyGap;
    hide UpperBound;
    hide PlanFrom;
    hide IsApart;
    hide Sorted;
    hide AlreadyCovered;
    ApartStart(gaps, first, last, weight, policy);
    ApartPlan(gaps, first, last, weight, policy);
    var p, plan := UpperBound(gaps, first), PlanGap(gaps, first, last, weight, policy);
    TotalOfSplice(gaps, plan.lo, plan.hi, plan.gap);
    TotalOfConcat(gaps[plan.lo..p], gaps[p..plan.hi]);
    assert gaps[plan.lo..plan.hi] == gaps[plan.lo..p] + gaps[p..plan.hi];
    if plan.lo < p {
      assert gaps[plan.lo..p] == [gaps[p-1]];
      TotalOfOne(gaps[p-1]);
    } else {
      assert gaps[plan.lo..p] == [];
    }
    if EndsOnSingleKeyGap(gaps, first, last) {
      assert gaps[p..plan.hi] == [gaps[p]];
      TotalOfOne(gaps[p]);
    }
    StartsOnSingle(gaps, first, weight, policy);
  }

  lemma StartsOnSingle(gaps: seq<Gap>, first: Str, weight: int, policy: Policy)
    ensures StartsOnSingleKeyGap(gaps, first, weight, policy) ==>
              StartsFresh(gaps, first, weight, policy) && UpperBound(gaps, first) > 0
  {
  }

  /** Away from single-key gaps nothing is forgotten. */
  lemma NothingIsForgotten(gaps: seq<Gap>, first: Str, last: Str, weight: int, policy: Policy)
    requires Sorted(gaps) && Le(first, last) && IsApart(gaps, first, last)
    requires AreNatural(gaps) && weight >= 0 && !AlreadyCovered(gaps, first, last)
    requires forall g :: g in gaps && g.firstKey == g.lastKey ==> g.firstKey != first && g.firstKey != last
    ensures TotalWeight(SetGap(gaps, first, last, weight, policy)) == TotalWeight(gaps) + weight
  {
    hide Lt;
    hide SetGap;
    hide AlreadyCovered;
    hide IsApart;
    hide TotalWeight;
    Ordered();
    var p := UpperBound(gaps, first);
    if p > 0 {
      Apart(gaps, p - 1, p - 1);
      assert gaps[p-1] in gaps;
    }
    assert p < |gaps| ==> gaps[p] in gaps;
    WeightIsConserved(gaps, first, last, weight, policy);
  }

  /** The request does not even touch a gap. */
  ghost predicate IsSeparate(gaps: seq<Gap>, first: Str, last: Str) {
    forall g :: g in gaps ==> Lt(g.lastKey, first) || Lt(last, g.firstKey)
  }

  lemma SeparateStart(gaps: seq<Gap>, first: Str, last: Str, weight: int, policy: Policy)
    requires Sorted(gaps) && Le(first, last) && IsSeparate(gaps, first, last)
    ensures var p := UpperBound(gaps, first);
            && !AlreadyCovered(gaps, first, last)
            && StartOf(gaps, first, weight, policy) == Anchor(Gap(first, first, 0), p, p, weight, false)
            && AbsorbEnd(gaps, p, last) == p && (p < |gaps| ==> Lt(last, gaps[p].firstKey))
  {
    hide Lt;
    hide UpperBound;
    Ordered();
    var p := UpperBound(gaps, first);
    if p > 0 {
      Apart(gaps, p - 1, p - 1);
      assert gaps[p-1] in gaps;
    }
    if p < |gaps| {
      Apart(gaps, p, p);
      assert gaps[p] in gaps;
    }
  }

  /** Such a request is stored as it is, next to all that is there. */
  lemma SeparateIsInserted(gaps: seq<Gap>, first: Str, last: Str, weight: int, policy: Policy)
    requires Sorted(gaps) && Le(first, last) && IsSeparate(gaps, first, last)
    ensures forall g :: g in SetGap(gaps, first, last, weight, policy) <==> g in gaps || g == Gap(first, last, weight)
    ensures SetGapResult(gaps, first, last, weight, policy) == Gap(first, last, weight)
  {
    hide Lt;
    hide Sorted;
    hide IsSeparate;
    hide UpperBound;
    hide AlreadyCovered;
    hide StartOf;
    hide AbsorbEnd;
    SeparateStart(gaps, first, last, weight, policy);
    var p := UpperBound(gaps, first);
    assert gaps[p..p] == [];
    var plan := PlanGap(gaps, first, last, weight, policy);
    assert plan.gap == Gap(first, last, weight) == plan.returned && plan.lo == plan.hi == p by {
      StrictTotalOrder(first, last, first);
    }
    assert gaps == gaps[..p] + gaps[p..];
  }

  /** A request that a single gap holds changes nothing. */
  lemma CoveredIsKept(gaps: seq<Gap>, first: Str, last: Str, weight: int, policy: Policy, i: nat)
    requires Sorted(gaps) && Le(first, last) && i < |gaps| && Within(gaps[i], first) && Within(gaps[i], last)
    ensures SetGap(gaps, first, last, weight, policy) == gaps
    ensures SetGapResult(gaps, first, last, weight, policy) in gaps
  {
    hide Lt;
    hide Sorted;
    hide PlanGap;
    Ordered();
    var p := UpperBound(gaps, first);
    Apart(gaps, i, i);
    if p <= i {
      Apart(gaps, p, i);
    } else if i < p - 1 {
      Apart(gaps, i, p - 1);
      Apart(gaps, p - 1, p - 1);
    }
  }

  // ---------------------------------------------------------------------------
  // Requests that may overlap gaps

  ghost predicate AreWithin(gaps: seq<Gap>, maxWeight: int) {
    forall i :: 0 <= i < |gaps| ==> 0 <= gaps[i].weight <= maxWeight
  }

  /** The weight of all that the new gap takes over on its left: of the gap that it starts
      from, and of those that lie in the request. */
  function TakenOver(gaps: seq<Gap>, first: Str, last: Str, weight: int, policy: Policy): int {
    var p := UpperBound(gaps, first);
    (if StartsFresh(gaps, first, weight, policy) then 0 else gaps[p-1].weight)
    + TotalWeight(gaps[p..AbsorbEnd(gaps, p, last)])
  }

  /** The weight of the request, with that of the gap which it extends if it touches that gap
      and takes over no other. */
  function Share(gaps: seq<Gap>, first: Str, last: Str, weight: int, policy: Policy): int {
    var p := UpperBound(gaps, first);
    if !StartsFresh(gaps, first, weight, policy) && gaps[p-1].lastKey == first && AbsorbEnd(gaps, p, last) == p
    then gaps[p-1].weight + weight
    else weight
  }

  /** The request ends inside a gap: after its first key and before its last one. */
  predicate EndsInGap(gaps: seq<Gap>, first: Str, last: Str) {
    var e := AbsorbEnd(gaps, UpperBound(gaps, first), last);
    e < |gaps| && Lt(gaps[e].firstKey, last)
  }

  /** Where the new gap starts if the request is within the limit. */
  lemma LightStart(gaps: seq<Gap>, first: Str, last: Str, weight: int, policy: Policy)
    requires weight <= policy.maxWeight && !AlreadyCovered(gaps, first, last)
    ensures var p, a := UpperBound(gaps, first), StartOf(gaps, first, weight, policy);
            && a.next == p && a.weight == weight
            && if StartsFresh(gaps, first, weight, policy) then a.gap == Gap(first, first, 0)
               else a.gap == gaps[p-1] && a.lo == p - 1 && Lt(gaps[p-1].lastKey, last)
                    && (gaps[p-1].lastKey == first ==> gaps[p-1].weight + weight <= policy.maxWeight)
  {
    hide Lt;
    Ordered();
  }

  /** The new gap before it meets the one that reaches beyond its last key. */
  lemma LightExtended(gaps: seq<Gap>, first: Str, last: Str, weight: int, policy: Policy)
    requires Sorted(gaps) && Le(first, last) && AreWithin(gaps, policy.maxWeight)
    requires 0 <= weight <= policy.maxWeight && !AlreadyCovered(gaps, first, last)
    ensures var a := StartOf(gaps, first, weight, policy);
            && 0 <= ExtendedGap(gaps, first, last, a).weight <= policy.maxWeight
            && ExtendedGap(gaps, first, last, a).weight == Share(gaps, first, last, weight, policy)
            && a.next == UpperBound(gaps, first)
            && Absorb(a.gap, gaps[a.next..AbsorbEnd(gaps, a.next, last)]).weight
               == TakenOver(gaps, first, last, weight, policy)
  {
    hide Lt;
    hide StartOf;
    hide StartsFresh;
    hide UpperBound;
    hide AbsorbEnd;
    hide AlreadyCovered;
    LightStart(gaps, first, last, weight, policy);
    var p := UpperBound(gaps, first);
    var e := AbsorbEnd(gaps, p, last);
    TotalOfOne(Gap(first, first, 0));
    assert e == p ==> gaps[p..e] == [];
    Ordered();
    if p < e {
      assert gaps[p..e][e-p-1] == gaps[e-1];
      Apart(gaps, p, e - 1);
      Apart(gaps, e - 1, e - 1);
    }
  }

  /**
    With all weights within the limit, the recorded gap exceeds it exactly when the request
    ends inside a gap and what the new one takes over on the left is too heavy already: then
    the two are chained, and the weight of the request is not looked at.
   */
  lemma RecordedIsWithinExactly(gaps: seq<Gap>, first: Str, last: Str, weight: int, policy: Policy)
    requires Sorted(gaps) && Le(first, last) && AreWithin(gaps, policy.maxWeight)
    requires 0 <= weight <= policy.maxWeight && !AlreadyCovered(gaps, first, last)
    ensures var recorded := PlanGap(gaps, first, last, weight, policy).gap;
            && recorded.weight >= 0
            && (recorded.weight <= policy.maxWeight <==>
                  !(EndsInGap(gaps, first, last) && TakenOver(gaps, first, last, weight, policy) > policy.maxWeight))
  {
    hide Lt;
    hide StartOf;
    hide UpperBound;
    hide AbsorbEnd;
    hide ExtendedGap;
    hide Absorb;
    hide TakenOver;
    hide AlreadyCovered;
    Ordered();
    LightExtended(gaps, first, last, weight, policy);
  }

  /**
    The weight of a request that ends inside a gap: that gap is left as it is if it is too
    heavy together with what is taken over; else they are merged, and the merged gap is as
    heavy as all that it replaces, or as the request and what it extends if that is more.
   */
  lemma OverlapIsMerged(gaps: seq<Gap>, first: Str, last: Str, weight: int, policy: Policy)
    requires Sorted(gaps) && Le(first, last) && AreWithin(gaps, policy.maxWeight)
    requires 0 <= weight <= policy.maxWeight && !AlreadyCovered(gaps, first, last)
    requires EndsInGap(gaps, first, last)
    ensures var e, plan := AbsorbEnd(gaps, UpperBound(gaps, first), last), PlanGap(gaps, first, last, weight, policy);
            var left, share := TakenOver(gaps, first, last, weight, policy), Share(gaps, first, last, weight, policy);
            if left + gaps[e].weight > policy.maxWeight then
              plan.gap.lastKey == gaps[e].firstKey && plan.gap.weight == left && plan.returned == gaps[e]
            else
              && plan.gap.lastKey == gaps[e].lastKey && plan.returned == plan.gap
              && left + gaps[e].weight <= plan.gap.weight <= policy.maxWeight && share <= plan.gap.weight
              && (plan.gap.weight == left + gaps[e].weight || plan.gap.weight == share)
  {
    hide Lt;
    hide StartOf;
    hide UpperBound;
    hide AbsorbEnd;
    hide Absorb;
    hide ExtendedGap;
    hide TakenOver;
    hide Share;
    hide AlreadyCovered;
    Ordered();
    LightExtended(gaps, first, last, weight, policy);
  }

  /** The request starts in the gap before it, or where that one ends, and ends before the next. */
  ghost predicate Continues(gaps: seq<Gap>, p: nat, first: Str, last: Str) {
    && 0 < p <= |gaps| && Within(gaps[p-1], first) && Lt(gaps[p-1].lastKey, last)
    && (p < |gaps| ==> Lt(last, gaps[p].firstKey))
  }

  lemma ContinuesAt(gaps: seq<Gap>, p: nat, first: Str, last: Str)
    requires Sorted(gaps) && Continues(gaps, p, first, last)
    ensures UpperBound(gaps, first) == p && AbsorbEnd(gaps, p, last) == p && Lt(first, last)
    ensures !AlreadyCovered(gaps, first, last)
  {
    hide Lt;
    hide UpperBound;
    Ordered();
    var q := UpperBound(gaps, first);
    if p < |gaps| {
      Apart(gaps, p, p);
    }
    if q < p {
      Apart(gaps, q, p - 1);
    }
  }

  /**
    Exactly when a request extends the gap that it continues: by its weight if it touches that
    gap and the sum is within the limit, and with its own weight alone if it overlaps it.
    Otherwise the two are chained, unless the gap has a single key.
   */
  lemma ContinuingIsExtended(gaps: seq<Gap>, p: nat, first: Str, last: Str, weight: int, policy: Policy)
    requires Sorted(gaps) && Continues(gaps, p, first, last) && weight <= policy.maxWeight
    ensures var left, result := gaps[p-1], SetGap(gaps, first, last, weight, policy);
            if Lt(first, left.lastKey) then
              result == gaps[..p-1] + [Gap(left.firstKey, last, weight)] + gaps[p..]
            else if left.weight + weight <= policy.maxWeight then
              result == gaps[..p-1] + [Gap(left.firstKey, last, left.weight + weight)] + gaps[p..]
            else
              left.firstKey != first ==> result == gaps[..p] + [Gap(first, last, weight)] + gaps[p..]
  {
    hide Lt;
    hide Sorted;
    hide UpperBound;
    hide AbsorbEnd;
    hide AlreadyCovered;
    ContinuesAt(gaps, p, first, last);
    assert gaps[p..p] == [];
    Ordered();
  }

  /** The weight of a request that does not end inside a gap: merged with the gap that it
      touches at its last key, if there is one and the sum is within the limit. */
  lemma TouchingIsMerged(gaps: seq<Gap>, first: Str, last: Str, weight: int, policy: Policy)
    requires Sorted(gaps) && Le(first, last) && AreWithin(gaps, policy.maxWeight)
    requires 0 <= weight <= policy.maxWeight && !AlreadyCovered(gaps, first, last)
    requires !EndsInGap(gaps, first, last)
    ensures var e, plan := AbsorbEnd(gaps, UpperBound(gaps, first), last), PlanGap(gaps, first, last, weight, policy);
            var share := Share(gaps, first, last, weight, policy);
            if e < |gaps| && gaps[e].firstKey == last && share + gaps[e].weight <= policy.maxWeight then
              plan.gap.lastKey == gaps[e].lastKey && plan.gap.weight == share + gaps[e].weight
              && plan.returned == plan.gap
            else
              plan.gap.lastKey == last && plan.gap.weight == share
              && plan.returned == if e < |gaps| && gaps[e].firstKey == last then gaps[e] else plan.gap
  {
    hide Lt;
    hide StartOf;
    hide UpperBound;
    hide AbsorbEnd;
    hide Absorb;
    hide ExtendedGap;
    hide TakenOver;
    hide Share;
    hide AlreadyCovered;
    Ordered();
    LightExtended(gaps, first, last, weight, policy);
    LightReaches(gaps, first, last, weight, policy);
  }

  lemma LightReaches(gaps: seq<Gap>, first: Str, last: Str, weight: int, policy: Policy)
    requires Sorted(gaps) && Le(first, last)
    requires weight <= policy.maxWeight && !AlreadyCovered(gaps, first, last)
    ensures ExtendedGap(gaps, first, last, StartOf(gaps, first, weight, policy)).lastKey == last
  {
    hide Lt;
    hide Sorted;
    hide StartOf;
    hide ExtendedGap;
    hide Started;
    var a := StartOf(gaps, first, weight, policy);
    StartIsSound(gaps, first, last, weight, policy);
    ExtendedReaches(gaps, first, last, a);
    LightStart(gaps, first, last, weight, policy);
    Ordered();
  }

  /** A request that is too heavy leaves the gap that it starts in, and gets the rest of its
      weight from there on. */
  lemma HeavyIsSplit(gaps: seq<Gap>, first: Str, last: Str, weight: int, policy: Policy)
    requires Sorted(gaps) && Le(first, last) && weight > policy.maxWeight && !AlreadyCovered(gaps, first, last)
    requires var p := UpperBound(gaps, first);
             && p > 0 && Lt(first, gaps[p-1].lastKey)
             && (p < |gaps| ==> Lt(last, gaps[p].firstKey))
    ensures var p := UpperBound(gaps, first);
            var rest := Gap(gaps[p-1].lastKey, last, weight - gaps[p-1].weight);
            && SetGap(gaps, first, last, weight, policy) == gaps[..p] + [rest] + gaps[p..]
            && SetGapResult(gaps, first, last, weight, policy) == rest
            && TotalWeight(gaps[..p] + [rest] + gaps[p..]) == TotalWeight(gaps) - gaps[p-1].weight + weight
  {
    hide Lt;
    hide UpperBound;
    Ordered();
    var p := UpperBound(gaps, first);
    var rest := Gap(gaps[p-1].lastKey, last, weight - gaps[p-1].weight);
    assert gaps[p..p] == [];
    if p < |gaps| {
      Apart(gaps, p, p);
    }
    TotalOfSplice(gaps, p, p, rest);
    TotalOfOne(rest);
  }

  // ---------------------------------------------------------------------------
  // Lookups

  /** Gaps `i` to `j` touch, and only the first may be a single-key gap. */
  ghost predicate IsChain(gaps: seq<Gap>, i: nat, j: nat) {
    && i <= j < |gaps|
    && forall n :: i < n <= j ==> gaps[n-1].lastKey == gaps[n].firstKey && Lt(gaps[n].firstKey, gaps[n].lastKey)
  }

  /** The gap chained to a coalesced one is the next in the set. */
  lemma ChainedIsNext(gaps: seq<Gap>, j: nat, g: Gap)
    requires Sorted(gaps) && j < |gaps| && g.lastKey == gaps[j].lastKey
    ensures match Chained(gaps, g)
            case Some(h) =>
              && j + 1 < |gaps| && gaps[j+1].firstKey == gaps[j].lastKey
              && Lt(gaps[j+1].firstKey, gaps[j+1].lastKey)
              && h == Gap(g.firstKey, gaps[j+1].lastKey, g.weight + gaps[j+1].weight)
            case None => EndsChain(gaps, g.lastKey)
  {
    hide Lt;
    hide EndsChain;
    Ordered();
    ChainedIsCovered(gaps, g, []);
    var i := LowerBound(gaps, g.lastKey);
    Apart(gaps, j, j);
    if Chained(gaps, g).Some? {
      Apart(gaps, i, i);
    }
  }

  lemma {:induction false} CoalescedIsSum(gaps: seq<Gap>, i: nat, j: nat, g: Gap) returns (end: nat)
    requires Sorted(gaps) && IsChain(gaps, i, j)
    requires g == Gap(gaps[i].firstKey, gaps[j].lastKey, TotalWeight(gaps[i..j+1]))
    ensures IsChain(gaps, i, end) && EndsChain(gaps, gaps[end].lastKey)
    ensures Coalesce(gaps, g) == Gap(gaps[i].firstKey, gaps[end].lastKey, TotalWeight(gaps[i..end+1]))
    decreases |gaps| - j
  {
    hide Lt;
    hide Chained;
    hide Sorted;
    hide EndsChain;
    hide TotalWeight;
    ChainedIsNext(gaps, j, g);
    match Chained(gaps, g) {
      case None => end := j;
      case Some(h) =>
        TotalOfNext(gaps, i, j + 1);
        end := CoalescedIsSum(gaps, i, j + 1, h);
    }
  }

  /** With nothing changed meanwhile, a lookup returns a whole chain of touching gaps, from the
      one that it starts with, and with the sum of their weights. */
  lemma LookupIsSum(gaps: seq<Gap>, others: seq<seq<Gap>>, minKey: Str, maxKey: Option<Str>) returns (end: nat)
    requires Sorted(gaps) && forall s :: s in others ==> s == gaps
    requires FirstGap(gaps, minKey, maxKey).Some?
    ensures var i := FirstGap(gaps, minKey, maxKey).value;
            && IsChain(gaps, i, end) && EndsChain(gaps, gaps[end].lastKey)
            && Lookup(gaps, others, minKey, maxKey)
               == Some(Gap(gaps[i].firstKey, gaps[end].lastKey, TotalWeight(gaps[i..end+1])))
  {
    hide Lt;
    hide Sorted;
    hide EndsChain;
    hide FirstGap;
    hide Coalesce;
    hide CoalesceChain;
    var i := FirstGap(gaps, minKey, maxKey).value;
    assert gaps[i..i+1] == [gaps[i]];
    TotalOfOne(gaps[i]);
    UndisturbedChain(gaps, others, gaps[i]);
    end := CoalescedIsSum(gaps, i, i, gaps[i]);
  }
}
