/**
  Listing gaps: closed ranges of keys that a listing may skip, kept in an ordered set
  indexed by the first key of each gap.  This module gives what `setGap`,
  `removeOverlappingGaps` and `lookupGap` compute, as functions of the set, and what
  those functions mean for the covered keys.
 */
module Gaps {
  import opened Strings
  import opened Keys

  datatype Gap = Gap(firstKey: Str, lastKey: Str, weight: int)

  ghost predicate Within(g: Gap, k: Str) {
    Le(g.firstKey, k) && Le(k, g.lastKey)
  }

  ghost predicate Covers(gaps: seq<Gap>, k: Str) {
    exists i :: 0 <= i < |gaps| && Within(gaps[i], k)
  }

  /** Sorted by first key, every gap non-empty, and neighbours that at most touch. */
  ghost predicate Sorted(gaps: seq<Gap>) {
    && (forall i :: 0 <= i < |gaps| ==> Le(gaps[i].firstKey, gaps[i].lastKey))
    && (forall i, j :: 0 <= i < j < |gaps| ==>
          Lt(gaps[i].firstKey, gaps[j].firstKey) && Le(gaps[i].lastKey, gaps[j].firstKey))
  }

  // ---------------------------------------------------------------------------
  // Searches of the ordered set, as positions in its sorted sequence.

  /** Position of the first gap whose first key is greater than `k`. */
  function UpperBound(gaps: seq<Gap>, k: Str): (n: nat)
    ensures n <= |gaps|
    ensures forall j :: 0 <= j < n ==> Le(gaps[j].firstKey, k)
    ensures n < |gaps| ==> Lt(k, gaps[n].firstKey)
  {
    if gaps == [] || Lt(k, gaps[0].firstKey) then 0
    else Ordered(); 1 + UpperBound(gaps[1..], k)
  }

  /** Position of the first gap whose first key is not less than `k`. */
  function LowerBound(gaps: seq<Gap>, k: Str): (n: nat)
    ensures n <= |gaps|
    ensures forall j :: 0 <= j < n ==> Lt(gaps[j].firstKey, k)
    ensures n < |gaps| ==> Le(k, gaps[n].firstKey)
  {
    if gaps == [] || Le(k, gaps[0].firstKey) then 0
    else Ordered(); 1 + LowerBound(gaps[1..], k)
  }

  // ---------------------------------------------------------------------------
  // setGap

  /**
    Where the gap being recorded starts: it begins as `gap`, replaces the gaps from
    position `lo`, and absorbs gaps from position `next` on; `weight` is the weight left
    to account for.  A `detached` start is a gap object that the ordered set refused
    because an element with the same first key is there already.
   */
  datatype Anchor = Anchor(gap: Gap, lo: nat, next: nat, weight: int, detached: bool)

  /** Parameters that steer setGap: the weight threshold, and whether inserting an
      element equal to an existing one replaces it or leaves the existing one in place. */
  datatype Policy = Policy(maxWeight: int, insertReplaces: bool)

  /** The closest gap at or before `first` cannot serve as the start of the new one. */
  predicate StartsFresh(gaps: seq<Gap>, first: Str, weight: int, policy: Policy) {
    var p := UpperBound(gaps, first);
    p == 0
    || Lt(gaps[p-1].lastKey, first)
    || (gaps[p-1].lastKey == first && gaps[p-1].weight + weight > policy.maxWeight)
  }

  /** A fresh gap is to start at `first`, where a single-key gap is stored already. */
  predicate StartsOnSingleKeyGap(gaps: seq<Gap>, first: Str, weight: int, policy: Policy) {
    var p := UpperBound(gaps, first);
    StartsFresh(gaps, first, weight, policy) && p > 0 && gaps[p-1].firstKey == first
  }

  predicate AlreadyCovered(gaps: seq<Gap>, first: Str, last: Str) {
    var p := UpperBound(gaps, first);
    p > 0 && Le(last, gaps[p-1].lastKey)
  }

  /** Step 1 of 4. */
  function StartOf(gaps: seq<Gap>, first: Str, weight: int, policy: Policy): (a: Anchor)
    ensures a.lo <= a.next <= |gaps| && (a.detached ==> a.lo < a.next)
  {
    var p := UpperBound(gaps, first);
    if StartsOnSingleKeyGap(gaps, first, weight, policy) then
      Anchor(Gap(first, first, 0), p - 1, p, weight, !policy.insertReplaces)
    else if StartsFresh(gaps, first, weight, policy) then
      Anchor(Gap(first, first, 0), p, p, weight, false)
    else if Lt(first, gaps[p-1].lastKey) && weight > policy.maxWeight then
      var middle := gaps[p-1].lastKey;
      if p < |gaps| && gaps[p].firstKey == middle
      then Anchor(gaps[p], p, p + 1, weight - gaps[p-1].weight, false)
      else Anchor(Gap(middle, middle, 0), p, p, weight - gaps[p-1].weight, false)
    else
      Anchor(gaps[p-1], p - 1, p, weight, false)
  }

  /** Position of the first gap from `from` on that reaches beyond `last`. */
  function AbsorbEnd(gaps: seq<Gap>, from: nat, last: Str): (n: nat)
    requires from <= |gaps|
    ensures from <= n <= |gaps|
    ensures forall j :: from <= j < n ==> Le(gaps[j].lastKey, last)
    ensures n < |gaps| ==> Lt(last, gaps[n].lastKey)
    decreases |gaps| - from
  {
    if from == |gaps| || Lt(last, gaps[from].lastKey) then from
    else Ordered(); AbsorbEnd(gaps, from + 1, last)
  }

  function TotalWeight(gaps: seq<Gap>): int {
    if gaps == [] then 0 else TotalWeight(gaps[..|gaps|-1]) + gaps[|gaps|-1].weight
  }

  /** Step 2 of 4: `start` with `absorbed`, all of them up to the last key, merged in. */
  function Absorb(start: Gap, absorbed: seq<Gap>): (r: Gap)
    ensures r.firstKey == start.firstKey
  {
    if absorbed == [] then start
    else Gap(start.firstKey, absorbed[|absorbed|-1].lastKey, start.weight + TotalWeight(absorbed))
  }

  /** Step 3 of 4: the gap extended to `last`. */
  function Extend(g: Gap, first: Str, last: Str, weight: int): Gap {
    if g.lastKey == first && first != last then Gap(g.firstKey, last, g.weight + weight)
    else if Le(g.lastKey, last) then Gap(g.firstKey, last, weight)
    else g
  }

  /** The weight of `g` merged with the gap `right` it overlaps or touches at `last`. */
  function MergedWeight(g: Gap, minWeight: int, right: Gap, last: Str): int {
    if last == right.firstKey then g.weight + right.weight
    else if g.weight > minWeight + right.weight then g.weight else minWeight + right.weight
  }

  /** The one splice setGap amounts to, and the gap it returns. */
  datatype Plan = Plan(lo: nat, hi: nat, gap: Gap, detached: bool, returned: Gap)

  /** Steps 2 and 3: the start with all it absorbs merged in, extended to `last`. */
  function ExtendedGap(gaps: seq<Gap>, first: Str, last: Str, a: Anchor): Gap
    requires a.next <= |gaps|
  {
    Extend(Absorb(a.gap, gaps[a.next..AbsorbEnd(gaps, a.next, last)]), first, last, a.weight)
  }

  /**
    Step 4 of 4: the recorded gap replaces everything it absorbed and is then merged
    with, or chained to, the gap that reaches beyond its last key.
   */
  function PlanFrom(gaps: seq<Gap>, first: Str, last: Str, a: Anchor, policy: Policy): (plan: Plan)
    requires a.lo <= a.next <= |gaps| && (a.detached ==> a.lo < a.next)
    ensures a.lo == plan.lo <= plan.hi <= |gaps| && a.detached == plan.detached
  {
    var e := AbsorbEnd(gaps, a.next, last);
    var minWeight := Absorb(a.gap, gaps[a.next..e]).weight;
    var extended := ExtendedGap(gaps, first, last, a);
    if e == |gaps| || Lt(last, gaps[e].firstKey) then
      Plan(a.lo, e, extended, a.detached, extended)
    else
      var w := MergedWeight(extended, minWeight, gaps[e], last);
      if w <= policy.maxWeight then
        var gap := Gap(extended.firstKey, gaps[e].lastKey, w);
        Plan(a.lo, e + 1, gap, a.detached, gap)
      else
        var rest := if w > gaps[e].weight then w - gaps[e].weight else 0;
        Plan(a.lo, e, Gap(extended.firstKey, gaps[e].firstKey, rest), a.detached, gaps[e])
  }

  function PlanGap(gaps: seq<Gap>, first: Str, last: Str, weight: int, policy: Policy): (plan: Plan)
    ensures plan.lo <= plan.hi <= |gaps| && (plan.detached ==> plan.lo < plan.hi)
  {
    PlanFrom(gaps, first, last, StartOf(gaps, first, weight, policy), policy)
  }

  /** What setGap leaves in the set. */
  function SetGap(gaps: seq<Gap>, first: Str, last: Str, weight: int, policy: Policy): seq<Gap> {
    if AlreadyCovered(gaps, first, last) then gaps
    else
      var plan := PlanGap(gaps, first, last, weight, policy);
      if plan.detached then gaps[..plan.lo+1] + gaps[plan.hi..]
      else gaps[..plan.lo] + [plan.gap] + gaps[plan.hi..]
  }

  /** What setGap returns. */
  function SetGapResult(gaps: seq<Gap>, first: Str, last: Str, weight: int, policy: Policy): Gap {
    if AlreadyCovered(gaps, first, last) then gaps[UpperBound(gaps, first) - 1]
    else PlanGap(gaps, first, last, weight, policy).returned
  }

  // ---------------------------------------------------------------------------
  // What setGap means

  /** `k` is at one of the positions `lo..hi`. */
  ghost predicate CoversIn(gaps: seq<Gap>, lo: nat, hi: nat, k: Str)
    requires lo <= hi <= |gaps|
  {
    exists j :: lo <= j < hi && Within(gaps[j], k)
  }

  /** The spliced gap fits between its neighbours and spans all it replaces. */
  ghost predicate Fits(gaps: seq<Gap>, lo: nat, hi: nat, gap: Gap)
    requires lo <= hi <= |gaps|
  {
    && Le(gap.firstKey, gap.lastKey)
    && (lo > 0 ==> Lt(gaps[lo-1].firstKey, gap.firstKey) && Le(gaps[lo-1].lastKey, gap.firstKey))
    && (hi < |gaps| ==> Lt(gap.firstKey, gaps[hi].firstKey) && Le(gap.lastKey, gaps[hi].firstKey))
    && (lo < hi ==> Le(gap.firstKey, gaps[lo].firstKey) && Le(gaps[hi-1].lastKey, gap.lastKey))
  }

  /** The recorded gap starts from a stored gap or from a single requested key... */
  ghost predicate Grounded(gaps: seq<Gap>, first: Str, last: Str, a: Anchor) {
    || (a.lo < |gaps| && a.next == a.lo + 1 && a.gap == gaps[a.lo])
    || (a.gap.firstKey == a.gap.lastKey && Le(first, a.gap.firstKey) && Le(a.gap.lastKey, last))
  }

  /** ...and no requested key before it is left out. */
  ghost predicate Connected(gaps: seq<Gap>, first: Str, a: Anchor)
    requires a.lo <= |gaps|
  {
    || (Le(a.gap.firstKey, first) && Le(first, a.gap.lastKey))
    || (a.lo > 0 && Le(gaps[a.lo-1].firstKey, first) && Lt(first, a.gap.firstKey)
        && gaps[a.lo-1].lastKey == a.gap.firstKey)
  }

  ghost predicate Started(gaps: seq<Gap>, first: Str, last: Str, a: Anchor) {
    && a.lo <= a.next <= |gaps|
    && Fits(gaps, a.lo, a.next, a.gap)
    && Grounded(gaps, first, last, a)
    && Connected(gaps, first, a)
    && (Lt(a.gap.firstKey, last) || a.gap.firstKey == first)
  }

  lemma FreshStartIsSound(gaps: seq<Gap>, first: Str, last: Str, weight: int, policy: Policy)
    requires Sorted(gaps) && Le(first, last) && StartsFresh(gaps, first, weight, policy)
    ensures Started(gaps, first, last, StartOf(gaps, first, weight, policy))
  {
    hide Lt;
    hide Sorted;
    hide UpperBound;
    Ordered();
    var p := UpperBound(gaps, first);
    if p > 0 {
      Apart(gaps, p - 1, p - 1);
      if p > 1 {
        Apart(gaps, p - 2, p - 1);
      }
    }
  }

  lemma ContinuedStartIsSound(gaps: seq<Gap>, first: Str, last: Str, weight: int, policy: Policy)
    requires Sorted(gaps) && Le(first, last) && !AlreadyCovered(gaps, first, last)
    requires !StartsFresh(gaps, first, weight, policy)
    ensures Started(gaps, first, last, StartOf(gaps, first, weight, policy))
  {
    hide Lt;
    hide Sorted;
    hide UpperBound;
    Ordered();
    var p := UpperBound(gaps, first);
    Apart(gaps, p - 1, p - 1);
    if p < |gaps| {
      Apart(gaps, p - 1, p);
      Apart(gaps, p, p);
      if p + 1 < |gaps| {
        Apart(gaps, p, p + 1);
      }
    }
    if p > 1 {
      Apart(gaps, p - 2, p - 1);
    }
  }

  lemma StartIsSound(gaps: seq<Gap>, first: Str, last: Str, weight: int, policy: Policy)
    requires Sorted(gaps) && Le(first, last) && !AlreadyCovered(gaps, first, last)
    ensures Started(gaps, first, last, StartOf(gaps, first, weight, policy))
  {
    hide *;
    if StartsFresh(gaps, first, weight, policy) {
      FreshStartIsSound(gaps, first, last, weight, policy);
    } else {
      ContinuedStartIsSound(gaps, first, last, weight, policy);
    }
  }

  lemma ExtendedReaches(gaps: seq<Gap>, first: Str, last: Str, a: Anchor)
    requires Sorted(gaps) && Le(first, last) && Started(gaps, first, last, a)
    ensures var g := ExtendedGap(gaps, first, last, a);
            var e := AbsorbEnd(gaps, a.next, last);
            && g.firstKey == a.gap.firstKey
            && if Le(a.gap.lastKey, last) then g.lastKey == last else g == a.gap && e == a.next
  {
    hide Lt;
    Ordered();
  }

  lemma Apart(gaps: seq<Gap>, i: nat, j: nat)
    requires Sorted(gaps) && i <= j < |gaps|
    ensures i < j ==> Lt(gaps[i].firstKey, gaps[j].firstKey) && Le(gaps[i].lastKey, gaps[j].firstKey)
    ensures Le(gaps[i].firstKey, gaps[i].lastKey)
  {
  }

  lemma PlanFits(gaps: seq<Gap>, first: Str, last: Str, a: Anchor, policy: Policy)
    requires Sorted(gaps) && Le(first, last) && Started(gaps, first, last, a)
    requires a.detached ==> a.lo < a.next
    ensures var p := PlanFrom(gaps, first, last, a, policy);
            Fits(gaps, p.lo, p.hi, p.gap)
  {
    hide Lt;
    hide Sorted;
    hide ExtendedGap;
    hide AbsorbEnd;
    hide Absorb;
    hide MergedWeight;
    hide Grounded;
    hide Connected;
    ExtendedReaches(gaps, first, last, a);
    Ordered();
    var e := AbsorbEnd(gaps, a.next, last);
    if e < |gaps| {
      Apart(gaps, a.next, e);
      if e > a.next {
        Apart(gaps, e - 1, e);
      }
      if e + 1 < |gaps| {
        Apart(gaps, e, e + 1);
      }
    }
  }

  /** The spliced gap covers no key that neither the request nor what it replaces covers. */
  lemma PlanInventsNothing(gaps: seq<Gap>, first: Str, last: Str, a: Anchor, policy: Policy, k: Str)
    requires Sorted(gaps) && Le(first, last) && Started(gaps, first, last, a)
    requires a.detached ==> a.lo < a.next
    ensures var p := PlanFrom(gaps, first, last, a, policy);
            Within(p.gap, k) ==> (Le(first, k) && Le(k, last)) || CoversIn(gaps, p.lo, p.hi, k)
  {
    hide Lt;
    hide ExtendedGap;
    Ordered();
    ExtendedReaches(gaps, first, last, a);
  }

  /** The spliced gap and its two neighbours cover the whole request. */
  lemma PlanRecords(gaps: seq<Gap>, first: Str, last: Str, a: Anchor, policy: Policy, k: Str)
    requires Sorted(gaps) && Le(first, last) && Started(gaps, first, last, a)
    requires a.detached ==> a.lo < a.next
    requires Le(first, k) && Le(k, last)
    ensures var p := PlanFrom(gaps, first, last, a, policy);
            Within(p.gap, k) || CoversIn(gaps, 0, p.lo, k) || CoversIn(gaps, p.hi, |gaps|, k)
  {
    hide Lt;
    hide ExtendedGap;
    Ordered();
    ExtendedReaches(gaps, first, last, a);
  }

  lemma SpliceSorted(gaps: seq<Gap>, lo: nat, hi: nat, gap: Gap)
    requires Sorted(gaps) && lo <= hi <= |gaps| && Fits(gaps, lo, hi, gap)
    ensures Sorted(gaps[..lo] + [gap] + gaps[hi..])
  {
    hide Lt;
    Ordered();
    forall j | 0 <= j < lo
      ensures Lt(gaps[j].firstKey, gap.firstKey) && Le(gaps[j].lastKey, gap.firstKey)
    {
      Apart(gaps, j, lo - 1);
    }
    forall j | hi <= j < |gaps|
      ensures Lt(gap.firstKey, gaps[j].firstKey) && Le(gap.lastKey, gaps[j].firstKey)
    {
      Apart(gaps, hi, j);
    }
  }

  lemma SpliceCovers(gaps: seq<Gap>, lo: nat, hi: nat, gap: Gap, k: Str)
    requires lo <= hi <= |gaps|
    ensures Covers(gaps[..lo] + [gap] + gaps[hi..], k)
       <==> CoversIn(gaps, 0, lo, k) || Within(gap, k) || CoversIn(gaps, hi, |gaps|, k)
  {
    hide Within;
    var s := gaps[..lo] + [gap] + gaps[hi..];
    assert s[lo] == gap;
    assert forall j :: 0 <= j < lo ==> s[j] == gaps[j];
    assert forall j :: hi <= j < |gaps| ==> gaps[j] == s[j - hi + lo + 1];
    assert forall j :: lo < j < |s| ==> s[j] == gaps[j - lo - 1 + hi];
  }

  lemma CutSorted(gaps: seq<Gap>, lo: nat, hi: nat)
    requires Sorted(gaps) && lo <= hi <= |gaps|
    ensures Sorted(gaps[..lo] + gaps[hi..])
  {
    hide Lt;
  }

  lemma CutCovers(gaps: seq<Gap>, lo: nat, hi: nat, k: Str)
    requires lo <= hi <= |gaps|
    ensures Covers(gaps[..lo] + gaps[hi..], k)
       <==> CoversIn(gaps, 0, lo, k) || CoversIn(gaps, hi, |gaps|, k)
  {
    hide Within;
    var s := gaps[..lo] + gaps[hi..];
    assert forall j :: 0 <= j < lo ==> s[j] == gaps[j];
    assert forall j :: hi <= j < |gaps| ==> gaps[j] == s[j - hi + lo];
    assert forall j :: lo <= j < |s| ==> s[j] == gaps[j - lo + hi];
  }

  /** The set stays sorted, its gaps non-empty and at most touching, and grows by at
      most one gap. */
  lemma SetGapSorted(gaps: seq<Gap>, first: Str, last: Str, weight: int, policy: Policy)
    requires Sorted(gaps) && Le(first, last)
    ensures Sorted(SetGap(gaps, first, last, weight, policy))
    ensures |SetGap(gaps, first, last, weight, policy)| <= |gaps| + 1
  {
    hide Lt;
    hide AlreadyCovered;
    hide StartOf;
    hide PlanFrom;
    if !AlreadyCovered(gaps, first, last) {
      var a := StartOf(gaps, first, weight, policy);
      StartIsSound(gaps, first, last, weight, policy);
      PlanFits(gaps, first, last, a, policy);
      var p := PlanGap(gaps, first, last, weight, policy);
      if p.detached {
        CutSorted(gaps, p.lo + 1, p.hi);
      } else {
        SpliceSorted(gaps, p.lo, p.hi, p.gap);
      }
    }
  }

  /** On every branch and for every weight, only keys of the request become covered. */
  lemma SetGapInventsNothing(gaps: seq<Gap>, first: Str, last: Str, weight: int, policy: Policy, k: Str)
    requires Sorted(gaps) && Le(first, last)
    requires Covers(SetGap(gaps, first, last, weight, policy), k)
    ensures Covers(gaps, k) || (Le(first, k) && Le(k, last))
  {
    if !AlreadyCovered(gaps, first, last) {
      var a := StartOf(gaps, first, weight, policy);
      StartIsSound(gaps, first, last, weight, policy);
      PlanInventsNothing(gaps, first, last, a, policy, k);
      var p := PlanGap(gaps, first, last, weight, policy);
      if p.detached {
        CutCovers(gaps, p.lo + 1, p.hi, k);
      } else {
        SpliceCovers(gaps, p.lo, p.hi, p.gap, k);
      }
    }
  }

  /**
    The one case in which setGap can lose keys: a fresh gap is started on a stored
    single-key gap which the ordered set keeps in place of it.  Even then nothing is lost
    when the next stored gap starts at the very next key and stays chained.
   */
  predicate Lossless(gaps: seq<Gap>, first: Str, last: Str, weight: int, policy: Policy) {
    || AlreadyCovered(gaps, first, last)
    || !StartsOnSingleKeyGap(gaps, first, weight, policy)
    || policy.insertReplaces
    || StaysChained(gaps, UpperBound(gaps, first), first, last, weight, policy)
  }

  predicate StaysChained(gaps: seq<Gap>, p: nat, first: Str, last: Str, weight: int, policy: Policy) {
    && p < |gaps|
    && gaps[p].firstKey == first + [0]
    && Lt(last, gaps[p].lastKey)
    && MergedWeight(Gap(first, last, weight), 0, gaps[p], last) > policy.maxWeight
  }

  lemma SetGapRecords(gaps: seq<Gap>, first: Str, last: Str, weight: int, policy: Policy, k: Str)
    requires Sorted(gaps) && Le(first, last) && !AlreadyCovered(gaps, first, last)
    requires !PlanGap(gaps, first, last, weight, policy).detached
    requires Covers(gaps, k) || (Le(first, k) && Le(k, last))
    ensures Covers(SetGap(gaps, first, last, weight, policy), k)
  {
    hide Lt;
    hide AlreadyCovered;
    hide StartOf;
    hide PlanFrom;
    var a := StartOf(gaps, first, weight, policy);
    var p := PlanGap(gaps, first, last, weight, policy);
    StartIsSound(gaps, first, last, weight, policy);
    SpliceCovers(gaps, p.lo, p.hi, p.gap, k);
    if Le(first, k) && Le(k, last) {
      PlanRecords(gaps, first, last, a, policy, k);
    } else {
      PlanFits(gaps, first, last, a, policy);
      if CoversIn(gaps, p.lo, p.hi, k) {
        ReplacedIsWithin(gaps, p.lo, p.hi, p.gap, k);
      }
    }
  }

  lemma ReplacedIsWithin(gaps: seq<Gap>, lo: nat, hi: nat, gap: Gap, k: Str)
    requires Sorted(gaps) && lo <= hi <= |gaps| && Fits(gaps, lo, hi, gap)
    requires CoversIn(gaps, lo, hi, k)
    ensures Within(gap, k)
  {
    hide Lt;
    hide Sorted;
    Ordered();
    var j :| lo <= j < hi && Within(gaps[j], k);
    Apart(gaps, lo, j);
    Apart(gaps, j, hi - 1);
    Apart(gaps, hi - 1, hi - 1);
  }

  /** A refused start sits on a single-key gap at `first`, and more keys follow. */
  lemma DetachedStart(gaps: seq<Gap>, first: Str, last: Str, weight: int, policy: Policy)
    requires Sorted(gaps) && Le(first, last) && !AlreadyCovered(gaps, first, last)
    requires StartOf(gaps, first, weight, policy).detached
    ensures var p := UpperBound(gaps, first);
            && p > 0
            && StartOf(gaps, first, weight, policy) == Anchor(Gap(first, first, 0), p - 1, p, weight, true)
            && gaps[p-1].firstKey == gaps[p-1].lastKey == first && Lt(first, last)
  {
    hide Lt;
    Ordered();
    var p := UpperBound(gaps, first);
    Apart(gaps, p - 1, p - 1);
  }

  lemma DetachedPlan(gaps: seq<Gap>, first: Str, last: Str, weight: int, policy: Policy)
    requires Lt(first, last) && UpperBound(gaps, first) > 0
    requires var p := UpperBound(gaps, first);
             StartOf(gaps, first, weight, policy) == Anchor(Gap(first, first, 0), p - 1, p, weight, true)
    ensures var p := UpperBound(gaps, first);
            (PlanGap(gaps, first, last, weight, policy).hi == p < |gaps| && gaps[p].firstKey == first + [0])
            <==> StaysChained(gaps, p, first, last, weight, policy)
  {
    hide Lt;
    hide StartOf;
    Ordered();
    NextString(first, last);
    var p := UpperBound(gaps, first);
    assert gaps[p..p] == [];
  }

  lemma NoGapBefore(gaps: seq<Gap>, first: Str, p: nat, hi: nat)
    requires Sorted(gaps) && 0 < p <= hi <= |gaps| && gaps[p-1].lastKey == first
    requires p < |gaps| ==> Lt(first, gaps[p].firstKey)
    requires !(hi == p < |gaps| && gaps[p].firstKey == first + [0])
    ensures !CoversIn(gaps, 0, p, first + [0]) && !CoversIn(gaps, hi, |gaps|, first + [0])
  {
    hide Lt;
    hide Sorted;
    Ordered();
    NextString(first, first + [0]);
    forall j | 0 <= j < p
      ensures !Within(gaps[j], first + [0])
    {
      Apart(gaps, j, p - 1);
      Apart(gaps, p - 1, p - 1);
    }
    forall j | hi <= j < |gaps|
      ensures !Within(gaps[j], first + [0])
    {
      Apart(gaps, p, j);
      NextString(first, gaps[p].firstKey);
    }
  }

  lemma AlreadyCoveredIsCovered(gaps: seq<Gap>, first: Str, last: Str, k: Str)
    requires AlreadyCovered(gaps, first, last) && Le(first, k) && Le(k, last)
    ensures Covers(gaps, k)
  {
    hide Lt;
    Ordered();
    assert Within(gaps[UpperBound(gaps, first) - 1], k);
  }

  lemma ChainCovers(
    gaps: seq<Gap>, p: nat, first: Str, last: Str, weight: int, policy: Policy, k: Str)
    requires 0 < p && gaps != [] && p <= |gaps| && gaps[p-1].firstKey == gaps[p-1].lastKey == first
    requires StaysChained(gaps, p, first, last, weight, policy)
    requires Le(first, k) && Le(k, last)
    ensures Covers(gaps, k)
  {
    hide Lt;
    Ordered();
    NextString(first, k);
    assert Within(gaps[p-1], k) || Within(gaps[p], k);
  }

  /** With the start refused, nothing is lost exactly when the next gap stays chained. */
  lemma SetGapDetached(gaps: seq<Gap>, first: Str, last: Str, weight: int, policy: Policy)
    requires Sorted(gaps) && Le(first, last) && !AlreadyCovered(gaps, first, last)
    requires StartOf(gaps, first, weight, policy).detached
    ensures var next := first + [0];
            var p := UpperBound(gaps, first);
            var result := SetGap(gaps, first, last, weight, policy);
            if StaysChained(gaps, p, first, last, weight, policy)
            then forall k :: Covers(gaps, k) || (Le(first, k) && Le(k, last)) ==> Covers(result, k)
            else Le(first, next) && Le(next, last) && !Covers(result, next)
  {
    hide Lt;
    var p := UpperBound(gaps, first);
    var plan := PlanGap(gaps, first, last, weight, policy);
    DetachedStart(gaps, first, last, weight, policy);
    DetachedPlan(gaps, first, last, weight, policy);
    hide StartOf;
    hide PlanFrom;
    hide AlreadyCovered;
    hide StaysChained;
    if StaysChained(gaps, p, first, last, weight, policy) {
      assert gaps[..p] + gaps[p..] == gaps;
      forall k | Le(first, k) && Le(k, last)
        ensures Covers(gaps, k)
      {
        ChainCovers(gaps, p, first, last, weight, policy, k);
      }
    } else {
      CutCovers(gaps, p, plan.hi, first + [0]);
      NoGapBefore(gaps, first, p, plan.hi);
      assert Le(first, first + [0]) && Le(first + [0], last) by {
        Ordered();
        NextString(first, last);
        NextString(first, first + [0]);
      }
    }
  }

  /** Exactly when setGap makes the covered keys the old ones and those of the request. */
  lemma SetGapExact(gaps: seq<Gap>, first: Str, last: Str, weight: int, policy: Policy)
    requires Sorted(gaps) && Le(first, last)
    ensures Lossless(gaps, first, last, weight, policy)
       <==> forall k :: Covers(SetGap(gaps, first, last, weight, policy), k)
                   <==> Covers(gaps, k) || (Le(first, k) && Le(k, last))
  {
    hide Lt;
    hide AlreadyCovered;
    hide PlanFrom;
    hide Covers;
    hide StaysChained;
    var result := SetGap(gaps, first, last, weight, policy);
    forall k | Covers(result, k)
      ensures Covers(gaps, k) || (Le(first, k) && Le(k, last))
    {
      SetGapInventsNothing(gaps, first, last, weight, policy, k);
    }
    if AlreadyCovered(gaps, first, last) {
      forall k | Le(first, k) && Le(k, last)
        ensures Covers(gaps, k)
      {
        AlreadyCoveredIsCovered(gaps, first, last, k);
      }
    } else if !StartOf(gaps, first, weight, policy).detached {
      forall k | Covers(gaps, k) || (Le(first, k) && Le(k, last))
        ensures Covers(result, k)
      {
        SetGapRecords(gaps, first, last, weight, policy, k);
      }
    } else {
      SetGapDetached(gaps, first, last, weight, policy);
    }
  }

  // ---------------------------------------------------------------------------
  // removeOverlappingGaps

  /** An ordered set of strings, as its elements in order. */
  ghost predicate Increasing(keys: seq<Str>) {
    forall i, j :: 0 <= i < j < |keys| ==> Lt(keys[i], keys[j])
  }

  /** Position of the first key that is not less than `k`. */
  function KeyLowerBound(keys: seq<Str>, k: Str): (n: nat)
    ensures n <= |keys|
    ensures forall j :: 0 <= j < n ==> Lt(keys[j], k)
    ensures n < |keys| ==> Le(k, keys[n])
  {
    if keys == [] || Le(k, keys[0]) then 0
    else 1 + KeyLowerBound(keys[1..], k)
  }

  /** Position of the first key that is greater than `k`. */
  function KeyUpperBound(keys: seq<Str>, k: Str): (n: nat)
    ensures n <= |keys|
    ensures forall j :: 0 <= j < n ==> Le(keys[j], k)
    ensures n < |keys| ==> Lt(k, keys[n])
  {
    if keys == [] || Lt(k, keys[0]) then 0
    else 1 + KeyUpperBound(keys[1..], k)
  }

  ghost function Elements(keys: seq<Str>): set<Str> {
    set k | k in keys
  }

  ghost predicate Overlaps(g: Gap, keys: set<Str>) {
    exists k :: k in keys && Within(g, k)
  }

  /** The gaps that contain none of the keys, in order. */
  ghost function Clear(gaps: seq<Gap>, keys: set<Str>): (kept: seq<Gap>)
    ensures |kept| <= |gaps|
    ensures forall g :: g in kept <==> g in gaps && !Overlaps(g, keys)
  {
    if gaps == [] then []
    else (if Overlaps(gaps[0], keys) then [] else [gaps[0]]) + Clear(gaps[1..], keys)
  }

  /**
    What removeOverlappingGaps leaves in the set.  The empty string is falsy: when it is
    among the keys it comes first, and the removal loop is not entered at all.
   */
  ghost function RemoveOverlapping(gaps: seq<Gap>, keys: set<Str>): seq<Gap> {
    if [] in keys then gaps else Clear(gaps, keys)
  }

  lemma ConsSorted(g: Gap, rest: seq<Gap>)
    requires Sorted(rest) && Le(g.firstKey, g.lastKey)
    requires forall r :: r in rest ==> Lt(g.firstKey, r.firstKey) && Le(g.lastKey, r.firstKey)
    ensures Sorted([g] + rest)
  {
    hide Lt;
  }

  lemma {:induction false} ClearSorted(gaps: seq<Gap>, keys: set<Str>)
    requires Sorted(gaps)
    ensures Sorted(Clear(gaps, keys))
  {
    hide Lt;
    hide Sorted;
    if gaps == [] {
      EmptySorted();
    } else {
      Apart(gaps, 0, 0);
      RestElements(gaps);
      ClearSorted(gaps[1..], keys);
      forall r | r in gaps[1..]
        ensures Lt(gaps[0].firstKey, r.firstKey) && Le(gaps[0].lastKey, r.firstKey)
      {
        var i :| 0 <= i < |gaps[1..]| && gaps[1..][i] == r;
        Apart(gaps, 0, i + 1);
      }
      ConsSorted(gaps[0], Clear(gaps[1..], keys));
      assert Clear(gaps, keys) == Clear(gaps[1..], keys) || Clear(gaps, keys) == [gaps[0]] + Clear(gaps[1..], keys);
    }
  }

  lemma EmptySorted()
    ensures Sorted([])
  {
  }

  /** A sorted set is determined by its elements. */
  lemma {:induction false} SortedIsUnique(a: seq<Gap>, b: seq<Gap>)
    requires Sorted(a) && Sorted(b)
    requires forall g :: g in a <==> g in b
    ensures a == b
  {
    hide Lt;
    assert a != [] ==> a[0] in b;
    assert b != [] ==> b[0] in a;
    if a != [] && b != [] {
      assert a[0] == b[0] by {
        var i :| 0 <= i < |b| && b[i] == a[0];
        var j :| 0 <= j < |a| && a[j] == b[0];
        Apart(b, 0, i);
        Apart(a, 0, j);
        StrictTotalOrder(a[0].firstKey, b[0].firstKey, a[0].firstKey);
      }
      RestElements(a);
      RestElements(b);
      SortedIsUnique(a[1..], b[1..]);
      assert a == [a[0]] + a[1..] && b == [b[0]] + b[1..];
    }
  }

  lemma RestElements(a: seq<Gap>)
    requires Sorted(a) && a != []
    ensures Sorted(a[1..])
    ensures forall g :: g in a[1..] <==> g in a && g != a[0]
  {
    hide Lt;
    forall i | 1 <= i < |a|
      ensures a[i] != a[0]
    {
      Apart(a, 0, i);
      StrictTotalOrder(a[0].firstKey, a[i].firstKey, a[0].firstKey);
    }
    forall g | g in a && g != a[0]
      ensures g in a[1..]
    {
      var i :| 0 <= i < |a| && a[i] == g;
      assert a[1..][i-1] == g;
    }
  }

  /** Clearing removes exactly the gaps that contain one of the keys; it loses no key
      covered by another gap. */
  lemma ClearCovers(gaps: seq<Gap>, keys: set<Str>, k: Str)
    ensures Covers(Clear(gaps, keys), k) <==> exists g :: g in gaps && Within(g, k) && !Overlaps(g, keys)
    ensures k in keys ==> !Covers(Clear(gaps, keys), k)
  {
    hide Within;
    var kept := Clear(gaps, keys);
    if g :| g in gaps && Within(g, k) && !Overlaps(g, keys) {
      assert g in kept;
    }
  }

  /** removeOverlappingGaps removes every gap that contains a key if and only if the empty
      string is not among the keys or there is nothing to remove. */
  lemma RemoveOverlappingExact(gaps: seq<Gap>, keys: set<Str>)
    ensures (forall g :: g in RemoveOverlapping(gaps, keys) ==> !Overlaps(g, keys))
       <==> ([] !in keys || forall g :: g in gaps ==> !Overlaps(g, keys))
  {
  }

  // ---------------------------------------------------------------------------
  // lookupGap

  lemma LowerBoundGrows(gaps: seq<Gap>, k: Str, k': Str)
    requires Lt(k, k') && LowerBound(gaps, k) < |gaps| && gaps[LowerBound(gaps, k)].firstKey == k
    ensures LowerBound(gaps, k) < LowerBound(gaps, k')
  {
    hide Lt;
    Ordered();
  }

  /** `g` with the gap chained to it, if there is one; a single-key gap ends the chain. */
  function Chained(gaps: seq<Gap>, g: Gap): (h: Option<Gap>)
    requires Sorted(gaps)
    ensures h.Some? ==> LowerBound(gaps, g.lastKey) < LowerBound(gaps, h.value.lastKey)
  {
    var i := LowerBound(gaps, g.lastKey);
    if i == |gaps| || gaps[i].firstKey != g.lastKey || gaps[i].firstKey == gaps[i].lastKey then None
    else
      assert Le(gaps[i].firstKey, gaps[i].lastKey);
      StrictTotalOrder(gaps[i].firstKey, gaps[i].lastKey, []);
      assert Lt(g.lastKey, gaps[i].lastKey);
      LowerBoundGrows(gaps, g.lastKey, gaps[i].lastKey);
      Some(Gap(g.firstKey, gaps[i].lastKey, g.weight + gaps[i].weight))
  }

  /** `g` coalesced with the gaps chained to it. */
  function Coalesce(gaps: seq<Gap>, g: Gap): (r: Gap)
    requires Sorted(gaps)
    decreases |gaps| - LowerBound(gaps, g.lastKey)
  {
    var h := Chained(gaps, g);
    if h.None? then g else Coalesce(gaps, h.value)
  }

  /** The same, but for `n` iterations at most; whether they have reached the end of the chain. */
  function CoalesceSome(gaps: seq<Gap>, g: Gap, n: nat): (r: (Gap, bool))
    requires Sorted(gaps)
    decreases n
  {
    if n == 0 then (g, false)
    else
      var h := Chained(gaps, g);
      if h.None? then (g, true) else CoalesceSome(gaps, h.value, n - 1)
  }

  /** How many gaps are coalesced before the event loop gets a turn. */
  const CHAIN_ITERATIONS := 100

  /** `g` coalesced with the gaps chained to it, while others change the set: `others` are
      the contents they leave at one turn of the event loop after another. */
  function CoalesceChain(gaps: seq<Gap>, others: seq<seq<Gap>>, g: Gap): (r: Gap)
    requires Sorted(gaps) && forall s :: s in others ==> Sorted(s)
    decreases |others|
  {
    if others == [] then Coalesce(gaps, g)
    else
      var (h, complete) := CoalesceSome(gaps, g, CHAIN_ITERATIONS);
      if complete then h else CoalesceChain(others[0], others[1..], h)
  }

  /** Position of the gap a lookup starts from, if any. */
  function FirstGap(gaps: seq<Gap>, minKey: Str, maxKey: Option<Str>): (i: Option<nat>)
    ensures i.Some? ==> i.value < |gaps|
  {
    var p := UpperBound(gaps, minKey);
    if p > 0 && Le(minKey, gaps[p-1].lastKey) then Some(p - 1)
    else if p < |gaps| && (maxKey.Some? ==> Le(gaps[p].firstKey, maxKey.value)) then Some(p)
    else None
  }

  function Lookup(gaps: seq<Gap>, others: seq<seq<Gap>>, minKey: Str, maxKey: Option<Str>): Option<Gap>
    requires Sorted(gaps) && forall s :: s in others ==> Sorted(s)
  {
    match FirstGap(gaps, minKey, maxKey)
    case None => None
    case Some(i) => Some(CoalesceChain(gaps, others, gaps[i]))
  }

  /** No chain goes on from this key. */
  ghost predicate EndsChain(gaps: seq<Gap>, k: Str) {
    forall j :: 0 <= j < |gaps| && gaps[j].firstKey == k ==> gaps[j].lastKey == k
  }

  lemma ChainedIsCovered(gaps: seq<Gap>, g: Gap, k: Str)
    requires Sorted(gaps)
    ensures match Chained(gaps, g)
            case Some(h) =>
              h.firstKey == g.firstKey && Lt(g.lastKey, h.lastKey) && (Within(h, k) ==> Within(g, k) || Covers(gaps, k))
            case None => EndsChain(gaps, g.lastKey)
  {
    hide Lt;
    Ordered();
    var i := LowerBound(gaps, g.lastKey);
    match Chained(gaps, g)
    case None =>
      forall j | 0 <= j < |gaps| && gaps[j].firstKey == g.lastKey
        ensures j == i
      {
        Apart(gaps, if i < j then i else j, if i < j then j else i);
      }
    case Some(_) =>
      Apart(gaps, i, i);
      assert Within(gaps[i], k) ==> Covers(gaps, k);
  }

  /** Coalescing stays within the covered keys and stops only at the end of the chain. */
  lemma {:induction false} CoalesceIsChain(gaps: seq<Gap>, g: Gap, k: Str)
    requires Sorted(gaps)
    ensures var r := Coalesce(gaps, g);
            && r.firstKey == g.firstKey && Le(g.lastKey, r.lastKey)
            && (Within(r, k) ==> Within(g, k) || Covers(gaps, k))
            && EndsChain(gaps, r.lastKey)
    decreases |gaps| - LowerBound(gaps, g.lastKey)
  {
    hide Lt;
    hide Chained;
    Ordered();
    ChainedIsCovered(gaps, g, k);
    match Chained(gaps, g)
    case None =>
    case Some(h) => CoalesceIsChain(gaps, h, k);
  }

  /** What some iterations leave of the coalescing is still to be done. */
  lemma {:induction false} SomeOfChain(gaps: seq<Gap>, g: Gap, n: nat, k: Str)
    requires Sorted(gaps)
    ensures var (r, complete) := CoalesceSome(gaps, g, n);
            && r.firstKey == g.firstKey && Le(g.lastKey, r.lastKey)
            && (Within(r, k) ==> Within(g, k) || Covers(gaps, k))
            && (complete ==> EndsChain(gaps, r.lastKey) && r == Coalesce(gaps, g))
            && (!complete ==> Coalesce(gaps, r) == Coalesce(gaps, g))
            && (!complete && n > 0 ==> LowerBound(gaps, g.lastKey) < LowerBound(gaps, r.lastKey))
    decreases n
  {
    hide Lt;
    hide Chained;
    hide LowerBound;
    Ordered();
    if n > 0 {
      ChainedIsCovered(gaps, g, k);
      match Chained(gaps, g)
      case None =>
      case Some(h) =>
        SomeOfChain(gaps, h, n - 1, k);
        StrictTotalOrder(g.lastKey, h.lastKey, CoalesceSome(gaps, h, n - 1).0.lastKey);
    }
  }

  /** The key is covered in one of the contents of the set. */
  ghost predicate CoveredOnce(gaps: seq<Gap>, others: seq<seq<Gap>>, k: Str) {
    Covers(gaps, k) || exists s :: s in others && Covers(s, k)
  }

  /** A chain coalesced while the set changes has only keys that were covered at some turn,
      and its end was an end at some turn. */
  lemma {:induction false} ChainWasCovered(gaps: seq<Gap>, others: seq<seq<Gap>>, g: Gap, k: Str)
    requires Sorted(gaps) && forall s :: s in others ==> Sorted(s)
    ensures var r := CoalesceChain(gaps, others, g);
            && r.firstKey == g.firstKey && Le(g.lastKey, r.lastKey)
            && (Within(r, k) ==> Within(g, k) || CoveredOnce(gaps, others, k))
            && (EndsChain(gaps, r.lastKey) || exists s :: s in others && EndsChain(s, r.lastKey))
    decreases |others|
  {
    hide Lt;
    hide Covers;
    hide EndsChain;
    hide Coalesce;
    hide CoalesceSome;
    Ordered();
    if others == [] {
      CoalesceIsChain(gaps, g, k);
    } else {
      SomeOfChain(gaps, g, CHAIN_ITERATIONS, k);
      var (h, complete) := CoalesceSome(gaps, g, CHAIN_ITERATIONS);
      if !complete {
        ChainWasCovered(others[0], others[1..], h, k);
      }
    }
  }

  /** With nothing changed in between, the turns make no difference. */
  lemma {:induction false} UndisturbedChain(gaps: seq<Gap>, others: seq<seq<Gap>>, g: Gap)
    requires Sorted(gaps) && forall s :: s in others ==> s == gaps
    ensures CoalesceChain(gaps, others, g) == Coalesce(gaps, g)
    decreases |others|
  {
    hide Sorted;
    hide Coalesce;
    hide CoalesceSome;
    if others != [] {
      var rest := others[1..];
      assert others[0] in others && forall s :: s in rest ==> s in others;
      SomeOfChain(gaps, g, CHAIN_ITERATIONS, []);
      UndisturbedChain(gaps, rest, CoalesceSome(gaps, g, CHAIN_ITERATIONS).0);
    }
  }

  /** Some key of [minKey, maxKey] is covered. */
  ghost predicate Meets(gaps: seq<Gap>, minKey: Str, maxKey: Option<Str>) {
    exists k :: Covers(gaps, k) && Le(minKey, k) && (maxKey.Some? ==> Le(k, maxKey.value))
  }

  /** The first key a lookup from `minKey` can find in the gap it starts from. */
  ghost function Entry(gaps: seq<Gap>, minKey: Str, i: nat): Str
    requires i < |gaps|
  {
    if Le(gaps[i].firstKey, minKey) then minKey else gaps[i].firstKey
  }

  /** The gap a lookup starts from holds the least covered key from `minKey` on. */
  lemma FirstGapIsClosest(gaps: seq<Gap>, minKey: Str, maxKey: Option<Str>, k: Str)
    requires Sorted(gaps) && (maxKey.Some? ==> Le(minKey, maxKey.value))
    ensures match FirstGap(gaps, minKey, maxKey)
            case Some(i) =>
              && Within(gaps[i], Entry(gaps, minKey, i))
              && Le(minKey, Entry(gaps, minKey, i))
              && (maxKey.Some? ==> Le(Entry(gaps, minKey, i), maxKey.value))
              && (Covers(gaps, k) && Le(minKey, k) ==> Le(Entry(gaps, minKey, i), k))
            case None =>
              Covers(gaps, k) && Le(minKey, k) ==> maxKey.Some? && Lt(maxKey.value, k)
  {
    hide Lt;
    hide Sorted;
    Ordered();
    var p := UpperBound(gaps, minKey);
    if p > 0 {
      Apart(gaps, p - 1, p - 1);
    }
    if p < |gaps| {
      Apart(gaps, p, p);
    }
    if Covers(gaps, k) {
      var j :| 0 <= j < |gaps| && Within(gaps[j], k);
      Apart(gaps, j, if p > j then p - 1 else j);
      Apart(gaps, if p <= j then p else j, j);
    }
  }

  /**
    A lookup finds nothing exactly when no key of [minKey, maxKey] is covered.  Otherwise it
    starts with the gap of the least such key, covers only keys covered at some turn, and
    ends where a chain ended at some turn; with nothing changed in between there is one turn.
   */
  lemma LookupFindsClosest(gaps: seq<Gap>, others: seq<seq<Gap>>, minKey: Str, maxKey: Option<Str>)
    requires Sorted(gaps) && (forall s :: s in others ==> Sorted(s)) && (maxKey.Some? ==> Le(minKey, maxKey.value))
    ensures Lookup(gaps, others, minKey, maxKey).None? <==> !Meets(gaps, minKey, maxKey)
    ensures Lookup(gaps, others, minKey, maxKey).Some? ==>
              var r := Lookup(gaps, others, minKey, maxKey).value;
              && (exists least :: Within(r, least) && Covers(gaps, least) && Le(minKey, least)
                    && forall k :: Covers(gaps, k) && Le(minKey, k) ==> Le(least, k))
              && (forall k :: Within(r, k) ==> CoveredOnce(gaps, others, k))
              && (EndsChain(gaps, r.lastKey) || exists s :: s in others && EndsChain(s, r.lastKey))
  {
    hide Lt;
    hide FirstGap;
    hide Sorted;
    hide CoalesceChain;
    hide EndsChain;
    hide CoveredOnce;
    match FirstGap(gaps, minKey, maxKey)
    case None =>
      forall k | Covers(gaps, k) && Le(minKey, k)
        ensures maxKey.Some? && Lt(maxKey.value, k)
      {
        FirstGapIsClosest(gaps, minKey, maxKey, k);
      }
    case Some(i) =>
      var least := Entry(gaps, minKey, i);
      FirstGapIsClosest(gaps, minKey, maxKey, least);
      assert Covers(gaps, least);
      forall k | Covers(gaps, k) && Le(minKey, k)
        ensures Le(least, k)
      {
        FirstGapIsClosest(gaps, minKey, maxKey, k);
      }
      var r := Lookup(gaps, others, minKey, maxKey).value;
      forall k | Within(r, k)
        ensures CoveredOnce(gaps, others, k)
      {
        ChainWasCovered(gaps, others, gaps[i], k);
        CoveredNow(gaps, others, gaps[i], k);
      }
      ChainWasCovered(gaps, others, gaps[i], least);
      Ordered();
  }

  lemma CoveredNow(gaps: seq<Gap>, others: seq<seq<Gap>>, g: Gap, k: Str)
    requires g in gaps
    ensures Within(g, k) ==> CoveredOnce(gaps, others, k)
  {
  }
}
