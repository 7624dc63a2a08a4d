/**
  The gap set object: the functions of module `Gaps`, performed in place on an ordered
  set of gaps, with the searches, insertions and erasures the ordered set offers.
 */
module GapSets {
  import opened Strings
  import opened Keys
  import opened Gaps

  /** Two positions with the properties of an upper bound are the same position. */
  lemma UpperBoundIs(gaps: seq<Gap>, k: Str, n: nat)
    requires n <= |gaps|
    requires forall j :: 0 <= j < n ==> Le(gaps[j].firstKey, k)
    requires n < |gaps| ==> Lt(k, gaps[n].firstKey)
    ensures UpperBound(gaps, k) == n
  {
  }

  lemma AbsorbEndIs(gaps: seq<Gap>, from: nat, last: Str, n: nat)
    requires from <= n <= |gaps|
    requires forall j :: from <= j < n ==> Le(gaps[j].lastKey, last)
    requires n < |gaps| ==> Lt(last, gaps[n].lastKey)
    ensures AbsorbEnd(gaps, from, last) == n
  {
  }

  /** Two positions with the properties of a lower bound are the same position. */
  lemma LowerBoundIs(gaps: seq<Gap>, k: Str, n: nat)
    requires n <= |gaps|
    requires forall j :: 0 <= j < n ==> Lt(gaps[j].firstKey, k)
    requires n < |gaps| ==> Le(k, gaps[n].firstKey)
    ensures LowerBound(gaps, k) == n
  {
  }

  lemma FirstKeysBefore(gaps: seq<Gap>, p: nat, k: Str)
    requires Sorted(gaps) && 0 < p <= |gaps| && Lt(gaps[p-1].firstKey, k)
    ensures forall j :: 0 <= j < p ==> Lt(gaps[j].firstKey, k) && Le(gaps[j].firstKey, k)
  {
    hide Lt;
    hide Sorted;
    Ordered();
    forall j | 0 <= j < p
      ensures Lt(gaps[j].firstKey, k) && Le(gaps[j].firstKey, k)
    {
      Apart(gaps, j, p - 1);
    }
  }

  /** The only gap that can start where another one ends is its right neighbour. */
  lemma ChainedGapIsNext(gaps: seq<Gap>, p: nat)
    requires Sorted(gaps) && 0 < p <= |gaps| && Lt(gaps[p-1].firstKey, gaps[p-1].lastKey)
    ensures var middle := gaps[p-1].lastKey;
            && LowerBound(gaps, middle) == p
            && UpperBound(gaps, middle) == (if p < |gaps| && gaps[p].firstKey == middle then p + 1 else p)
  {
    hide Lt;
    var middle := gaps[p-1].lastKey;
    FirstKeysBefore(gaps, p, middle);
    if p < |gaps| {
      Apart(gaps, p - 1, p);
      StrictTotalOrder(middle, gaps[p].firstKey, middle);
    }
    LowerBoundIs(gaps, middle, p);
    if p < |gaps| && gaps[p].firstKey == middle {
      if p + 1 < |gaps| {
        Apart(gaps, p, p + 1);
      }
      UpperBoundIs(gaps, middle, p + 1);
    } else {
      UpperBoundIs(gaps, middle, p);
    }
  }

  lemma EraseElements(gaps: seq<Gap>, i: nat)
    requires Sorted(gaps) && i < |gaps|
    ensures forall g :: g in gaps[..i] + gaps[i+1..] <==> g in gaps && g != gaps[i]
  {
    hide Lt;
    forall j | 0 <= j < |gaps| && j != i
      ensures gaps[j] != gaps[i]
    {
      Apart(gaps, if i < j then i else j, if i < j then j else i);
      StrictTotalOrder(gaps[i].firstKey, gaps[j].firstKey, gaps[i].firstKey);
    }
    var rest := gaps[..i] + gaps[i+1..];
    forall g | g in gaps && g != gaps[i]
      ensures g in rest
    {
      var j :| 0 <= j < |gaps| && gaps[j] == g;
      assert rest[if j < i then j else j - 1] == g;
    }
  }

  class GapSet {
    var gaps: seq<Gap>
    var maxWeight: int
    const insertReplaces: bool

    ghost predicate Valid()
      reads this
    {
      Sorted(gaps)
    }

    function GetPolicy(): Policy
      reads this
    {
      Policy(maxWeight, insertReplaces)
    }

    constructor (maxWeight: int, insertReplaces: bool)
      ensures Valid() && gaps == []
      ensures this.maxWeight == maxWeight && this.insertReplaces == insertReplaces
    {
      this.gaps := [];
      this.maxWeight := maxWeight;
      this.insertReplaces := insertReplaces;
    }

    /** Insertion into the ordered set; returns the position of the inserted object, or
        -1 when the set keeps an element with the same first key instead of it. */
    method Insert(gap: Gap) returns (slot: int)
      requires Valid()
      modifies this`gaps
      ensures var p := UpperBound(old(gaps), gap.firstKey);
              if p > 0 && old(gaps)[p-1].firstKey == gap.firstKey
              then if insertReplaces
                   then slot == p - 1 && gaps == old(gaps)[p-1 := gap]
                   else slot == -1 && gaps == old(gaps)
              else slot == p && gaps == old(gaps)[..p] + [gap] + old(gaps)[p..]
    {
      var p := UpperBound(gaps, gap.firstKey);
      if p > 0 && gaps[p-1].firstKey == gap.firstKey {
        if insertReplaces {
          slot := p - 1;
          gaps := gaps[slot := gap];
        } else {
          slot := -1;
        }
      } else {
        slot := p;
        gaps := gaps[..p] + [gap] + gaps[p..];
      }
    }

    /** The set with the recorded gap as far as it has been built, `next` being the first
        gap of the original set that is not absorbed yet. */
    ghost function Building(original: seq<Gap>, a: Anchor, gap: Gap, next: nat): seq<Gap>
      requires a.lo <= next <= |original| && (a.detached ==> a.lo < |original|)
    {
      original[..a.lo] + [if a.detached then original[a.lo] else gap] + original[next..]
    }

    /** The gap chained to the one at position `p - 1`: a stored one, or a new empty one. */
    method ChainGap(p: nat) returns (curGap: Gap, slot: int)
      requires Valid() && 0 < p <= |gaps| && Lt(gaps[p-1].firstKey, gaps[p-1].lastKey)
      modifies this`gaps
      ensures var middle := old(gaps)[p-1].lastKey;
              && slot == p
              && if p < |old(gaps)| && old(gaps)[p].firstKey == middle
                 then curGap == old(gaps)[p] && gaps == old(gaps)
                 else curGap == Gap(middle, middle, 0)
                      && gaps == old(gaps)[..p] + [curGap] + old(gaps)[p..]
    {
      hide Lt;
      hide Sorted;
      hide UpperBound;
      hide LowerBound;
      var middle := gaps[p-1].lastKey;
      ChainedGapIsNext(gaps, p);
      slot := LowerBound(gaps, middle);
      if slot < |gaps| && gaps[slot].firstKey == middle {
        curGap := gaps[slot];
      } else {
        curGap := Gap(middle, middle, 0);
        slot := Insert(curGap);
      }
    }

    /** Step 1: re-use, chain or create the gap to record. */
    method StartGap(firstKey: Str, lastKey: Str, weight: int)
      returns (curGap: Gap, slot: int, remainingWeight: int)
      requires Valid() && Le(firstKey, lastKey) && !AlreadyCovered(gaps, firstKey, lastKey)
      modifies this`gaps
      ensures var a := StartOf(old(gaps), firstKey, weight, GetPolicy());
              && curGap == a.gap && remainingWeight == a.weight
              && slot == (if a.detached then -1 else a.lo)
              && gaps == Building(old(gaps), a, curGap, a.next)
    {
      hide Lt;
      hide Sorted;
      hide UpperBound;
      ghost var original := gaps;
      remainingWeight := weight;
      var p := UpperBound(gaps, firstKey);
      if p > 0 {
        curGap := gaps[p-1];
        slot := p - 1;
      }
      if p == 0
        || Lt(curGap.lastKey, firstKey)
        || (curGap.lastKey == firstKey && curGap.weight + weight > maxWeight)
      {
        curGap := Gap(firstKey, firstKey, 0);
        slot := Insert(curGap);
        assert p > 0 ==> original == original[..p-1] + [original[p-1]] + original[p..];
      } else if Lt(firstKey, curGap.lastKey) && weight > maxWeight {
        remainingWeight := remainingWeight - curGap.weight;
        StrictTotalOrder(gaps[p-1].firstKey, firstKey, gaps[p-1].lastKey);
        curGap, slot := ChainGap(p);
        assert p < |original| ==> original == original[..p] + [original[p]] + original[p+1..];
      } else {
        assert original == original[..p-1] + [original[p-1]] + original[p..];
      }
    }

    /** Step 2: erase the gaps that end by `lastKey`, aggregating them in the current gap. */
    method AbsorbGaps(start: Gap, slot: int, lastKey: Str, ghost original: seq<Gap>, ghost a: Anchor)
      returns (curGap: Gap, nextGap: Option<Gap>)
      requires Sorted(original) && a.lo <= a.next <= |original| && (a.detached ==> a.lo < a.next)
      requires Fits(original, a.lo, a.next, a.gap) && start == a.gap
      requires a.detached ==> original[a.lo].firstKey == a.gap.firstKey
      requires slot == (if a.detached then -1 else a.lo)
      requires gaps == Building(original, a, start, a.next)
      modifies this`gaps
      ensures var e := AbsorbEnd(original, a.next, lastKey);
              && curGap == Absorb(a.gap, original[a.next..e])
              && nextGap == (if e < |original| then Some(original[e]) else None)
              && gaps == Building(original, a, curGap, e)
    {
      hide Lt;
      hide Sorted;
      hide UpperBound;
      hide LowerBound;
      hide Absorb;
      curGap := start;
      nextGap := None;
      ghost var e := a.next;
      AbsorbNone(a.gap, original, a.next);
      while true
        invariant a.next <= e <= |original|
        invariant forall j :: a.next <= j < e ==> Le(original[j].lastKey, lastKey)
        invariant curGap == Absorb(a.gap, original[a.next..e])
        invariant gaps == Building(original, a, curGap, e)
        decreases |original| - e
      {
        NextAfterCurrent(original, a, curGap, e);
        var next := UpperBound(gaps, curGap.firstKey);
        if next == |gaps| {
          nextGap := None;
          break;
        }
        EraseNext(original, a, curGap, e);
        nextGap := Some(gaps[next]);
        if Lt(lastKey, gaps[next].lastKey) {
          break;
        }
        AbsorbStep(a.gap, original, a.next, e);
        curGap := AbsorbNext(curGap, slot, next, original, a, e);
        e := e + 1;
      }
      AbsorbEndIs(original, a.next, lastKey, e);
    }

    /** Erasing the right neighbour of the current gap. */
    lemma EraseNext(original: seq<Gap>, a: Anchor, gap: Gap, e: nat)
      requires a.lo <= e < |original| && (a.detached ==> a.lo < |original|)
      ensures var b := Building(original, a, gap, e);
              |b| > a.lo + 1 && b[a.lo+1] == original[e]
              && b[..a.lo+1] + b[a.lo+2..] == Building(original, a, gap, e + 1)
    {
    }

    lemma AbsorbNone(start: Gap, original: seq<Gap>, from: nat)
      requires from <= |original|
      ensures Absorb(start, original[from..from]) == start
    {
    }

    /** Erases the gap at position `next` and aggregates it in the current gap. */
    method AbsorbNext(curGap: Gap, slot: int, next: nat,
                      ghost original: seq<Gap>, ghost a: Anchor, ghost e: nat)
      returns (grown: Gap)
      requires a.lo <= e < |original| && (a.detached ==> a.lo < |original|)
      requires slot == (if a.detached then -1 else a.lo) && next == a.lo + 1
      requires gaps == Building(original, a, curGap, e)
      modifies this`gaps
      ensures grown == Gap(curGap.firstKey, original[e].lastKey, curGap.weight + original[e].weight)
      ensures gaps == Building(original, a, grown, e + 1)
    {
      EraseNext(original, a, curGap, e);
      var absorbed := gaps[next];
      gaps := gaps[..next] + gaps[next+1..];
      grown := Gap(curGap.firstKey, absorbed.lastKey, curGap.weight + absorbed.weight);
      if slot >= 0 {
        gaps := gaps[slot := grown];
      }
    }

    lemma AbsorbStep(start: Gap, original: seq<Gap>, from: nat, e: nat)
      requires from <= e < |original|
      ensures var g := Absorb(start, original[from..e]);
              Absorb(start, original[from..e+1])
              == Gap(g.firstKey, original[e].lastKey, g.weight + original[e].weight)
    {
      assert original[from..e+1][..e-from] == original[from..e];
    }

    lemma NextAfterCurrent(original: seq<Gap>, a: Anchor, gap: Gap, e: nat)
      requires Sorted(original) && a.lo <= a.next <= e <= |original| && (a.detached ==> a.lo < a.next)
      requires Fits(original, a.lo, a.next, a.gap) && gap.firstKey == a.gap.firstKey
      requires a.detached ==> original[a.lo].firstKey == a.gap.firstKey
      ensures UpperBound(Building(original, a, gap, e), gap.firstKey) == a.lo + 1
      ensures e < |original| ==>
                LowerBound(Building(original, a, gap, e), original[e].firstKey) == a.lo + 1
    {
      hide Lt;
      hide Sorted;
      Ordered();
      var s := Building(original, a, gap, e);
      forall j | 0 <= j < a.lo
        ensures Lt(s[j].firstKey, gap.firstKey) && Le(s[j].firstKey, gap.firstKey)
      {
        Apart(original, j, a.lo - 1);
      }
      if e < |original| {
        Apart(original, a.next, e);
        LowerBoundIs(s, original[e].firstKey, a.lo + 1);
      }
      UpperBoundIs(s, gap.firstKey, a.lo + 1);
    }

    /** With the planned gap in place the set is what setGap leaves. */
    lemma BuiltIsSet(original: seq<Gap>, firstKey: Str, lastKey: Str, weight: int)
      requires !AlreadyCovered(original, firstKey, lastKey)
      ensures var a := StartOf(original, firstKey, weight, GetPolicy());
              var plan := PlanFrom(original, firstKey, lastKey, a, GetPolicy());
              Building(original, a, plan.gap, plan.hi) == Gaps.SetGap(original, firstKey, lastKey, weight, GetPolicy())
    {
      hide PlanFrom;
      hide StartOf;
      hide AlreadyCovered;
      var a := StartOf(original, firstKey, weight, GetPolicy());
      assert a.detached ==> original[..a.lo] + [original[a.lo]] == original[..a.lo+1];
    }

    /** Records a gap; returns the existing or new gap that holds its last key. */
    method SetGap(firstKey: Str, lastKey: Str, weight: int) returns (entry: Gap)
      requires Valid() && Le(firstKey, lastKey)
      modifies this`gaps
      ensures gaps == Gaps.SetGap(old(gaps), firstKey, lastKey, weight, GetPolicy())
      ensures Valid()
      ensures entry == SetGapResult(old(gaps), firstKey, lastKey, weight, GetPolicy())
    {
      hide Lt;
      hide Sorted;
      hide UpperBound;
      hide Fits;
      hide Absorb;
      hide AbsorbEnd;
      hide PlanFrom;
      hide StartsFresh;
      hide Building;
      SetGapSorted(gaps, firstKey, lastKey, weight, GetPolicy());
      var p := UpperBound(gaps, firstKey);
      if p > 0 && Le(lastKey, gaps[p-1].lastKey) {
        return gaps[p-1];
      }
      ghost var original := gaps;
      ghost var a := StartOf(gaps, firstKey, weight, GetPolicy());
      BuiltIsSet(gaps, firstKey, lastKey, weight);
      StartIsSound(gaps, firstKey, lastKey, weight, GetPolicy());
      if a.detached {
        DetachedStart(gaps, firstKey, lastKey, weight, GetPolicy());
      }
      var merged, slot, remainingWeight := StartGap(firstKey, lastKey, weight);
      hide StartOf;
      var nextGap;
      merged, nextGap := AbsorbGaps(merged, slot, lastKey, original, a);
      entry := FinishGap(merged, nextGap, slot, firstKey, lastKey, remainingWeight, original, a);
    }

    /** Step 3: extend the current gap to `lastKey`; then step 4. */
    method FinishGap(merged: Gap, nextGap: Option<Gap>, slot: int, firstKey: Str, lastKey: Str,
                     remainingWeight: int, ghost original: seq<Gap>, ghost a: Anchor)
      returns (entry: Gap)
      requires Sorted(original) && a.lo <= a.next <= |original| && (a.detached ==> a.lo < a.next)
      requires Fits(original, a.lo, a.next, a.gap)
      requires a.detached ==> original[a.lo].firstKey == a.gap.firstKey
      requires slot == (if a.detached then -1 else a.lo) && remainingWeight == a.weight
      requires var e := AbsorbEnd(original, a.next, lastKey);
               && merged == Absorb(a.gap, original[a.next..e])
               && nextGap == (if e < |original| then Some(original[e]) else None)
               && gaps == Building(original, a, merged, e)
      modifies this`gaps
      ensures var plan := PlanFrom(original, firstKey, lastKey, a, GetPolicy());
              && entry == plan.returned
              && gaps == Building(original, a, plan.gap, plan.hi)
    {
      hide Lt;
      hide Sorted;
      hide Fits;
      hide Absorb;
      hide MergedWeight;
      hide Building;
      ghost var e := AbsorbEnd(original, a.next, lastKey);
      var curGap := merged;
      if curGap.lastKey == firstKey && firstKey != lastKey {
        curGap := Gap(curGap.firstKey, lastKey, curGap.weight + remainingWeight);
      } else if Le(curGap.lastKey, lastKey) {
        curGap := Gap(curGap.firstKey, lastKey, remainingWeight);
      }
      Store(slot, curGap, original, a, e);
      entry := curGap;
      if nextGap.Some? && Le(nextGap.value.firstKey, lastKey) {
        ghost var planned;
        entry, planned :=
          MergeOrChain(curGap, merged.weight, nextGap.value, slot, lastKey, original, a, e);
      }
    }

    /** Step 4: merge the current gap with the gap that reaches beyond `lastKey`, or chain
        it to that gap. */
    method MergeOrChain(extended: Gap, minWeight: int, next: Gap, slot: int, lastKey: Str,
                        ghost original: seq<Gap>, ghost a: Anchor, ghost e: nat)
      returns (entry: Gap, ghost curGap: Gap)
      requires Sorted(original) && a.lo <= a.next <= e < |original| && (a.detached ==> a.lo < a.next)
      requires Fits(original, a.lo, a.next, a.gap) && extended.firstKey == a.gap.firstKey
      requires a.detached ==> original[a.lo].firstKey == a.gap.firstKey
      requires slot == (if a.detached then -1 else a.lo) && next == original[e]
      requires gaps == Building(original, a, extended, e)
      modifies this`gaps
      ensures var w := MergedWeight(extended, minWeight, next, lastKey);
              var merge := w <= maxWeight;
              && curGap == (if merge then Gap(extended.firstKey, next.lastKey, w)
                            else Gap(extended.firstKey, next.firstKey,
                                     if w > next.weight then w - next.weight else 0))
              && entry == (if merge then curGap else next)
              && gaps == Building(original, a, curGap, if merge then e + 1 else e)
    {
      hide Lt;
      hide Sorted;
      hide LowerBound;
      var minMergedWeight := minWeight + next.weight;
      var mergedWeight;
      if lastKey == next.firstKey {
        mergedWeight := extended.weight + next.weight;
      } else {
        mergedWeight := if extended.weight > minMergedWeight then extended.weight else minMergedWeight;
      }
      if mergedWeight <= maxWeight {
        entry := Gap(extended.firstKey, next.lastKey, mergedWeight);
        curGap := entry;
        Store(slot, entry, original, a, e);
        NextAfterCurrent(original, a, entry, e);
        EraseNext(original, a, entry, e);
        var at := LowerBound(gaps, next.firstKey);
        gaps := gaps[..at] + gaps[at+1..];
      } else {
        var rest := if mergedWeight - next.weight > 0 then mergedWeight - next.weight else 0;
        curGap := Gap(extended.firstKey, next.firstKey, rest);
        Store(slot, Gap(extended.firstKey, next.firstKey, rest), original, a, e);
        entry := next;
      }
    }

    /** A mutation of the current gap object shows in the set, if the object is in it. */
    method Store(slot: int, curGap: Gap, ghost original: seq<Gap>, ghost a: Anchor, ghost e: nat)
      requires a.lo <= e <= |original| && (a.detached ==> a.lo < |original|)
      requires slot == (if a.detached then -1 else a.lo)
      requires exists g :: gaps == Building(original, a, g, e)
      modifies this`gaps
      ensures gaps == Building(original, a, curGap, e)
    {
      if slot >= 0 {
        gaps := gaps[slot := curGap];
      }
    }

    /** Erases the element at position `i`. */
    method EraseAt(i: nat)
      requires Valid() && i < |gaps|
      modifies this`gaps
      ensures Valid() && |gaps| == |old(gaps)| - 1
      ensures forall g :: g in gaps <==> g in old(gaps) && g != old(gaps)[i]
    {
      hide Lt;
      CutSorted(gaps, i, i + 1);
      EraseElements(gaps, i);
      gaps := gaps[..i] + gaps[i+1..];
    }

    /** What the removal loop has achieved once every key before `current` is dealt with. */
    ghost predicate Cleared(original: seq<Gap>, keys: seq<Str>, current: nat)
      requires current <= |keys|
      reads this
    {
      && Sorted(gaps)
      && (forall g :: g in gaps ==> g in original)
      && (forall g :: g in original && g !in gaps ==> Overlaps(g, Elements(keys)))
      && (forall g, j :: g in gaps && 0 <= j < current ==> !Within(g, keys[j]))
    }

    /** Removes the closest gap that starts before the current key, if it contains it. */
    method ClearClosest(keys: seq<Str>, current: nat, ghost original: seq<Gap>) returns (nRemoved: nat)
      requires Increasing(keys) && current < |keys| && Cleared(original, keys, current)
      modifies this`gaps
      ensures Cleared(original, keys, current)
      ensures nRemoved == |old(gaps)| - |gaps|
      ensures forall g :: g in gaps && Lt(g.firstKey, keys[current]) ==> Lt(g.lastKey, keys[current])
    {
      hide Lt;
      hide LowerBound;
      nRemoved := 0;
      var currentKey := keys[current];
      var closest := LowerBound(gaps, currentKey);
      GapsBefore(gaps, currentKey);
      if closest > 0 && Le(currentKey, gaps[closest-1].lastKey) {
        assert Within(gaps[closest-1], currentKey) by {
          Ordered();
        }
        assert currentKey in Elements(keys);
        EraseAt(closest - 1);
        nRemoved := 1;
      }
    }

    lemma GapsBefore(gaps: seq<Gap>, k: Str)
      requires Sorted(gaps)
      ensures var p := LowerBound(gaps, k);
              forall g :: g in gaps && Lt(g.firstKey, k) ==>
                (p > 0 && g == gaps[p-1]) || Lt(g.lastKey, k)
    {
      hide Lt;
      hide Sorted;
      Ordered();
      var p := LowerBound(gaps, k);
      forall g | g in gaps && Lt(g.firstKey, k)
        ensures (p > 0 && g == gaps[p-1]) || Lt(g.lastKey, k)
      {
        var i :| 0 <= i < |gaps| && gaps[i] == g;
        if p <= i {
          Apart(gaps, p, i);
        } else {
          Apart(gaps, i, p - 1);
        }
      }
    }

    lemma KeysUpTo(keys: seq<Str>, i: nat, j: nat)
      requires Increasing(keys) && i <= j < |keys|
      ensures Le(keys[i], keys[j])
    {
      hide Lt;
      Ordered();
    }

    lemma KeyIsBefore(keys: seq<Str>, j: nat, k: Str)
      requires Increasing(keys) && j < |keys| && Le(keys[j], k)
      ensures j < KeyUpperBound(keys, k)
    {
      hide Lt;
      hide Increasing;
      hide KeyUpperBound;
      var n := KeyUpperBound(keys, k);
      if n <= j {
        KeysUpTo(keys, n, j);
        Ordered();
      }
    }

    /** Of the keys before the skip target, only those in the skipped gap are in a gap. */
    lemma SkippedKeys(keys: seq<Str>, current: nat, at: nat, j: nat, g: Gap)
      requires Valid() && Increasing(keys) && current <= j < |keys|
      requires at == LowerBound(gaps, keys[current]) < |gaps|
      requires forall g :: g in gaps && Lt(g.firstKey, keys[current]) ==> Lt(g.lastKey, keys[current])
      requires g in gaps && Lt(keys[j], gaps[at].lastKey) && Within(g, keys[j])
      ensures g == gaps[at]
      ensures var last := KeyUpperBound(keys, gaps[at].lastKey) - 1;
              last >= 0 && Le(g.firstKey, keys[last])
    {
      hide Lt;
      hide Sorted;
      hide Increasing;
      hide LowerBound;
      hide KeyUpperBound;
      KeysUpTo(keys, current, j);
      StartsInSkippedGap(keys, current, at, j, g);
      StrictTotalOrder(keys[j], g.lastKey, keys[j]);
      KeyIsBefore(keys, j, g.lastKey);
      var last := KeyUpperBound(keys, gaps[at].lastKey) - 1;
      KeysUpTo(keys, j, last);
      Transitive(g.firstKey, keys[j], keys[last]);
    }

    lemma StartsInSkippedGap(keys: seq<Str>, current: nat, at: nat, j: nat, g: Gap)
      requires Valid() && current <= j < |keys| && Le(keys[current], keys[j])
      requires at == LowerBound(gaps, keys[current]) < |gaps|
      requires forall g :: g in gaps && Lt(g.firstKey, keys[current]) ==> Lt(g.lastKey, keys[current])
      requires g in gaps && Lt(keys[j], gaps[at].lastKey) && Within(g, keys[j])
      ensures g == gaps[at]
    {
      hide Lt;
      hide Sorted;
      hide LowerBound;
      Ordered();
      var i :| 0 <= i < |gaps| && gaps[i] == g;
      if i > at {
        Apart(gaps, at, i);
      }
    }

    /** A gap that is left in place is skipped over. */
    lemma SkipAdvances(keys: seq<Str>, current: nat, at: nat)
      requires Valid() && Increasing(keys) && current < |keys|
      requires at == LowerBound(gaps, keys[current]) < |gaps|
      ensures var last := KeyUpperBound(keys, gaps[at].lastKey) - 1;
              last >= 0 && (Le(gaps[at].firstKey, keys[last])
                            || KeyLowerBound(keys, gaps[at].lastKey) > current)
    {
      hide Lt;
      hide Sorted;
      hide Increasing;
      hide LowerBound;
      hide KeyLowerBound;
      hide KeyUpperBound;
      Ordered();
      Apart(gaps, at, at);
      var last := KeyUpperBound(keys, gaps[at].lastKey) - 1;
      var next := KeyLowerBound(keys, gaps[at].lastKey);
      KeyIsBefore(keys, current, gaps[at].lastKey);
      KeysUpTo(keys, current, last);
      if next <= current {
        KeysUpTo(keys, next, current);
      }
    }

    /**
      Skips to the last key that may be in the gap at position `at`, removes the gap if
      that key is in it, and skips to the first key that may be in a later gap.
     */
    method ClearNext(keys: seq<Str>, current: nat, at: nat, ghost original: seq<Gap>)
      returns (next: nat, nRemoved: nat)
      requires Increasing(keys) && current < |keys| && Cleared(original, keys, current)
      requires at == LowerBound(gaps, keys[current]) < |gaps|
      requires forall g :: g in gaps && Lt(g.firstKey, keys[current]) ==> Lt(g.lastKey, keys[current])
      modifies this`gaps
      ensures next <= |keys| && Cleared(original, keys, next)
      ensures nRemoved == |old(gaps)| - |gaps|
      ensures nRemoved > 0 || next > current
    {
      hide Lt;
      hide LowerBound;
      hide KeyLowerBound;
      hide KeyUpperBound;
      nRemoved := 0;
      var nextGap := gaps[at];
      var last := KeyUpperBound(keys, nextGap.lastKey) - 1;
      next := KeyLowerBound(keys, nextGap.lastKey);
      SkipAdvances(keys, current, at);
      forall g, j | g in gaps && 0 <= j < next && Within(g, keys[j])
        ensures g == nextGap && last >= 0 && Le(nextGap.firstKey, keys[last])
      {
        assert current <= j;
        SkippedKeys(keys, current, at, j, g);
      }
      if last >= 0 && Le(nextGap.firstKey, keys[last]) {
        assert Within(nextGap, keys[last]) && keys[last] in Elements(keys);
        EraseAt(at);
        nRemoved := 1;
      }
    }

    /** Removes the gaps that contain one of the keys; returns how many were removed. */
    method RemoveOverlappingGaps(keys: seq<Str>) returns (nRemoved: nat)
      requires Valid() && Increasing(keys)
      modifies this`gaps
      ensures gaps == RemoveOverlapping(old(gaps), Elements(keys))
      ensures nRemoved == |old(gaps)| - |gaps|
      ensures Valid()
    {
      hide Lt;
      ghost var original := gaps;
      nRemoved := 0;
      var current: nat := 0;
      while current < |keys| && keys[current] != []
        invariant current <= |keys|
        invariant (current == 0 && gaps == original) || (keys != [] && keys[0] != [])
        invariant Cleared(original, keys, current)
        invariant nRemoved == |original| - |gaps|
        decreases |gaps|, |keys| - current
      {
        var n := ClearClosest(keys, current, original);
        nRemoved := nRemoved + n;
        var at := LowerBound(gaps, keys[current]);
        if at == |gaps| {
          break;
        }
        var next;
        next, n := ClearNext(keys, current, at, original);
        current := next;
        nRemoved := nRemoved + n;
      }
      if current < |keys| && keys[current] == [] {
        KeysUpTo(keys, 0, current);
      }
      FullyCleared(original, keys, current);
    }

    /** Once the loop is left, the gaps are the cleared ones. */
    lemma FullyCleared(original: seq<Gap>, keys: seq<Str>, current: nat)
      requires Increasing(keys) && current <= |keys| && Sorted(original)
      requires Cleared(original, keys, current)
      requires gaps == original || (keys != [] && keys[0] != [])
      requires || current == |keys|
               || keys[current] == []
               || (forall g :: g in gaps ==> Lt(g.lastKey, keys[current]))
      ensures gaps == RemoveOverlapping(original, Elements(keys))
    {
      hide Lt;
      hide Sorted;
      hide Clear;
      if [] in keys {
        var i :| 0 <= i < |keys| && keys[i] == [];
        KeysUpTo(keys, 0, i);
        NothingBeforeEmpty(keys[0]);
      } else {
        forall g, j | g in gaps && 0 <= j < |keys|
          ensures !Within(g, keys[j])
        {
          if current <= j {
            KeysUpTo(keys, current, j);
            Ordered();
          }
        }
        ClearSorted(original, Elements(keys));
        SortedIsUnique(gaps, Clear(original, Elements(keys)));
      }
    }

    /**
      `firstGap` coalesced with the gaps chained to it.  Between the iterations the event loop
      gets a turn, in which others may change the set: `others` are the contents they leave.
     */
    method CoalesceGapChain(firstGap: Gap, others: seq<seq<Gap>>) returns (coalescedGap: Gap)
      requires Valid() && forall s :: s in others ==> Sorted(s)
      modifies this`gaps
      ensures Valid() && (gaps == old(gaps) || gaps in others)
      ensures coalescedGap == CoalesceChain(old(gaps), others, firstGap)
    {
      hide Sorted;
      coalescedGap := firstGap;
      var turn := 0;
      while true
        invariant Valid() && turn <= |others| && (gaps == old(gaps) || gaps in others)
        invariant CoalesceChain(gaps, others[turn..], coalescedGap) == CoalesceChain(old(gaps), others, firstGap)
        decreases |others| - turn, |gaps| - LowerBound(gaps, coalescedGap.lastKey)
      {
        SomeOfChain(gaps, coalescedGap, CHAIN_ITERATIONS, []);
        var complete: bool;
        coalescedGap, complete := CoalesceGapChainIteration(coalescedGap);
        if complete {
          return;
        }
        if turn < |others| {
          gaps := others[turn];
          turn := turn + 1;
        }
      }
    }

    /** What is coalesced in one turn of the event loop. */
    method CoalesceGapChainIteration(firstGap: Gap) returns (coalescedGap: Gap, complete: bool)
      requires Valid()
      ensures (coalescedGap, complete) == CoalesceSome(gaps, firstGap, CHAIN_ITERATIONS)
    {
      hide Lt;
      hide Sorted;
      hide LowerBound;
      coalescedGap := firstGap;
      for opCounter := 0 to CHAIN_ITERATIONS
        invariant CoalesceSome(gaps, firstGap, CHAIN_ITERATIONS)
               == CoalesceSome(gaps, coalescedGap, CHAIN_ITERATIONS - opCounter)
      {
        var chained := LowerBound(gaps, coalescedGap.lastKey);
        if chained == |gaps| || gaps[chained].firstKey != coalescedGap.lastKey {
          return coalescedGap, true;
        }
        var chainedGap := gaps[chained];
        if chainedGap.firstKey == chainedGap.lastKey {
          return coalescedGap, true;
        }
        coalescedGap :=
          Gap(coalescedGap.firstKey, chainedGap.lastKey, coalescedGap.weight + chainedGap.weight);
      }
      return coalescedGap, false;
    }

    /** The next gap that overlaps with [minKey, maxKey], chained gaps coalesced. */
    method LookupGap(minKey: Str, maxKey: Option<Str>, others: seq<seq<Gap>>) returns (gap: Option<Gap>)
      requires Valid() && forall s :: s in others ==> Sorted(s)
      modifies this`gaps
      ensures Valid() && (gaps == old(gaps) || gaps in others)
      ensures gap == Lookup(old(gaps), others, minKey, maxKey)
    {
      hide Lt;
      hide Sorted;
      hide CoalesceChain;
      var firstGap: Option<Gap> := None;
      var p := UpperBound(gaps, minKey);
      if p > 0 && Le(minKey, gaps[p-1].lastKey) {
        firstGap := Some(gaps[p-1]);
      } else if p < |gaps| && (maxKey == None || Le(gaps[p].firstKey, maxKey.value)) {
        firstGap := Some(gaps[p]);
      }
      if firstGap == None {
        return None;
      }
      var coalesced := CoalesceGapChain(firstGap.value, others);
      return Some(coalesced);
    }
  }
}
