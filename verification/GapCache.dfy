/**
  The gap cache object: two update sets and the set of exposed gaps, replaced and mutated
  in place, each operation proved to have the effect it has in `GapExposure`.
 */
module GapCaches {
  import opened Strings
  import opened Keys
  import opened Gaps
  import opened GapSets
  import opened GapExposure

  /** New gaps, and the keys updated since the set was created. */
  class GapCacheUpdateSet {
    var newGaps: GapSet
    var updatedKeys: seq<Str>

    constructor (maxGapWeight: int, insertReplaces: bool)
      ensures fresh(newGaps) && newGaps.gaps == [] && updatedKeys == []
      ensures newGaps.maxWeight == maxGapWeight && newGaps.insertReplaces == insertReplaces
    {
      newGaps := new GapSet(maxGapWeight, insertReplaces);
      updatedKeys := [];
    }

    /** Adds the elements of an ordered set of keys. */
    method AddUpdateBatch(keys: seq<Str>)
      requires Increasing(updatedKeys)
      modifies this`updatedKeys
      ensures Increasing(updatedKeys)
      ensures Elements(updatedKeys) == old(Elements(updatedKeys)) + Elements(keys)
    {
      for i := 0 to |keys|
        invariant Increasing(updatedKeys)
        invariant Elements(updatedKeys) == old(Elements(updatedKeys)) + Elements(keys[..i])
      {
        var k := keys[i];
        var p := KeyLowerBound(updatedKeys, k);
        InsertKey(updatedKeys, k);
        assert Elements(keys[..i+1]) == Elements(keys[..i]) + {k};
        if p == |updatedKeys| || updatedKeys[p] != k {
          updatedKeys := updatedKeys[..p] + [k] + updatedKeys[p..];
        }
      }
      assert keys[..|keys|] == keys;
    }

    lemma InsertKey(keys: seq<Str>, k: Str)
      requires Increasing(keys)
      ensures var p := KeyLowerBound(keys, k);
              if p < |keys| && keys[p] == k then Elements(keys) == Elements(keys) + {k}
              else var r := keys[..p] + [k] + keys[p..];
                   Increasing(r) && Elements(r) == Elements(keys) + {k}
    {
      hide Lt;
      var p := KeyLowerBound(keys, k);
      if p == |keys| || keys[p] != k {
        var r := keys[..p] + [k] + keys[p..];
        Ordered();
        assert Increasing(r);
        assert forall x :: x in r <==> x in keys || x == k;
      }
    }
  }

  class GapCache {
    var maxGaps: int
    var stagingUpdates: GapCacheUpdateSet
    var frozenUpdates: GapCacheUpdateSet
    var exposedGaps: GapSet

    ghost function Repr(): set<object>
      reads this, stagingUpdates, frozenUpdates
    {
      {this, stagingUpdates, frozenUpdates,
       stagingUpdates.newGaps, frozenUpdates.newGaps, exposedGaps}
    }

    ghost predicate Valid()
      reads this, stagingUpdates, frozenUpdates, Repr()
    {
      && stagingUpdates != frozenUpdates
      && stagingUpdates.newGaps != frozenUpdates.newGaps
      && stagingUpdates.newGaps != exposedGaps && frozenUpdates.newGaps != exposedGaps
      && stagingUpdates.newGaps.Valid() && frozenUpdates.newGaps.Valid() && exposedGaps.Valid()
      && stagingUpdates.newGaps.GetPolicy() == exposedGaps.GetPolicy()
      && frozenUpdates.newGaps.GetPolicy() == exposedGaps.GetPolicy()
      && Increasing(stagingUpdates.updatedKeys) && Increasing(frozenUpdates.updatedKeys)
    }

    ghost function State(): CacheState
      reads this, stagingUpdates, frozenUpdates, Repr()
    {
      CacheState(
        stagingUpdates.newGaps.gaps, Elements(stagingUpdates.updatedKeys),
        frozenUpdates.newGaps.gaps, Elements(frozenUpdates.updatedKeys),
        exposedGaps.gaps, maxGaps, exposedGaps.GetPolicy())
    }

    constructor (maxGaps: int, maxGapWeight: int, insertReplaces: bool)
      ensures Valid() && fresh(Repr())
      ensures State() == Initial(maxGaps, Policy(maxGapWeight, insertReplaces))
    {
      this.maxGaps := maxGaps;
      stagingUpdates := new GapCacheUpdateSet(maxGapWeight, insertReplaces);
      frozenUpdates := new GapCacheUpdateSet(maxGapWeight, insertReplaces);
      exposedGaps := new GapSet(maxGapWeight, insertReplaces);
    }

    /** Records a gap, to be exposed later. */
    method SetGap(firstKey: Str, lastKey: Str, weight: int)
      requires Valid() && Le(firstKey, lastKey)
      modifies stagingUpdates.newGaps
      ensures Valid() && Repr() == old(Repr())
      ensures State() == RecordGap(old(State()), firstKey, lastKey, weight)
    {
      hide Sorted;
      hide Lt;
      var _ := stagingUpdates.newGaps.SetGap(firstKey, lastKey, weight);
    }

    /** Invalidates gaps; returns how many were removed from the exposed gaps. */
    method RemoveOverlappingGaps(overlappingKeys: seq<Str>) returns (nRemoved: nat)
      requires Valid() && Increasing(overlappingKeys)
      modifies stagingUpdates, exposedGaps
      ensures Valid() && Repr() == old(Repr())
      ensures State() == ReportUpdates(old(State()), Elements(overlappingKeys))
      ensures nRemoved == |old(State()).exposedGaps| - |State().exposedGaps|
    {
      hide Sorted;
      hide Increasing;
      hide RemoveOverlapping;
      stagingUpdates.AddUpdateBatch(overlappingKeys);
      nRemoved := exposedGaps.RemoveOverlappingGaps(overlappingKeys);
    }

    /** Looks in the exposed gaps, which others may change at every turn of the event loop. */
    method LookupGap(minKey: Str, maxKey: Option<Str>, others: seq<seq<Gap>>) returns (gap: Option<Gap>)
      requires Valid() && forall s :: s in others ==> Sorted(s)
      modifies exposedGaps`gaps
      ensures Valid() && Repr() == old(Repr())
      ensures gap == Lookup(old(State()).exposedGaps, others, minKey, maxKey)
      ensures State() == old(State()).(exposedGaps := exposedGaps.gaps)
      ensures exposedGaps.gaps == old(exposedGaps.gaps) || exposedGaps.gaps in others
    {
      hide Sorted;
      gap := exposedGaps.LookupGap(minKey, maxKey, others);
    }

    /** Removes the new gaps of both update sets that contain a key of `updatedKeys`. */
    method RemoveOverlappingNewGaps(updatedKeys: seq<Str>)
      requires Valid() && Increasing(updatedKeys)
      modifies stagingUpdates.newGaps, frozenUpdates.newGaps
      ensures Valid() && Repr() == old(Repr())
      ensures var s := old(State());
              var keys := Elements(updatedKeys);
              State() == s.(stagingGaps := RemoveOverlapping(s.stagingGaps, keys),
                            frozenGaps := RemoveOverlapping(s.frozenGaps, keys))
    {
      hide Sorted;
      hide Increasing;
      if updatedKeys == [] {
        NoKeysRemoveNothing(stagingUpdates.newGaps.gaps);
        NoKeysRemoveNothing(frozenUpdates.newGaps.gaps);
        assert Elements(updatedKeys) == {};
        return;
      }
      if stagingUpdates.newGaps.gaps != [] {
        var _ := stagingUpdates.newGaps.RemoveOverlappingGaps(updatedKeys);
      }
      if frozenUpdates.newGaps.gaps != [] {
        var _ := frozenUpdates.newGaps.RemoveOverlappingGaps(updatedKeys);
      }
    }

    method RemoveOverlappingGapsBeforeExpose()
      requires Valid()
      modifies stagingUpdates.newGaps, frozenUpdates.newGaps
      ensures Valid() && Repr() == old(Repr())
      ensures var s := old(State());
              State() == s.(stagingGaps := Surviving(s, s.stagingGaps),
                            frozenGaps := Surviving(s, s.frozenGaps))
    {
      hide Sorted;
      hide Increasing;
      hide RemoveOverlapping;
      RemoveOverlappingNewGaps(stagingUpdates.updatedKeys);
      RemoveOverlappingNewGaps(frozenUpdates.updatedKeys);
    }

    /** Runs on every tick of the timer: expose the frozen gaps and rotate. */
    method ExposeFrozen()
      requires Valid()
      modifies Repr()
      ensures Valid() && fresh(Repr() - old(Repr()))
      ensures State() == Rotate(old(State()))
    {
      hide Sorted;
      hide Lt;
      hide Increasing;
      hide Gaps.SetGap;
      hide Surviving;
      RemoveOverlappingGapsBeforeExpose();
      var gaps := frozenUpdates.newGaps.gaps;
      SortedIsNonEmpty(gaps);
      for i := 0 to |gaps|
        invariant Valid() && Repr() == old(Repr())
        invariant frozenUpdates.newGaps.gaps == gaps
        invariant State() == old(State()).(
                    stagingGaps := Surviving(old(State()), old(State()).stagingGaps),
                    frozenGaps := gaps,
                    exposedGaps := Expose(old(State()).exposedGaps, gaps[..i], maxGaps, exposedGaps.GetPolicy()))
      {
        assert gaps[..i+1][..i] == gaps[..i];
        if |exposedGaps.gaps| < maxGaps {
          var gap := gaps[i];
          var _ := exposedGaps.SetGap(gap.firstKey, gap.lastKey, gap.weight);
        }
      }
      assert gaps[..|gaps|] == gaps;
      frozenUpdates := stagingUpdates;
      stagingUpdates := new GapCacheUpdateSet(exposedGaps.maxWeight, exposedGaps.insertReplaces);
      NoKeys();
    }

    lemma NoKeys()
      ensures Elements([]) == {} && Sorted([]) && Increasing([])
    {
    }

    method SetMaxGapWeight(gapWeight: int)
      requires Valid()
      modifies stagingUpdates.newGaps, frozenUpdates.newGaps, exposedGaps
      ensures Valid() && Repr() == old(Repr())
      ensures State() == SetMaxWeight(old(State()), gapWeight)
      ensures stagingUpdates.newGaps.maxWeight == frozenUpdates.newGaps.maxWeight == exposedGaps.maxWeight == gapWeight
      ensures stagingUpdates.newGaps.gaps == old(stagingUpdates.newGaps.gaps)
      ensures frozenUpdates.newGaps.gaps == old(frozenUpdates.newGaps.gaps)
      ensures exposedGaps.gaps == old(exposedGaps.gaps)
    {
      hide Sorted;
      exposedGaps.maxWeight := gapWeight;
      stagingUpdates.newGaps.maxWeight := gapWeight;
      frozenUpdates.newGaps.maxWeight := gapWeight;
    }

    /** Drops all gaps, but keeps the reported updates. */
    method Clear()
      requires Valid()
      modifies this`exposedGaps, stagingUpdates`newGaps, frozenUpdates`newGaps
      ensures Valid() && fresh(Repr() - old(Repr()))
      ensures State() == ClearGaps(old(State()))
      ensures stagingUpdates.newGaps.gaps == frozenUpdates.newGaps.gaps == exposedGaps.gaps == []
      ensures stagingUpdates.updatedKeys == old(stagingUpdates.updatedKeys)
      ensures frozenUpdates.updatedKeys == old(frozenUpdates.updatedKeys)
    {
      NoKeys();
      var maxGapWeight, insertReplaces := exposedGaps.maxWeight, exposedGaps.insertReplaces;
      stagingUpdates.newGaps := new GapSet(maxGapWeight, insertReplaces);
      frozenUpdates.newGaps := new GapSet(maxGapWeight, insertReplaces);
      exposedGaps := new GapSet(maxGapWeight, insertReplaces);
    }
  }
}
