/**
  The gap cache and the listings together.  Listings record gaps that hold no object of the
  bucket they have read; every object that comes to life is reported to the cache; and so
  what a later listing is told about holds no object either, and changes nothing for it.
 */
module GapTransparency {
  import opened Strings
  import opened Keys
  import opened MasterListing
  import opened DelimiterMasters
  import opened CurrentListings
  import Gaps
  import Exposure = GapExposure

  /** What a bucket holds, at any time. */
  type History = int -> seq<Entry>

  ghost predicate IsLive(b: seq<Entry>, k: Str) {
    exists o :: o in Live(b) && o.key == k
  }

  /** What listings ensure: a gap holds no object of the snapshot it was built from. */
  ghost predicate RecordsAreSound(run: seq<Exposure.Timed>, bucket: History) {
    forall i :: 0 <= i < |run| && run[i].event.Record? ==>
      var e := run[i].event;
      HoldsNoObject(bucket(e.snapshot), Gaps.Gap(e.firstKey, e.lastKey, e.weight))
  }

  /** What writers ensure: an object that a gap was built without, and that is there now, has
      been reported since the snapshot of the gap. */
  ghost predicate UpdatesAreReported(run: seq<Exposure.Timed>, bucket: History, now: int) {
    forall i, k :: 0 <= i < |run| && Exposure.RecordsKey(run[i].event, k)
                   && !IsLive(bucket(run[i].event.snapshot), k) && IsLive(bucket(now), k) ==>
      exists j :: 0 <= j < |run| && Exposure.IsUpdateOf(run[j].event, k) && run[i].event.snapshot <= run[j].time
  }

  /** No key that is exposed is that of an object. */
  lemma ExposedKeysAreNoObjects(run: seq<Exposure.Timed>, delay: int, maxGaps: int, policy: Gaps.Policy,
                                bucket: History, now: int, k: Str)
    requires Exposure.Legal(run, delay)
    requires RecordsAreSound(run, bucket) && UpdatesAreReported(run, bucket, now)
    requires Gaps.Covers(Exposure.After(run, maxGaps, policy).exposedGaps, k)
    ensures !IsLive(bucket(now), k)
  {
    hide Lt;
    hide Live;
    hide Exposure.After;
    hide Exposure.Legal;
    hide Gaps.Covers;
    Exposure.ExposedKeysAreFresh(run, delay, maxGaps, policy, k);
    var i :| 0 <= i < |run| && Exposure.RecordsKey(run[i].event, k)
             && forall j :: 0 <= j < |run| && Exposure.IsUpdateOf(run[j].event, k) ==>
                  run[j].time < run[i].event.snapshot;
    var e := run[i].event;
    assert Gaps.Within(Gaps.Gap(e.firstKey, e.lastKey, e.weight), k);
    assert !IsLive(bucket(e.snapshot), k);
  }

  /** The limits of a gap cache. */
  datatype Limits = Limits(delay: int, maxGaps: int, policy: Gaps.Policy)

  /** A gap cache that has gone through a run, at some time. */
  datatype Moment = Moment(run: seq<Exposure.Timed>, now: int)

  /** The cache is one for this bucket. */
  ghost predicate IsMoment(m: Moment, limits: Limits, bucket: History) {
    Exposure.Legal(m.run, limits.delay) && RecordsAreSound(m.run, bucket) && UpdatesAreReported(m.run, bucket, m.now)
  }

  ghost function Exposed(m: Moment, limits: Limits): (gaps: seq<Gaps.Gap>)
    requires Exposure.RecordsRanges(m.run)
    ensures Gaps.Sorted(gaps)
  {
    Exposure.StatesAreValid(m.run, limits.maxGaps, limits.policy);
    Exposure.After(m.run, limits.maxGaps, limits.policy).exposedGaps
  }

  ghost function ExposedLater(moments: seq<Moment>, limits: Limits): (contents: seq<seq<Gaps.Gap>>)
    requires forall m :: m in moments ==> Exposure.RecordsRanges(m.run)
    ensures |contents| == |moments|
    ensures forall n :: 0 <= n < |moments| ==> contents[n] == Exposed(moments[n], limits)
    ensures forall s :: s in contents ==> Gaps.Sorted(s)
  {
    seq(|moments|, n requires 0 <= n < |moments| && moments[n] in moments => Exposed(moments[n], limits))
  }

  /** A lookup that begins at some moment and goes on at others. */
  datatype Lookup = Lookup(begin: Moment, others: seq<Moment>, minKey: Str, maxKey: Option<Str>)

  ghost predicate IsLookup(l: Lookup, limits: Limits, bucket: History) {
    && IsMoment(l.begin, limits, bucket) && (forall m :: m in l.others ==> IsMoment(m, limits, bucket))
    && (l.maxKey.Some? ==> Le(l.minKey, l.maxKey.value))
  }

  ghost function Found(l: Lookup, limits: Limits, bucket: History): Option<Gap>
    requires IsLookup(l, limits, bucket)
  {
    Gaps.Lookup(Exposed(l.begin, limits), ExposedLater(l.others, limits), l.minKey, l.maxKey)
  }

  /** What a lookup finds held no object at some moment of it. */
  lemma LookupsAreSound(l: Lookup, limits: Limits, bucket: History, k: Str)
    requires IsLookup(l, limits, bucket)
    requires Found(l, limits, bucket).Some? && Gaps.Within(Found(l, limits, bucket).value, k)
    ensures exists m :: (m == l.begin || m in l.others) && !IsLive(bucket(m.now), k)
  {
    hide Lt;
    hide IsLive;
    hide Exposure.After;
    hide Gaps.Covers;
    hide Gaps.Within;
    hide Gaps.Lookup;
    hide Gaps.Sorted;
    hide RecordsAreSound;
    hide UpdatesAreReported;
    var exposed, later := Exposed(l.begin, limits), ExposedLater(l.others, limits);
    Gaps.LookupFindsClosest(exposed, later, l.minKey, l.maxKey);
    var m := l.begin;
    if !Gaps.Covers(exposed, k) {
      var s :| s in later && Gaps.Covers(s, k);
      var n :| 0 <= n < |later| && later[n] == s;
      m := l.others[n];
      assert m in l.others;
    }
    ExposedKeysAreNoObjects(m.run, limits.delay, limits.maxGaps, limits.policy, bucket, m.now, k);
  }

  /** The objects that a listing is to find live as long as the lookup goes on. */
  ghost predicate Outlives(listed: seq<Entry>, l: Lookup, bucket: History) {
    forall m, o :: (m == l.begin || m in l.others) && o in Live(listed) ==> IsLive(bucket(m.now), o.key)
  }

  lemma FoundHoldsNoObject(l: Lookup, limits: Limits, bucket: History, listed: seq<Entry>)
    requires IsLookup(l, limits, bucket) && Outlives(listed, l, bucket) && Found(l, limits, bucket).Some?
    ensures HoldsNoObject(listed, Found(l, limits, bucket).value)
  {
    hide Live;
    hide Found;
    hide IsLookup;
    hide IsLive;
    hide Gaps.Within;
    var gap := Found(l, limits, bucket).value;
    forall o | o in Live(listed)
      ensures !Gaps.Within(gap, o.key)
    {
      if Gaps.Within(gap, o.key) {
        LookupsAreSound(l, limits, bucket, o.key);
        assert false;
      }
    }
  }

  /**
    Gap lookups at arbitrary moments are sound for a listing: the gaps that the cache
    exposes hold none of the objects that the listing is to find.
   */
  lemma AnswersAreSound(listed: seq<Entry>, schedule: Schedule, lookups: nat -> Lookup,
                        limits: Limits, bucket: History)
    requires forall n: nat :: IsLookup(lookups(n), limits, bucket) && Outlives(listed, lookups(n), bucket)
    requires forall n: nat :: schedule(n).answer.Some? && schedule(n).answer.value.Some? ==>
               Found(lookups(n), limits, bucket) == schedule(n).answer.value
    ensures SoundAnswers(listed, schedule)
  {
    hide Found;
    hide HoldsNoObject;
    forall n: nat | schedule(n).answer.Some? && schedule(n).answer.value.Some?
      ensures HoldsNoObject(listed, schedule(n).answer.value.value)
    {
      FoundHoldsNoObject(lookups(n), limits, bucket, listed);
    }
  }
}
