/**
  The v1 key format: master keys and version keys are stored in two ranges, under prefixes
  of their own.  The range parameters of the v0 format carry over to each of them, and the
  merge of the two ranges brings the keys back into the order of the v0 format.
 */
module V1Format {
  import opened Strings
  import opened Keys
  import opened ListingPages
  import MergeStreams

  /** "\x7fM" and "\x7fV" */
  const MASTER_PREFIX: Str := [0x7f, 0x4d]
  const VERSION_PREFIX: Str := [0x7f, 0x56]

  /** The range of the keys under a prefix that a v0 range stands for. */
  function RangeUnder(p: Str, r: Range): Range {
    Range(
      if r.gt.Some? then Some(p + r.gt.value) else None,
      if r.gt.Some? then None else if r.gte.Some? then Some(p + r.gte.value) else Some(p),
      if r.lt.Some? then Some(p + r.lt.value) else Some(Inc(p)))
  }

  function ListingParamsMasterKeysV0ToV1(r: Range): Range {
    RangeUnder(MASTER_PREFIX, r)
  }

  /** The ranges of a listing of versions: master keys and version keys. */
  function GenMDParamsV1(r: Range): (Range, Range) {
    (RangeUnder(MASTER_PREFIX, r), RangeUnder(VERSION_PREFIX, r))
  }

  lemma SplitPrefix(k: Str, p: Str)
    requires StartsWith(k, p)
    ensures k == p + k[|p|..]
  {
  }

  /** Keys are in the range under a prefix exactly when they start with the prefix and the
      rest of them is in the original range. */
  lemma RangeUnderPrefix(k: Str, p: Str, r: Range)
    requires p != [] && p[|p|-1] < 0xFFFF && !(r.gt.Some? && r.gte.Some?)
    ensures InRange(k, RangeUnder(p, r)) <==> StartsWith(k, p) && InRange(k[|p|..], r)
  {
    hide Lt;
    PrefixIsRange(k, p);
    if StartsWith(k, p) {
      SplitPrefix(k, p);
      Bounds(k[|p|..], p, r);
    } else if InRange(k, RangeUnder(p, r)) {
      BoundsStart(p, r);
      Ordered();
      if r.lt.Some? {
        var low := if r.gt.Some? then p + r.gt.value else if r.gte.Some? then p + r.gte.value else p;
        StartsWithBetween(low, k, p + r.lt.value, p);
      }
    }
  }

  /** The listing of master keys in the v1 format reads the master keys of the v0 range, and
      the listing of versions both these and the version keys. */
  lemma V1ReadsTheV0Range(k: Str, r: Range)
    requires !(r.gt.Some? && r.gte.Some?)
    ensures InRange(k, ListingParamsMasterKeysV0ToV1(r)) <==> StartsWith(k, MASTER_PREFIX) && InRange(Bare(k), r)
    ensures var (masters, versions) := GenMDParamsV1(r);
            && (InRange(k, masters) <==> StartsWith(k, MASTER_PREFIX) && InRange(Bare(k), r))
            && (InRange(k, versions) <==> StartsWith(k, VERSION_PREFIX) && InRange(Bare(k), r))
  {
    hide Lt;
    RangeUnderPrefix(k, MASTER_PREFIX, r);
    RangeUnderPrefix(k, VERSION_PREFIX, r);
  }

  lemma Bounds(rest: Str, p: Str, r: Range)
    requires p != [] && p[|p|-1] < 0xFFFF
    ensures r.gt.Some? ==> (Le(p + rest, p + r.gt.value) <==> Le(rest, r.gt.value))
    ensures r.gte.Some? ==> (Lt(p + rest, p + r.gte.value) <==> Lt(rest, r.gte.value))
    ensures r.lt.Some? ==> (Le(p + r.lt.value, p + rest) <==> Le(r.lt.value, rest))
    ensures !Lt(p + rest, p) && Lt(p + rest, Inc(p))
  {
    hide Lt;
    if r.gt.Some? {
      AppendKeepsOrder(p, r.gt.value, rest);
    }
    if r.gte.Some? {
      AppendKeepsOrder(p, rest, r.gte.value);
    }
    if r.lt.Some? {
      AppendKeepsOrder(p, rest, r.lt.value);
    }
    assert (p + rest)[..|p|] == p;
    PrefixIsRange(p + rest, p);
  }

  /** The lower bound of a range under a prefix starts with it. */
  lemma BoundsStart(p: Str, r: Range)
    requires p != [] && p[|p|-1] < 0xFFFF
    ensures StartsWith(p, p) && !Lt(p, p)
    ensures forall s :: StartsWith(p + s, p) && Le(p, p + s)
  {
    hide Lt;
    StrictTotalOrder(p, p, p);
    forall s
      ensures StartsWith(p + s, p) && Le(p, p + s)
    {
      assert (p + s)[..|p|] == p;
      PrefixIsLe(p + s, p);
    }
  }

  // ---------------------------------------------------------------------------
  // The merge of the two ranges

  /** Compares the keys that are left without their prefixes; never equal. */
  function CompareObjects(a: Str, b: Str): int {
    if Lt(Bare(a), Bare(b)) then -1 else 1
  }

  /** A key without its prefix. */
  function Bare(k: Str): Str {
    if |k| >= 2 then k[2..] else []
  }

  ghost predicate SortedKeys(s: seq<Str>) {
    forall i, j :: 0 <= i < j < |s| ==> Lt(s[i], s[j])
  }

  ghost predicate IsMasterRange(s: seq<Str>) {
    SortedKeys(s) && forall k :: k in s ==> StartsWith(k, MASTER_PREFIX) && !IsVersionKey(Bare(k))
  }

  ghost predicate IsVersionRange(s: seq<Str>) {
    SortedKeys(s) && forall k :: k in s ==> StartsWith(k, VERSION_PREFIX) && IsVersionKey(Bare(k))
  }

  /** Master keys and version keys never compare equal, so that the merge is safe. */
  lemma RangesAreApart(masters: seq<Str>, versions: seq<Str>)
    requires IsMasterRange(masters) && IsVersionRange(versions)
    ensures MergeStreams.AreApart(masters, versions, CompareObjects)
  {
    hide Lt;
    hide IsVersionKey;
    forall m, v | m in masters && v in versions
      ensures CompareObjects(m, v) != 0 && CompareObjects(v, m) != 0
      ensures CompareObjects(m, v) < 0 <==> CompareObjects(v, m) > 0
    {
      StrictTotalOrder(Bare(m), Bare(v), Bare(m));
    }
  }

  lemma ComparisonIsTransitive()
    ensures MergeStreams.IsTransitive(CompareObjects)
  {
    hide Lt;
    forall a, b, c | CompareObjects(a, b) < 0 && CompareObjects(b, c) < 0
      ensures CompareObjects(a, c) < 0
    {
      StrictTotalOrder(Bare(a), Bare(b), Bare(c));
    }
  }

  lemma RangeIsSorted(s: seq<Str>, p: Str)
    requires SortedKeys(s) && |p| == 2 && forall k :: k in s ==> StartsWith(k, p)
    ensures MergeStreams.Sorted(s, CompareObjects)
  {
    hide Lt;
    forall i, j | 0 <= i < j < |s|
      ensures CompareObjects(s[i], s[j]) < 0
    {
      assert s[i] in s && s[j] in s;
      SplitPrefix(s[i], p);
      SplitPrefix(s[j], p);
      AppendKeepsOrder(p, Bare(s[i]), Bare(s[j]));
    }
  }

  /**
    Merging the two ranges gives all their keys, without prefixes in the order of the v0
    format: each version key after its master key and before the next one.
   */
  lemma MergeRestoresV0Order(masters: seq<Str>, versions: seq<Str>)
    requires IsMasterRange(masters) && IsVersionRange(versions)
    ensures var merged := MergeStreams.Merge(masters, versions, CompareObjects);
            && multiset(merged) == multiset(masters) + multiset(versions)
            && forall i, j :: 0 <= i < j < |merged| ==> Lt(Bare(merged[i]), Bare(merged[j]))
  {
    hide Lt;
    hide MergeStreams.Merge;
    hide IsVersionKey;
    RangesAreApart(masters, versions);
    ComparisonIsTransitive();
    RangeIsSorted(masters, MASTER_PREFIX);
    RangeIsSorted(versions, VERSION_PREFIX);
    MergeStreams.MergeIsSorted(masters, versions, CompareObjects);
    var merged := MergeStreams.Merge(masters, versions, CompareObjects);
    forall i, j | 0 <= i < j < |merged|
      ensures Lt(Bare(merged[i]), Bare(merged[j]))
    {
      assert CompareObjects(merged[i], merged[j]) < 0;
    }
  }
}
