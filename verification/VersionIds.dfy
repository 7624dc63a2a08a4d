/**
  Version ids: generated so that newer ids are smaller strings, and encoded for users.
 */
module VersionIds {
  import opened Strings
  import opened Keys

  const LENGTH_TS := 14
  const LENGTH_SEQ := 6
  const LENGTH_RG := 7

  const MAX_TS := 99_999_999_999_999
  const MAX_SEQ := 999_999

  // ---------------------------------------------------------------------------
  // Numbers as strings

  function Repeat(c: CodeUnit, n: nat): (s: Str)
    ensures |s| == n && forall i :: 0 <= i < n ==> s[i] == c
  {
    if n == 0 then [] else Repeat(c, n - 1) + [c]
  }

  /** `s.slice(-n)` for n > 0 */
  function LastPart(s: Str, n: nat): Str {
    if |s| <= n then s else s[|s|-n..]
  }

  function PadLeft(value: Str, template: Str): Str {
    LastPart(template + value, |template|)
  }

  function PadRight(value: Str, template: Str): Str {
    (value + template)[..|template|]
  }

  /** A natural number in decimal notation. */
  function Decimal(n: nat): (s: Str)
    ensures s != []
  {
    if n < 10 then [48 + n] else Decimal(n / 10) + [48 + n % 10]
  }

  function IntToString(n: int): Str {
    if n < 0 then [45] + Decimal(-n) else Decimal(n)
  }

  function Power(base: nat, e: nat): nat {
    if e == 0 then 1 else base * Power(base, e - 1)
  }

  /** The last `width` decimal digits of a number. */
  function Fixed(width: nat, n: nat): (s: Str)
    ensures |s| == width
  {
    if width == 0 then [] else Fixed(width - 1, n / 10) + [48 + n % 10]
  }

  lemma {:induction false} PaddedDecimal(width: nat, n: nat)
    requires width > 0 && n < Power(10, width)
    ensures |Decimal(n)| <= width
    ensures Repeat(48, width - |Decimal(n)|) + Decimal(n) == Fixed(width, n)
  {
    if n < 10 {
      FixedZero(width - 1);
    } else {
      PaddedDecimal(width - 1, n / 10);
      var zeros := Repeat(48, width - |Decimal(n)|);
      assert zeros + (Decimal(n / 10) + [48 + n % 10]) == (zeros + Decimal(n / 10)) + [48 + n % 10];
    }
  }

  lemma {:induction false} FixedZero(width: nat)
    ensures Fixed(width, 0) == Repeat(48, width)
  {
    if width > 0 {
      FixedZero(width - 1);
    }
  }

  lemma PadLeftZeros(value: Str, width: nat)
    requires |value| <= width
    ensures PadLeft(value, Repeat(48, width)) == Repeat(48, width - |value|) + value
  {
    var s := Repeat(48, width) + value;
    assert PadLeft(value, Repeat(48, width)) == s[|value|..];
  }

  /** Padding a small enough number gives its digits at fixed width. */
  lemma PadNumber(width: nat, n: nat)
    requires width > 0 && n < Power(10, width)
    ensures PadLeft(IntToString(n), Repeat(48, width)) == Fixed(width, n)
  {
    PaddedDecimal(width, n);
    PadLeftZeros(Decimal(n), width);
  }

  /** At fixed width, numbers compare as their digits do, whatever follows. */
  lemma {:induction false} FixedOrder(width: nat, a: nat, b: nat, x: Str, y: Str)
    requires a < b < Power(10, width)
    ensures Lt(Fixed(width, a) + x, Fixed(width, b) + y)
  {
    hide Lt;
    if width > 0 {
      var restA, restB := [48 + a % 10] + x, [48 + b % 10] + y;
      assert Fixed(width, a) + x == Fixed(width - 1, a / 10) + restA;
      assert Fixed(width, b) + y == Fixed(width - 1, b / 10) + restB;
      if a / 10 < b / 10 {
        FixedOrder(width - 1, a / 10, b / 10, restA, restB);
      } else {
        AppendKeepsOrder(Fixed(width - 1, a / 10), restA, restB);
        LtStep(restA, restB);
      }
    }
  }

  // ---------------------------------------------------------------------------
  // Generation

  /** The millisecond and the position in it of the last generated id. */
  datatype Stamp = Stamp(ts: int, seqNo: int)

  function NextStamp(last: Stamp, now: int): Stamp {
    Stamp(now, if last.ts == now then last.seqNo + 1 else 0)
  }

  function VersionIdOf(stamp: Stamp, replicationGroupId: Str, info: Str): Str {
    PadLeft(IntToString(MAX_TS - stamp.ts), Repeat(48, LENGTH_TS))
    + PadLeft(IntToString(MAX_SEQ - stamp.seqNo), Repeat(48, LENGTH_SEQ))
    + PadRight(replicationGroupId, Repeat(32, LENGTH_RG))
    + info
  }

  class VersionIdGenerator {
    var lastTimestamp: int
    var lastSeq: int

    ghost function Last(): Stamp
      reads this
    {
      Stamp(lastTimestamp, lastSeq)
    }

    constructor ()
      ensures Last() == Stamp(0, 0)
    {
      lastTimestamp := 0;
      lastSeq := 0;
    }

    /** The id for the present time `now`; `info` is part of it in the hex encoding only. */
    method GenerateVersionId(info: Str, replicationGroupId: Str, now: int, hexEncoding: bool)
      returns (versionId: Str)
      modifies this
      ensures Last() == NextStamp(old(Last()), now)
      ensures versionId == VersionIdOf(Last(), replicationGroupId, if hexEncoding then info else [])
    {
      hide PadLeft;
      hide PadRight;
      hide IntToString;
      hide Repeat;
      var repGroupId := PadRight(replicationGroupId, Repeat(32, LENGTH_RG));
      lastSeq := if lastTimestamp == now then lastSeq + 1 else 0;
      lastTimestamp := now;
      var suffix := if hexEncoding then info else [];
      versionId :=
        PadLeft(IntToString(MAX_TS - lastTimestamp), Repeat(48, LENGTH_TS))
        + PadLeft(IntToString(MAX_SEQ - lastSeq), Repeat(48, LENGTH_SEQ))
        + repGroupId
        + suffix;
    }
  }

  predicate Later(a: Stamp, b: Stamp) {
    a.ts < b.ts || (a.ts == b.ts && a.seqNo < b.seqNo)
  }

  /** One position more than there are six-digit numbers: the first negative one. */
  predicate Representable(s: Stamp) {
    0 <= s.ts <= MAX_TS && 0 <= s.seqNo <= MAX_SEQ + 1
  }

  lemma PowersOfTen()
    ensures Power(10, LENGTH_TS) == MAX_TS + 1 && Power(10, LENGTH_SEQ) == MAX_SEQ + 1
  {
    assert Power(10, 3) == 1000;
    assert Power(10, 6) == 1_000_000;
    assert Power(10, 9) == 1_000_000_000;
    assert Power(10, 12) == 1_000_000_000_000;
  }

  lemma Regroup(a: Str, b: Str, c: Str, d: Str)
    ensures a + b + c + d == a + (b + (c + d))
  {
  }

  /** The position of an id as it is written. */
  function Position(seqNo: int): Str {
    PadLeft(IntToString(MAX_SEQ - seqNo), Repeat(48, LENGTH_SEQ))
  }

  lemma PositionDigits(seqNo: int)
    requires 0 <= seqNo <= MAX_SEQ
    ensures Position(seqNo) == Fixed(LENGTH_SEQ, MAX_SEQ - seqNo)
  {
    PowersOfTen();
    PadNumber(LENGTH_SEQ, MAX_SEQ - seqNo);
  }

  lemma NegativePosition(n: nat)
    requires 0 < n < 10
    ensures Position(MAX_SEQ + n) == [48, 48, 48, 48, 45, 48 + n]
  {
    PadLeftZeros([45, 48 + n], LENGTH_SEQ);
    assert Repeat(48, 2) == [48, 48] && Repeat(48, 4) == [48, 48, 48, 48];
  }

  /** The first negative number still comes before all others, since '-' comes before '0'. */
  lemma NegativeIsSmallest(n: nat, x: Str, y: Str)
    requires n < Power(10, LENGTH_SEQ)
    ensures Lt([48, 48, 48, 48, 45, 49] + x, Fixed(LENGTH_SEQ, n) + y)
  {
    hide Lt;
    var f := Fixed(LENGTH_SEQ, n);
    forall i | 0 <= i < LENGTH_SEQ
      ensures f[i] >= 48
    {
      FixedDigits(LENGTH_SEQ, n, i);
    }
    var a, b := [48, 48, 48, 48, 45, 49] + x, f + y;
    SmallerAt(a, b, 4);
  }

  lemma {:induction false} FixedDigits(width: nat, n: nat, i: nat)
    requires i < width
    ensures 48 <= Fixed(width, n)[i] < 58
  {
    if i < width - 1 {
      FixedDigits(width - 1, n / 10, i);
    }
  }

  /** A string that is nowhere greater before position `n` and smaller there is smaller. */
  lemma {:induction false} SmallerAt(a: Str, b: Str, n: nat)
    requires n < |a| && n < |b| && a[n] < b[n] && forall i :: 0 <= i < n ==> a[i] <= b[i]
    ensures Lt(a, b)
  {
    LtStep(a, b);
    if n > 0 && a[0] == b[0] {
      SmallerAt(a[1..], b[1..], n - 1);
    }
  }

  /** Later ids are smaller strings, whatever the replication groups and suffixes. */
  lemma LaterIdsAreSmaller(a: Stamp, b: Stamp, rg: Str, rg': Str, info: Str, info': Str)
    requires Representable(a) && Representable(b) && Later(a, b)
    ensures Lt(VersionIdOf(b, rg', info'), VersionIdOf(a, rg, info))
  {
    hide Lt;
    PowersOfTen();
    PadNumber(LENGTH_TS, MAX_TS - a.ts);
    PadNumber(LENGTH_TS, MAX_TS - b.ts);
    PositionDigits(if a.seqNo <= MAX_SEQ then a.seqNo else 0);
    PositionDigits(if b.seqNo <= MAX_SEQ then b.seqNo else 0);
    NegativePosition(1);
    hide PadLeft;
    hide PadRight;
    hide IntToString;
    hide Repeat;
    hide Fixed;
    hide Power;
    var ta, tb := Fixed(LENGTH_TS, MAX_TS - a.ts), Fixed(LENGTH_TS, MAX_TS - b.ts);
    var xa := PadRight(rg, Repeat(32, LENGTH_RG)) + info;
    var xb := PadRight(rg', Repeat(32, LENGTH_RG)) + info';
    Regroup(ta, Position(a.seqNo), PadRight(rg, Repeat(32, LENGTH_RG)), info);
    Regroup(tb, Position(b.seqNo), PadRight(rg', Repeat(32, LENGTH_RG)), info');
    if a.ts < b.ts {
      FixedOrder(LENGTH_TS, MAX_TS - b.ts, MAX_TS - a.ts, Position(b.seqNo) + xb, Position(a.seqNo) + xa);
    } else {
      if b.seqNo <= MAX_SEQ {
        FixedOrder(LENGTH_SEQ, MAX_SEQ - b.seqNo, MAX_SEQ - a.seqNo, xb, xa);
      } else {
        NegativeIsSmallest(MAX_SEQ - a.seqNo, xb, xa);
      }
      AppendKeepsOrder(ta, Position(b.seqNo) + xb, Position(a.seqNo) + xa);
    }
  }

  /** The stamp of the i-th of the ids generated at the given times. */
  function StampAt(times: seq<int>, i: nat): Stamp
    requires i < |times|
  {
    NextStamp(if i == 0 then Stamp(0, 0) else StampAt(times, i - 1), times[i])
  }

  /** Time does not go back, and stays within what ids can hold. */
  ghost predicate IsClock(times: seq<int>) {
    forall i, j :: 0 <= i <= j < |times| ==> 0 < times[i] <= times[j] <= MAX_TS
  }

  /** At most 10^6 + 1 ids fall in one millisecond. */
  ghost predicate IsSlow(times: seq<int>) {
    forall i, j :: 0 <= i && i + MAX_SEQ + 1 < j < |times| ==> times[i] < times[j]
  }

  /** The position of an id counts the ids before it in the same millisecond. */
  lemma {:induction false} StampsAreRegular(times: seq<int>, i: nat)
    requires IsClock(times) && i < |times|
    ensures var s := StampAt(times, i);
            && s.ts == times[i] && 0 <= s.seqNo <= i
            && times[i - s.seqNo] == times[i]
            && (i > s.seqNo ==> times[i - s.seqNo - 1] < times[i])
  {
    if i > 0 {
      StampsAreRegular(times, i - 1);
    }
  }

  lemma {:induction false} StampsAscend(times: seq<int>, i: nat, j: nat)
    requires IsClock(times) && i < j < |times|
    ensures Later(StampAt(times, i), StampAt(times, j))
  {
    StampsAreRegular(times, j - 1);
    if i < j - 1 {
      StampsAscend(times, i, j - 1);
    }
  }

  /** The i-th of the ids generated at the given times. */
  function IdAt(times: seq<int>, rg: Str, infos: seq<Str>, i: nat): Str
    requires i < |times| == |infos|
  {
    VersionIdOf(StampAt(times, i), rg, infos[i])
  }

  lemma GeneratedIdsDecrease(times: seq<int>, rg: Str, infos: seq<Str>, i: nat, j: nat)
    requires IsClock(times) && IsSlow(times) && i < j < |times| == |infos|
    ensures Lt(IdAt(times, rg, infos, j), IdAt(times, rg, infos, i))
  {
    StampsAreRegular(times, i);
    StampsAreRegular(times, j);
    StampsAscend(times, i, j);
    LaterIdsAreSmaller(StampAt(times, i), StampAt(times, j), rg, rg, infos[i], infos[j]);
  }

  /** Two ids later than the millionth of a millisecond the order breaks: the second
      negative position is a greater string than the first. */
  lemma NegativePositionsGrow(ts: int, rg: Str, info: Str, info': Str)
    requires 0 <= ts <= MAX_TS
    ensures Lt(VersionIdOf(Stamp(ts, MAX_SEQ + 1), rg, info), VersionIdOf(Stamp(ts, MAX_SEQ + 2), rg, info'))
  {
    hide Lt;
    var t := PadLeft(IntToString(MAX_TS - ts), Repeat(48, LENGTH_TS));
    var group := PadRight(rg, Repeat(32, LENGTH_RG));
    NegativePosition(1);
    NegativePosition(2);
    var x, y := [49] + (group + info), [50] + (group + info');
    assert VersionIdOf(Stamp(ts, MAX_SEQ + 1), rg, info) == t + ([48, 48, 48, 48, 45] + x);
    assert VersionIdOf(Stamp(ts, MAX_SEQ + 2), rg, info') == t + ([48, 48, 48, 48, 45] + y);
    LtStep(x, y);
    AppendKeepsOrder([48, 48, 48, 48, 45], x, y);
    AppendKeepsOrder(t, [48, 48, 48, 48, 45] + x, [48, 48, 48, 48, 45] + y);
  }

  /** Before an id of some position come those of all smaller positions. */
  lemma {:induction false} EarlierPositions(times: seq<int>, j: nat, n: nat)
    requires IsClock(times) && j < |times| && n <= StampAt(times, j).seqNo <= j
    ensures StampAt(times, j - n) == Stamp(times[j], StampAt(times, j).seqNo - n)
  {
    StampsAreRegular(times, j);
    if n > 0 {
      StampsAreRegular(times, j - 1);
      EarlierPositions(times, j - 1, n - 1);
    }
  }

  /**
    Exactly when every generated id is smaller than all the earlier ones: when no
    millisecond has more than 10^6 + 1 of them.
   */
  lemma IdsDecreaseExactly(times: seq<int>, rg: Str, infos: seq<Str>)
    requires IsClock(times) && |times| == |infos|
    ensures IsSlow(times)
       <==> forall i, j :: 0 <= i < j < |times| ==> Lt(IdAt(times, rg, infos, j), IdAt(times, rg, infos, i))
  {
    hide Lt;
    hide VersionIdOf;
    if IsSlow(times) {
      forall i, j | 0 <= i < j < |times|
        ensures Lt(IdAt(times, rg, infos, j), IdAt(times, rg, infos, i))
      {
        GeneratedIdsDecrease(times, rg, infos, i, j);
      }
    } else {
      var i, j :| 0 <= i && i + MAX_SEQ + 1 < j < |times| && times[i] == times[j];
      StampsAreRegular(times, j);
      var s := StampAt(times, j).seqNo;
      assert j - s <= i;
      EarlierPositions(times, j, s - MAX_SEQ - 2);
      EarlierPositions(times, j, s - MAX_SEQ - 1);
      var n := j - (s - MAX_SEQ - 2);
      NegativePositionsGrow(times[j], rg, infos[n-1], infos[n]);
      StrictTotalOrder(IdAt(times, rg, infos, n - 1), IdAt(times, rg, infos, n), []);
      assert !Lt(IdAt(times, rg, infos, n), IdAt(times, rg, infos, n - 1));
    }
  }
}
