/**
  Keys of a bucket in the v0 format: a master key, or a version key made of a master key,
  the separator (NUL) and a version id.  Also the string primitives of the listings.
 */
module Keys {
  import opened Strings

  const VID_SEP: CodeUnit := 0

  /** The reserved prefix of internal replay keys, "\x7fR". */
  const REPLAY_PREFIX: Str := [0x7f, 0x52]

  datatype Option<T> = None | Some(value: T)

  /** Position of the separator, or the length of the key if there is none. */
  function SeparatorIndex(key: Str): (n: nat)
    ensures n <= |key|
    ensures forall i :: 0 <= i < n ==> key[i] != VID_SEP
    ensures n < |key| ==> key[n] == VID_SEP
  {
    if key == [] || key[0] == VID_SEP then 0 else 1 + SeparatorIndex(key[1..])
  }

  predicate IsVersionKey(key: Str) {
    SeparatorIndex(key) < |key|
  }

  /** The part of a key before the separator. */
  function MasterOf(key: Str): (m: Str)
    ensures !IsVersionKey(m)
  {
    var m := key[..SeparatorIndex(key)];
    assert forall i :: 0 <= i < |m| ==> m[i] != VID_SEP;
    m
  }

  /** Increments the last code unit, which wraps around like String.fromCharCode. */
  function Inc(s: Str): Str {
    if s == [] then s else s[..|s|-1] + [if s[|s|-1] == 0xFFFF then 0 else s[|s|-1] + 1]
  }

  predicate IsAt(key: Str, search: Str, i: nat) {
    i + |search| <= |key| && key[i..i+|search|] == search
  }

  /** `key.indexOf(search, from)`, for a non-empty search string. */
  function IndexOf(key: Str, search: Str, from: nat): (r: Option<nat>)
    requires search != []
    ensures match r
            case Some(n) => from <= n && IsAt(key, search, n) && forall i :: from <= i < n ==> !IsAt(key, search, i)
            case None => forall i :: from <= i ==> !IsAt(key, search, i)
    decreases |key| - from
  {
    if from >= |key| then None
    else if IsAt(key, search, from) then Some(from)
    else IndexOf(key, search, from + 1)
  }

  /** The part of a key up to and including the first delimiter after the prefix; the
      empty string stands for no delimiter or no prefix. */
  function CommonPrefixOf(key: Str, prefix: Str, delimiter: Str): Option<Str> {
    if delimiter == [] then None
    else
      match IndexOf(key, delimiter, |prefix|)
      case None => None
      case Some(i) => Some(key[..i+|delimiter|])
  }

  // ---------------------------------------------------------------------------

  lemma StartsWithStep(k: Str, p: Str)
    requires p != []
    ensures StartsWith(k, p) <==> k != [] && k[0] == p[0] && StartsWith(k[1..], p[1..])
  {
    if k != [] && |p| <= |k| {
      assert k[..|p|] == [k[0]] + k[1..][..|p|-1];
      assert p == [p[0]] + p[1..];
    }
  }

  lemma LtStep(a: Str, b: Str)
    requires a != [] && b != []
    ensures Lt(a, b) <==> a[0] < b[0] || (a[0] == b[0] && Lt(a[1..], b[1..]))
  {
  }

  /** Appending to the same string keeps the order. */
  lemma {:induction false} AppendKeepsOrder(p: Str, a: Str, b: Str)
    ensures Lt(p + a, p + b) <==> Lt(a, b)
  {
    if p == [] {
      assert p + a == a && p + b == b;
    } else {
      AppendKeepsOrder(p[1..], a, b);
      assert (p + a)[1..] == p[1..] + a && (p + b)[1..] == p[1..] + b;
      LtStep(p + a, p + b);
    }
  }

  /** The keys with a given prefix are the range from it to its increment, provided its
      last code unit can be incremented. */
  lemma {:induction false} PrefixIsRange(k: Str, p: Str)
    requires p != [] && p[|p|-1] < 0xFFFF
    ensures StartsWith(k, p) <==> Le(p, k) && Lt(k, Inc(p))
  {
    StartsWithStep(k, p);
    if k != [] {
      LtStep(k, p);
      LtStep(k, Inc(p));
      if |p| > 1 {
        PrefixIsRange(k[1..], p[1..]);
        assert Inc(p)[1..] == Inc(p[1..]);
      } else {
        assert p[1..] == [];
      }
    }
  }

  /** With a last code unit of 0xFFFF the increment wraps around, and the range misses the
      prefix itself: the range is the prefix exactly when the last code unit is smaller. */
  lemma PrefixIsRangeExactly(p: Str)
    requires p != []
    ensures p[|p|-1] < 0xFFFF <==> forall k :: StartsWith(k, p) <==> Le(p, k) && Lt(k, Inc(p))
  {
    if p[|p|-1] < 0xFFFF {
      forall k
        ensures StartsWith(k, p) <==> Le(p, k) && Lt(k, Inc(p))
      {
        PrefixIsRange(k, p);
      }
    } else {
      IncWraps(p);
      assert StartsWith(p, p);
    }
  }

  lemma {:induction false} IncWraps(p: Str)
    requires p != [] && p[|p|-1] == 0xFFFF
    ensures Lt(Inc(p), p)
  {
    if |p| > 1 {
      IncWraps(p[1..]);
      assert Inc(p)[1..] == Inc(p[1..]);
    }
  }

  // ---------------------------------------------------------------------------
  // Keys with a common prefix are contiguous

  lemma {:induction false} StartsWithBetween(a: Str, b: Str, c: Str, p: Str)
    requires Le(a, b) && Le(b, c) && StartsWith(a, p) && StartsWith(c, p)
    ensures StartsWith(b, p)
  {
    if p != [] {
      StartsWithStep(a, p);
      StartsWithStep(c, p);
      StartsWithStep(b, p);
      NothingBeforeEmpty(a);
      LtStep(b, a);
      LtStep(c, b);
      StartsWithBetween(a[1..], b[1..], c[1..], p[1..]);
    }
  }

  lemma {:induction false} PrefixIsLe(k: Str, p: Str)
    requires StartsWith(k, p)
    ensures Le(p, k)
  {
    if p != [] {
      StartsWithStep(k, p);
      LtStep(k, p);
      PrefixIsLe(k[1..], p[1..]);
    }
  }

  /** Keys between a master key and one of its version keys are version keys of it. */
  lemma BetweenVersions(m: Str, k: Str, v: Str)
    requires !IsVersionKey(m) && IsVersionKey(v) && MasterOf(v) == m
    requires Lt(m, k) && Le(k, v)
    ensures IsVersionKey(k) && MasterOf(k) == m
  {
    NextString(m, k);
    VersionStartsWith(v);
    assert StartsWith(m + [0], m + [0]);
    StartsWithBetween(m + [0], k, v, m + [0]);
    StartsWithVersion(k, m);
  }

  lemma VersionStartsWith(v: Str)
    requires IsVersionKey(v)
    ensures StartsWith(v, MasterOf(v) + [0])
  {
  }

  lemma StartsWithVersion(k: Str, m: Str)
    requires !IsVersionKey(m) && StartsWith(k, m + [0])
    ensures IsVersionKey(k) && MasterOf(k) == m
  {
    var n := SeparatorIndex(k);
    assert k[..|m|+1] == m + [0];
    assert k[|m|] == (m + [0])[|m|] == 0;
    assert forall i :: 0 <= i < |m| ==> k[i] == (m + [0])[i] == m[i];
    NoSeparator(m);
    assert n == |m|;
    assert k[..n] == k[..|m|+1][..n];
  }

  lemma NoSeparator(m: Str)
    ensures !IsVersionKey(m) <==> forall i :: 0 <= i < |m| ==> m[i] != 0
  {
  }

  /** A master key comes before its version keys. */
  lemma MasterIsBefore(v: Str)
    requires IsVersionKey(v)
    ensures Lt(MasterOf(v), v)
  {
    VersionStartsWith(v);
    PrefixIsLe(v, MasterOf(v) + [0]);
    NextString(MasterOf(v), v);
  }

  // ---------------------------------------------------------------------------
  // Common prefixes

  lemma IsAtPrefix(k: Str, p: Str, search: Str, i: nat)
    requires StartsWith(k, p) && i + |search| <= |p|
    ensures IsAt(k, search, i) <==> IsAt(p, search, i)
  {
    assert p[i..i+|search|] == k[..|p|][i..i+|search|] == k[i..i+|search|];
  }

  /** Keys that start with a common prefix of the listing have it as their own. */
  lemma CommonPrefixShared(k0: Str, k: Str, prefix: Str, delimiter: Str)
    requires CommonPrefixOf(k0, prefix, delimiter).Some?
    requires StartsWith(k, CommonPrefixOf(k0, prefix, delimiter).value)
    ensures CommonPrefixOf(k, prefix, delimiter) == CommonPrefixOf(k0, prefix, delimiter)
  {
    var p := CommonPrefixOf(k0, prefix, delimiter).value;
    var i0 := IndexOf(k0, delimiter, |prefix|).value;
    assert StartsWith(k0, p);
    IsAtPrefix(k0, p, delimiter, i0);
    IsAtPrefix(k, p, delimiter, i0);
    var i := IndexOf(k, delimiter, |prefix|).value;
    if i < i0 {
      IsAtPrefix(k, p, delimiter, i);
      IsAtPrefix(k0, p, delimiter, i);
    }
    assert k[..i0+|delimiter|] == p;
  }

  /** The common prefix of a key ends with the first delimiter after the prefix; there is none
      exactly if there is no delimiter there. */
  lemma CommonPrefixExactly(k: Str, prefix: Str, delimiter: Str)
    ensures forall p :: CommonPrefixOf(k, prefix, delimiter) == Some(p) <==>
              delimiter != []
              && exists i: nat :: IsAt(k, delimiter, i) && |prefix| <= i && p == k[..i+|delimiter|]
                             && forall j :: |prefix| <= j < i ==> !IsAt(k, delimiter, j)
    ensures CommonPrefixOf(k, prefix, delimiter) == None <==>
              delimiter == [] || forall i: nat :: |prefix| <= i ==> !IsAt(k, delimiter, i)
  {
    if delimiter != [] {
      var first := IndexOf(k, delimiter, |prefix|);
      forall i: nat | IsAt(k, delimiter, i) && |prefix| <= i && forall j :: |prefix| <= j < i ==> !IsAt(k, delimiter, j)
        ensures first == Some(i)
      {
      }
    }
  }

  lemma CommonPrefixStarts(k: Str, prefix: Str, delimiter: Str)
    requires CommonPrefixOf(k, prefix, delimiter).Some?
    ensures var p := CommonPrefixOf(k, prefix, delimiter).value;
            && StartsWith(k, p) && |prefix| < |p| && |delimiter| <= |p|
            && p[|p|-|delimiter|..] == delimiter
            && (StartsWith(k, prefix) ==> StartsWith(p, prefix))
  {
    var i := IndexOf(k, delimiter, |prefix|).value;
    var p := k[..i+|delimiter|];
    assert p[i..] == k[i..i+|delimiter|];
    if StartsWith(k, prefix) {
      assert p[..|prefix|] == k[..|prefix|];
    }
  }

  // ---------------------------------------------------------------------------
  // Prefixes of master keys

  lemma PrefixHasNoSeparator(key: Str, q: Str)
    requires !IsVersionKey(key) && StartsWith(key, q)
    ensures !IsVersionKey(q)
  {
    NoSeparator(key);
    NoSeparator(q);
    assert forall i :: 0 <= i < |q| ==> q[i] == key[..|q|][i] == key[i];
  }

  lemma PrefixOfMaster(k: Str, q: Str)
    requires StartsWith(k, q) && !IsVersionKey(q)
    ensures StartsWith(MasterOf(k), q)
  {
    var n := SeparatorIndex(k);
    NoSeparator(q);
    forall i | 0 <= i < |q|
      ensures k[i] != 0
    {
      assert q[i] == k[..|q|][i] == k[i];
    }
    assert n >= |q|;
    assert k[..n][..|q|] == k[..|q|];
  }

  lemma EntryStartsWith(k: Str, key: Str, q: Str)
    requires MasterOf(k) == key && StartsWith(key, q)
    ensures StartsWith(k, q)
  {
    assert k[..|key|][..|q|] == k[..|q|];
  }
}
