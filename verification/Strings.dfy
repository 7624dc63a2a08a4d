/**
  Strings as JavaScript sees them: sequences of 16-bit code units, compared
  lexicographically by the relational operators.
 */
module Strings {

  type CodeUnit = x: int | 0 <= x < 0x10000
  type Str = seq<CodeUnit>

  /** Length of the longest common prefix. */
  function FirstDifference(a: Str, b: Str): (n: nat)
    ensures n <= |a| && n <= |b|
  {
    if a == [] || b == [] || a[0] != b[0] then 0 else 1 + FirstDifference(a[1..], b[1..])
  }

  /** The relational operator `a < b` on strings. */
  predicate Lt(a: Str, b: Str) {
    var n := FirstDifference(a, b);
    n < |b| && (n == |a| || a[n] < b[n])
  }

  /** The relational operator `a <= b` on strings. */
  predicate Le(a: Str, b: Str) {
    !Lt(b, a)
  }

  /** `k.startsWith(p)` */
  predicate StartsWith(k: Str, p: Str) {
    |p| <= |k| && k[..|p|] == p
  }

  // ---------------------------------------------------------------------------
  // The order.  Reading a string as a fraction in base 65537 embeds the lexicographic
  // order into the reals, so that order reasoning becomes linear arithmetic.

  ghost function Fraction(s: Str): (r: real)
    ensures 0.0 <= r < 1.0
  {
    if s == [] then 0.0 else (s[0] as real + 1.0 + Fraction(s[1..])) / 65537.0
  }

  lemma {:induction false} FractionIsOrder(a: Str, b: Str)
    ensures Lt(a, b) <==> Fraction(a) < Fraction(b)
    ensures a == b <==> Fraction(a) == Fraction(b)
  {
    if a != [] && b != [] {
      FractionIsOrder(a[1..], b[1..]);
      assert a == [a[0]] + a[1..] && b == [b[0]] + b[1..];
    }
  }

  ghost predicate IsEmbedding(rank: Str -> real) {
    forall a: Str, b: Str {:trigger Lt(a, b)} ::
      (Lt(a, b) <==> rank(a) < rank(b)) && (a == b <==> rank(a) == rank(b))
  }

  /** Some embedding of the order into the reals; which one does not matter. */
  ghost function Embedding(): (rank: Str -> real)
    ensures IsEmbedding(rank)
  {
    forall a: Str, b: Str
      ensures (Lt(a, b) <==> Fraction(a) < Fraction(b)) && (a == b <==> Fraction(a) == Fraction(b))
    {
      FractionIsOrder(a, b);
    }
    assert IsEmbedding(Fraction);
    var rank: Str -> real :| IsEmbedding(rank);
    rank
  }

  ghost function Rank(s: Str): real {
    Embedding()(s)
  }

  /** Makes every comparison of strings a comparison of ranks. */
  lemma Ordered()
    ensures forall a: Str, b: Str {:trigger Lt(a, b)} ::
      (Lt(a, b) <==> Rank(a) < Rank(b)) && (a == b <==> Rank(a) == Rank(b))
  {
    hide Lt;
    var rank := Embedding();
    forall a: Str, b: Str
      ensures (Lt(a, b) <==> Rank(a) < Rank(b)) && (a == b <==> Rank(a) == Rank(b))
    {
      assert Rank(a) == rank(a) && Rank(b) == rank(b);
      assert Lt(a, b) <==> rank(a) < rank(b);
    }
  }

  /** Strings under `Lt` form a strict total order. */
  lemma StrictTotalOrder(a: Str, b: Str, c: Str)
    ensures !Lt(a, a)
    ensures Lt(a, b) && Lt(b, c) ==> Lt(a, c)
    ensures Lt(a, b) || a == b || Lt(b, a)
    ensures !(Lt(a, b) && Lt(b, a))
  {
    Ordered();
  }

  lemma Transitive(a: Str, b: Str, c: Str)
    ensures Le(a, b) && Le(b, c) ==> Le(a, c)
    ensures Le(a, b) && Lt(b, c) ==> Lt(a, c)
    ensures Lt(a, b) && Le(b, c) ==> Lt(a, c)
    ensures Lt(a, b) ==> Le(a, b)
    ensures Le(a, b) ==> a == b || Lt(a, b)
  {
    hide Lt;
    Ordered();
  }

  /** The string with one NUL appended is the very next one in the order. */
  lemma {:induction false} NextString(a: Str, b: Str)
    ensures Lt(a, b) <==> Le(a + [0], b)
  {
    if a != [] && b != [] && a[0] == b[0] {
      NextString(a[1..], b[1..]);
      assert (a + [0])[1..] == a[1..] + [0];
    }
  }

  lemma NothingBeforeEmpty(a: Str)
    ensures Le(a, []) <==> a == []
  {
  }
}
