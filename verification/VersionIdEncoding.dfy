/**
  The encodings of version ids: 32 characters in base 62 for ids of 27 characters, and
  hexadecimal for longer ones.  Decoding gives back the id that was encoded.
 */
module VersionIdEncoding {
  import opened Strings
  import opened Keys
  import opened VersionIds

  datatype Result<T> = Ok(value: T) | Err

  // ---------------------------------------------------------------------------
  // Positional numerals

  function Quotient(n: nat, base: nat): nat
    requires base >= 1
  {
    n / base
  }

  function Remainder(n: nat, base: nat): (r: nat)
    requires base >= 1
    ensures r < base
  {
    n % base
  }

  /** The number whose digits are those of `v` followed by `d`. */
  function Append(v: nat, d: nat, base: nat): nat {
    v * base + d
  }

  /** The digits of a number, most significant first; none for zero. */
  function Digits(n: nat, base: nat): (ds: seq<nat>)
    requires base >= 2
    ensures forall i :: 0 <= i < |ds| ==> ds[i] < base
    ensures ds != [] ==> ds[0] != 0
    ensures n == 0 <==> ds == []
  {
    if n == 0 then []
    else
      QuotientIsSmaller(n, base);
      Digits(Quotient(n, base), base) + [Remainder(n, base)]
  }

  function ValueOf(ds: seq<nat>, base: nat): nat {
    if ds == [] then 0 else Append(ValueOf(ds[..|ds|-1], base), ds[|ds|-1], base)
  }

  lemma Distribute(v: nat, k: nat, base: nat)
    ensures (v + k) * base == v * base + k * base
    ensures k >= 1 ==> k * base >= base
  {
  }

  lemma Doubles(q: nat, base: nat)
    requires base >= 2
    ensures q * base >= q + q
  {
    Distribute(2, base - 2, q);
    if base > 2 && q > 0 {
      Distribute(0, base - 2, q);
    }
  }

  lemma AppendDivides(n: nat, base: nat)
    requires base >= 1
    ensures Append(Quotient(n, base), Remainder(n, base), base) == n
  {
  }

  lemma QuotientIsSmaller(n: nat, base: nat)
    requires base >= 2 && n > 0
    ensures Quotient(n, base) < n
    ensures Quotient(n, base) == 0 ==> Remainder(n, base) != 0
  {
    var q := Quotient(n, base);
    AppendDivides(n, base);
    Doubles(q, base);
  }

  lemma DividesAppend(v: nat, d: nat, base: nat)
    requires d < base
    ensures Quotient(Append(v, d, base), base) == v && Remainder(Append(v, d, base), base) == d
    ensures v > 0 || d > 0 ==> Append(v, d, base) > 0
  {
    var n := Append(v, d, base);
    AppendDivides(n, base);
    var q := Quotient(n, base);
    if q > v {
      Distribute(v, q - v, base);
    } else if v > q {
      Distribute(q, v - q, base);
    }
    Distribute(0, v, base);
  }

  lemma {:induction false} ValueOfDigits(n: nat, base: nat)
    requires base >= 2
    ensures ValueOf(Digits(n, base), base) == n
  {
    hide Append;
    hide Quotient;
    hide Remainder;
    if n > 0 {
      QuotientIsSmaller(n, base);
      ValueOfDigits(Quotient(n, base), base);
      AppendDivides(n, base);
      assert Digits(n, base)[..|Digits(n, base)|-1] == Digits(Quotient(n, base), base);
    }
  }

  lemma {:induction false} DigitsOfValue(ds: seq<nat>, base: nat)
    requires base >= 2 && (forall i :: 0 <= i < |ds| ==> ds[i] < base)
    requires ds != [] ==> ds[0] != 0
    ensures Digits(ValueOf(ds, base), base) == ds
  {
    hide Append;
    hide Quotient;
    hide Remainder;
    if ds != [] {
      var n := |ds| - 1;
      DigitsOfValue(ds[..n], base);
      DividesAppend(ValueOf(ds[..n], base), ds[n], base);
    }
  }

  lemma {:induction false} LeadingZeros(n: nat, ds: seq<nat>, base: nat)
    ensures ValueOf(Zeros(n) + ds, base) == ValueOf(ds, base)
  {
    hide Append;
    if ds == [] {
      assert Zeros(n) + ds == Zeros(n);
      if n > 0 {
        assert Zeros(n)[..n-1] == Zeros(n - 1);
        LeadingZeros(n - 1, [], base);
        assert Zeros(n - 1) + [] == Zeros(n - 1);
        AppendZero(base);
      }
    } else {
      var m := |ds| - 1;
      LeadingZeros(n, ds[..m], base);
      assert (Zeros(n) + ds)[..n+m] == Zeros(n) + ds[..m];
    }
  }

  lemma AppendZero(base: nat)
    ensures Append(0, 0, base) == 0
  {
  }

  function Zeros(n: nat): (s: seq<nat>)
    ensures |s| == n && forall i :: 0 <= i < n ==> s[i] == 0
  {
    if n == 0 then [] else Zeros(n - 1) + [0]
  }

  /** A number below base^k has at most k digits. */
  lemma {:induction false} DigitsBound(n: nat, base: nat, k: nat)
    requires base >= 2 && n < Power(base, k)
    ensures |Digits(n, base)| <= k
  {
    hide Append;
    hide Quotient;
    hide Remainder;
    if n > 0 {
      QuotientBound(n, base, k);
      QuotientIsSmaller(n, base);
      DigitsBound(Quotient(n, base), base, k - 1);
    }
  }

  lemma QuotientBound(n: nat, base: nat, k: nat)
    requires base >= 2 && 0 < n < Power(base, k)
    ensures k > 0 && Quotient(n, base) < Power(base, k - 1)
  {
    AppendDivides(n, base);
    var q, p := Quotient(n, base), Power(base, k - 1);
    if q >= p {
      Distribute(p, q - p, base);
    }
  }

  lemma {:induction false} ValueBound(ds: seq<nat>, base: nat)
    requires base >= 2 && forall i :: 0 <= i < |ds| ==> ds[i] < base
    ensures ValueOf(ds, base) < Power(base, |ds|)
  {
    hide Append;
    hide Power;
    if ds == [] {
      PowerZero(base);
    } else {
      var n := |ds| - 1;
      ValueBound(ds[..n], base);
      AppendBound(ValueOf(ds[..n], base), ds[n], base, n);
    }
  }

  lemma PowerZero(base: nat)
    ensures Power(base, 0) == 1
  {
  }

  lemma AppendBound(v: nat, d: nat, base: nat, n: nat)
    requires v < Power(base, n) && d < base
    ensures Append(v, d, base) < Power(base, n + 1)
  {
    Distribute(v, Power(base, n) - v, base);
  }

  // ---------------------------------------------------------------------------
  // Base 62

  /** '0'-'9', 'a'-'z', 'A'-'Z' */
  function Base62Char(d: nat): CodeUnit
    requires d < 62
  {
    if d < 10 then 48 + d else if d < 36 then 87 + d else 29 + d
  }

  function Base62Digit(c: CodeUnit): (d: Option<nat>)
    ensures d.Some? ==> d.value < 62
  {
    if 48 <= c < 58 then Some(c - 48)
    else if 97 <= c < 123 then Some(c - 87)
    else if 65 <= c < 91 then Some(c - 29)
    else None
  }

  function Chars(ds: seq<nat>): (s: Str)
    requires forall i :: 0 <= i < |ds| ==> ds[i] < 62
    ensures |s| == |ds| && forall i :: 0 <= i < |ds| ==> s[i] == Base62Char(ds[i])
  {
    if ds == [] then [] else [Base62Char(ds[0])] + Chars(ds[1..])
  }

  predicate IsBase62(s: Str) {
    forall i :: 0 <= i < |s| ==> Base62Digit(s[i]).Some?
  }

  function DigitsIn(s: Str): (ds: seq<nat>)
    requires IsBase62(s)
    ensures |ds| == |s| && forall i :: 0 <= i < |s| ==> ds[i] == Base62Digit(s[i]).value
  {
    if s == [] then [] else [Base62Digit(s[0]).value] + DigitsIn(s[1..])
  }

  /** base62Integer.encode */
  function EncodeInt(n: nat): Str {
    if n == 0 then [48] else Chars(Digits(n, 62))
  }

  /** base62Integer.decode */
  function DecodeInt(s: Str): nat
    requires IsBase62(s)
  {
    ValueOf(DigitsIn(s), 62)
  }

  /** Number of leading elements equal to `c`. */
  function Leading(s: seq<nat>, c: nat): (n: nat)
    ensures n <= |s| && (forall i :: 0 <= i < n ==> s[i] == c) && (n < |s| ==> s[n] != c)
  {
    if s == [] || s[0] != c then 0 else 1 + Leading(s[1..], c)
  }

  /** base62String.encode: leading zero bytes are kept as leading zeros. */
  function EncodeBytes(bytes: seq<nat>): Str {
    Repeat(48, Leading(bytes, 0)) + Chars(Digits(ValueOf(bytes, 256), 62))
  }

  /** base62String.decode */
  function DecodeBytes(s: Str): seq<nat>
    requires IsBase62(s)
  {
    Zeros(Leading(DigitsIn(s), 0)) + Digits(ValueOf(DigitsIn(s), 62), 256)
  }

  function Pad(s: Str, width: nat): Str {
    PadLeft(s, Repeat(48, width))
  }

  lemma Base62Inverse(d: nat)
    requires d < 62
    ensures Base62Digit(Base62Char(d)) == Some(d)
    ensures Base62Char(d) == 48 <==> d == 0
  {
  }

  lemma CharsAreDigits(ds: seq<nat>)
    requires forall i :: 0 <= i < |ds| ==> ds[i] < 62
    ensures IsBase62(Chars(ds)) && DigitsIn(Chars(ds)) == ds
    ensures ds != [] ==> (Chars(ds)[0] == 48 <==> ds[0] == 0)
  {
    hide Base62Char;
    hide Base62Digit;
    hide Chars;
    hide DigitsIn;
    forall i | 0 <= i < |ds|
      ensures Base62Digit(Chars(ds)[i]) == Some(ds[i]) && (Chars(ds)[i] == 48 <==> ds[i] == 0)
    {
      Base62Inverse(ds[i]);
    }
  }

  lemma ZerosAreDigits(n: nat, s: Str)
    requires IsBase62(s)
    ensures IsBase62(Repeat(48, n) + s)
    ensures DigitsIn(Repeat(48, n) + s) == Zeros(n) + DigitsIn(s)
  {
  }

  lemma Capacities()
    ensures Power(10, 10) <= Power(62, 6) && Power(256, 7) <= Power(62, 10)
  {
    assert Power(10, 5) == 100_000;
    assert Power(10, 10) == 10_000_000_000;
    assert Power(62, 3) == 238_328;
    assert Power(62, 6) == 56_800_235_584;
    assert Power(62, 10) == 839_299_365_868_340_224;
    assert Power(256, 4) == 0x1_0000_0000;
    assert Power(256, 7) == 0x100_0000_0000_0000;
  }

  lemma IntIsEncoded(n: nat)
    requires n < Power(62, 6)
    ensures var e := EncodeInt(n);
            1 <= |e| <= 6 && IsBase62(e) && ValueOf(DigitsIn(e), 62) == n
  {
    hide Power;
    hide Chars;
    hide DigitsIn;
    if n == 0 {
      assert DigitsIn([48])[0] == 0;
      ZeroDigit();
    } else {
      hide ValueOf;
      DigitsBound(n, 62, 6);
      CharsAreDigits(Digits(n, 62));
      ValueOfDigits(n, 62);
    }
  }

  lemma ZeroDigit()
    ensures ValueOf([0], 62) == 0
  {
    assert [0][..0] == [];
  }

  /** A number of ten decimal digits fits in six characters, and comes back. */
  lemma IntRoundTrip(n: nat)
    requires n < Power(10, 10)
    ensures |Pad(EncodeInt(n), 6)| == 6
    ensures IsBase62(Pad(EncodeInt(n), 6)) && DecodeInt(Pad(EncodeInt(n), 6)) == n
  {
    Capacities();
    hide Power;
    hide EncodeInt;
    hide DigitsIn;
    hide ValueOf;
    hide PadLeft;
    var e := EncodeInt(n);
    IntIsEncoded(n);
    PadLeftZeros(e, 6);
    ZerosAreDigits(6 - |e|, e);
    LeadingZeros(6 - |e|, DigitsIn(e), 62);
  }

  lemma BytesAreEncoded(bytes: seq<nat>)
    requires |bytes| == 7 && bytes[0] != 0 && forall i :: 0 <= i < |bytes| ==> bytes[i] < 256
    ensures var e := EncodeBytes(bytes);
            1 <= |e| <= 20 && IsBase62(e) && e[0] != 48 && DecodeBytes(e) == bytes
  {
    Capacities();
    hide Power;
    hide ValueOf;
    hide Chars;
    hide DigitsIn;
    hide Base62Digit;
    hide Digits;
    var n := ValueOf(bytes, 256);
    var ds := Digits(n, 62);
    ValueBound(bytes, 256);
    DigitsBound(n, 62, 10);
    DigitsOfValue(bytes, 256);
    ValueOfDigits(n, 62);
    CharsAreDigits(ds);
    NoLeading(bytes, 0);
    NoLeading(ds, 0);
    assert EncodeBytes(bytes) == Chars(ds);
  }

  lemma NoLeading(s: seq<nat>, c: nat)
    requires s != [] && s[0] != c
    ensures Leading(s, c) == 0 && Zeros(0) == [] && Repeat(48, 0) == []
  {
  }

  /** Seven bytes, the first not null, fit in twenty characters, and come back once the
      padding is taken off. */
  lemma BytesRoundTrip(bytes: seq<nat>)
    requires |bytes| == 7 && bytes[0] != 0 && forall i :: 0 <= i < |bytes| ==> bytes[i] < 256
    ensures var padded := Pad(EncodeBytes(bytes), 20);
            && |padded| == 20 && IsBase62(padded)
            && var rest := padded[Leading(padded, 48)..];
               IsBase62(rest) && DecodeBytes(rest) == bytes
  {
    BytesAreEncoded(bytes);
    hide EncodeBytes;
    hide DecodeBytes;
    hide Base62Digit;
    hide PadLeft;
    var e := EncodeBytes(bytes);
    var n := 20 - |e|;
    PadLeftZeros(e, 20);
    ZerosAreDigits(n, e);
    var padded := Repeat(48, n) + e;
    assert padded[n] == e[0];
    assert Leading(padded, 48) == n;
    assert padded[n..] == e;
  }

  // ---------------------------------------------------------------------------
  // Whole version ids

  predicate IsDecimal(s: Str) {
    forall i :: 0 <= i < |s| ==> 48 <= s[i] < 58
  }

  predicate IsAscii(s: Str) {
    forall i :: 0 <= i < |s| ==> s[i] < 128
  }

  /** Digits with a minus sign among them, as a negative position gives; no number. */
  predicate IsSigned(s: Str) {
    exists i :: 0 < i < |s| && s[i] == 45 && IsDecimal(s[..i]) && IsDecimal(s[i+1..])
  }

  /** Twenty digits, of which the second half may be signed, then a replication group and
      possibly more, in ASCII. */
  predicate IsVersionId(s: Str) {
    && |s| >= 27 && IsAscii(s)
    && IsDecimal(s[..10]) && (IsDecimal(s[10..20]) || IsSigned(s[10..20]))
  }

  /** Number(s) for a string of decimal digits. */
  function ParseDecimal(s: Str): nat
    requires IsDecimal(s)
  {
    if s == [] then 0 else Append(ParseDecimal(s[..|s|-1]), s[|s|-1] - 48, 10)
  }

  /** A number in base 62; what is no number is encoded as nothing. */
  function EncodePart(s: Str): Str {
    if IsDecimal(s) then EncodeInt(ParseDecimal(s)) else []
  }

  /** The UTF-8 bytes of an ASCII string are its characters. */
  function BytesOf(s: Str): (bytes: seq<nat>)
    requires IsAscii(s)
    ensures |bytes| == |s| && forall i :: 0 <= i < |s| ==> bytes[i] == s[i]
  {
    if s == [] then [] else [s[0]] + BytesOf(s[1..])
  }

  /** The string with the given UTF-8 bytes, for ASCII bytes. */
  function StringOf(bytes: seq<nat>): (r: Result<Str>)
    ensures (forall i :: 0 <= i < |bytes| ==> bytes[i] < 128) ==>
              r.Ok? && |r.value| == |bytes| && forall i :: 0 <= i < |bytes| ==> r.value[i] == bytes[i]
  {
    if bytes == [] then Ok([])
    else
      match StringOf(bytes[1..])
      case Err => Err
      case Ok(rest) => if bytes[0] < 128 then Ok([bytes[0]] + rest) else Err
  }

  function Base62Encode(s: Str): Str
    requires IsVersionId(s)
  {
    Pad(EncodePart(s[..10]), 6)
    + Pad(EncodePart(s[10..20]), 6)
    + Pad(EncodeBytes(BytesOf(s[20..])), 20)
  }

  /** The characters at positions `a` to `b`, as far as there are any. */
  function Substring(s: Str, a: nat, b: nat): Str
    requires a <= b
  {
    if b <= |s| then s[a..b] else if a <= |s| then s[a..] else []
  }

  function Base62Decoded(str: Str): Result<Str> {
    if !IsBase62(str) then Err
    else
      var orig1 := DecodeInt(Substring(str, 0, 6));
      var orig2 := DecodeInt(Substring(str, 6, 12));
      var enc3 := if 12 <= |str| then str[12..] else [];
      match StringOf(DecodeBytes(enc3[Leading(enc3, 48)..]))
      case Err => Err
      case Ok(orig3) => Ok(Pad(Decimal(orig1), 10) + Pad(Decimal(orig2), 10) + orig3)
  }

  method Base62Decode(str: Str) returns (r: Result<Str>)
    ensures r == Base62Decoded(str)
  {
    hide DecodeInt;
    hide DecodeBytes;
    hide StringOf;
    hide Decimal;
    hide Leading;
    if !IsBase62(str) {
      return Err;
    }
    var start := 0;
    var orig1 := DecodeInt(Substring(str, start, start + 6));
    start := start + 6;
    var orig2 := DecodeInt(Substring(str, start, start + 6));
    start := start + 6;
    var enc3 := if start <= |str| then str[start..] else [];
    // take off the leading zeros, which stand for null bytes
    var idx := 0;
    while idx < |enc3|
      invariant 0 <= idx <= |enc3|
      invariant forall i :: 0 <= i < idx ==> enc3[i] == 48
    {
      if enc3[idx] == 48 {
        idx := idx + 1;
      } else {
        break;
      }
    }
    LeadingIs(enc3, 48, idx);
    match StringOf(DecodeBytes(enc3[idx..])) {
      case Err => return Err;
      case Ok(orig3) => return Ok(Pad(Decimal(orig1), 10) + Pad(Decimal(orig2), 10) + orig3);
    }
  }

  lemma LeadingIs(s: seq<nat>, c: nat, n: nat)
    requires n <= |s| && (forall i :: 0 <= i < n ==> s[i] == c) && (n < |s| ==> s[n] != c)
    ensures Leading(s, c) == n
  {
  }

  function HexChar(d: nat): CodeUnit
    requires d < 16
  {
    if d < 10 then 48 + d else 87 + d
  }

  function HexDigit(c: CodeUnit): (d: Option<nat>)
    ensures d.Some? ==> d.value < 16
  {
    if 48 <= c < 58 then Some(c - 48)
    else if 97 <= c < 103 then Some(c - 87)
    else if 65 <= c < 71 then Some(c - 55)
    else None
  }

  function HexOfBytes(bytes: seq<nat>): (s: Str)
    requires forall i :: 0 <= i < |bytes| ==> bytes[i] < 256
    ensures |s| == 2 * |bytes|
  {
    if bytes == [] then []
    else [HexChar(bytes[0] / 16), HexChar(bytes[0] % 16)] + HexOfBytes(bytes[1..])
  }

  /** Decodes pairs of hexadecimal digits up to the first that is none. */
  function BytesOfHex(s: Str): seq<nat> {
    if |s| < 2 || HexDigit(s[0]) == None || HexDigit(s[1]) == None then []
    else [HexDigit(s[0]).value * 16 + HexDigit(s[1]).value] + BytesOfHex(s[2..])
  }

  function HexEncode(s: Str): Str
    requires IsAscii(s)
  {
    HexOfBytes(BytesOf(s))
  }

  function HexDecode(s: Str): Result<Str> {
    var r := StringOf(BytesOfHex(s));
    if r == Ok([]) then Err else r
  }

  function Encode(s: Str): Str
    requires IsVersionId(s)
  {
    if |s| == 27 then Base62Encode(s) else HexEncode(s)
  }

  function Decode(str: Str): Result<Str> {
    if |str| == 32 then
      var decoded := Base62Decoded(str);
      if decoded.Ok? && |decoded.value| != 27 then Err else decoded
    else if |str| > 32 then HexDecode(str)
    else Err
  }

  // ---------------------------------------------------------------------------
  // Round trips

  lemma {:induction false} ParsedBound(s: Str)
    requires IsDecimal(s)
    ensures ParseDecimal(s) < Power(10, |s|)
  {
    hide Append;
    hide Power;
    if s == [] {
      PowerZero(10);
    } else {
      ParsedBound(s[..|s|-1]);
      AppendBound(ParseDecimal(s[..|s|-1]), s[|s|-1] - 48, 10, |s| - 1);
    }
  }

  /** The digits of a parsed number at its width are the digits it was parsed from. */
  lemma {:induction false} FixedOfParsed(s: Str)
    requires IsDecimal(s)
    ensures Fixed(|s|, ParseDecimal(s)) == s
  {
    hide Append;
    if s != [] {
      var n := |s| - 1;
      FixedOfParsed(s[..n]);
      DividesAppend(ParseDecimal(s[..n]), s[n] - 48, 10);
      assert s == s[..n] + [s[n]];
    }
  }

  lemma PartRoundTrip(s: Str)
    requires |s| == 10 && IsDecimal(s)
    ensures var padded := Pad(EncodeInt(ParseDecimal(s)), 6);
            |padded| == 6 && IsBase62(padded) && Pad(Decimal(DecodeInt(padded)), 10) == s
  {
    hide Power;
    hide ParseDecimal;
    hide EncodeInt;
    hide DecodeInt;
    hide PadLeft;
    var n := ParseDecimal(s);
    ParsedBound(s);
    IntRoundTrip(n);
    FixedOfParsed(s);
    PadNumber(10, n);
  }

  lemma {:induction false} HexRoundTrip(bytes: seq<nat>)
    requires forall i :: 0 <= i < |bytes| ==> bytes[i] < 256
    ensures BytesOfHex(HexOfBytes(bytes)) == bytes
  {
    if bytes != [] {
      HexRoundTrip(bytes[1..]);
      assert HexOfBytes(bytes)[2..] == HexOfBytes(bytes[1..]);
      ByteRoundTrip(bytes[0]);
    }
  }

  lemma ByteRoundTrip(b: nat)
    requires b < 256
    ensures HexDigit(HexChar(b / 16)) == Some(b / 16) && HexDigit(HexChar(b % 16)) == Some(b % 16)
    ensures (b / 16) * 16 + b % 16 == b
  {
  }

  lemma StringOfBytes(s: Str)
    requires IsAscii(s)
    ensures StringOf(BytesOf(s)) == Ok(s)
  {
    assert StringOf(BytesOf(s)).value == s;
  }

  /** What is no number comes back as zeros. */
  lemma NoNumberIsLost()
    ensures var padded := Pad([], 6);
            |padded| == 6 && IsBase62(padded) && Pad(Decimal(DecodeInt(padded)), 10) == Repeat(48, 10)
  {
    IntRoundTrip(0);
    assert Pad([], 6) == Repeat(48, 6) == Pad(EncodeInt(0), 6);
    assert Decimal(0) == [48];
    PadLeftZeros(Decimal(0), 10);
    assert Repeat(48, 10) == Repeat(48, 9) + [48];
  }

  lemma Base62RoundTrip(s: Str)
    requires IsVersionId(s) && |s| == 27
    ensures |Base62Encode(s)| == 32
    ensures s[20] != 0 ==>
              Base62Decoded(Base62Encode(s))
              == Ok(s[..10] + (if IsDecimal(s[10..20]) then s[10..20] else Repeat(48, 10)) + s[20..])
    ensures s[20] == 0 ==>
              Base62Decoded(Base62Encode(s)).Ok? ==> |Base62Decoded(Base62Encode(s)).value| != 27
  {
    hide Pad;
    hide EncodeInt;
    hide DecodeInt;
    hide EncodeBytes;
    hide DecodeBytes;
    hide ParseDecimal;
    hide Decimal;
    hide Leading;
    hide Base62Digit;
    hide StringOf;
    hide Repeat;
    var p1, p2, p3 := s[..10], s[10..20], s[20..];
    var e1, e2 := Pad(EncodePart(p1), 6), Pad(EncodePart(p2), 6);
    var e3 := Pad(EncodeBytes(BytesOf(p3)), 20);
    PartRoundTrip(p1);
    if IsDecimal(p2) {
      PartRoundTrip(p2);
    } else {
      NoNumberIsLost();
    }
    if s[20] != 0 {
      BytesRoundTrip(BytesOf(p3));
      StringOfBytes(p3);
    } else {
      NullBytesAreLost(BytesOf(p3));
      PadWidth(10);
    }
    var str := e1 + e2 + e3;
    assert str[0..6] == e1 && str[6..12] == e2 && str[12..] == e3;
    if s[20] == 0 {
      var rest := e3[Leading(e3, 48)..];
      StringLength(DecodeBytes(rest));
    }
  }

  lemma StringLength(bytes: seq<nat>)
    ensures StringOf(bytes).Ok? ==> |StringOf(bytes).value| == |bytes|
  {
  }

  lemma PadWidth(width: nat)
    requires width > 0
    ensures forall v: Str {:trigger Pad(v, width)} :: |Pad(v, width)| == width
  {
  }

  /** Leading null bytes are taken off with the padding. */
  lemma NullBytesAreLost(bytes: seq<nat>)
    requires |bytes| == 7 && bytes[0] == 0 && forall i :: 0 <= i < |bytes| ==> bytes[i] < 256
    ensures var padded := Pad(EncodeBytes(bytes), 20);
            && |padded| == 20 && IsBase62(padded)
            && var rest := padded[Leading(padded, 48)..];
               IsBase62(rest) && |DecodeBytes(rest)| < 7
  {
    Capacities();
    SmallerPower();
    hide Power;
    hide Chars;
    hide DigitsIn;
    hide Base62Digit;
    hide Digits;
    hide PadLeft;
    var n := ValueOf(bytes, 256);
    var z := Leading(bytes, 0);
    ValueBound(bytes, 256);
    ValueBound(bytes[1..], 256);
    assert Zeros(1) + bytes[1..] == bytes by {
      assert Zeros(1) == [0];
    }
    LeadingZeros(1, bytes[1..], 256);
    hide ValueOf;
    DigitsBound(n, 62, 10);
    var ds := Digits(n, 62);
    CharsAreDigits(ds);
    ValueOfDigits(n, 62);
    var e := EncodeBytes(bytes);
    ZerosAreDigits(z, Chars(ds));
    LeadingZeros(z, ds, 62);
    PadLeftZeros(e, 20);
    ZerosAreDigits(20 - |e|, e);
    LeadingZeros(20 - |e|, DigitsIn(e), 62);
    var padded := Pad(e, 20);
    StrippedValue(padded);
    DigitsBound(n, 256, 6);
  }

  lemma SmallerPower()
    ensures Power(256, 7) == 256 * Power(256, 6)
  {
  }

  /** Taking off leading '0's leaves the value unchanged, and no leading zero. */
  lemma StrippedValue(s: Str)
    requires IsBase62(s)
    ensures var rest := s[Leading(s, 48)..];
            IsBase62(rest) && DecodeBytes(rest) == Digits(ValueOf(DigitsIn(s), 62), 256)
  {
    hide ValueOf;
    hide Digits;
    hide DigitsIn;
    var n := Leading(s, 48);
    var rest := s[n..];
    forall i | 0 <= i < |s|
      ensures Base62Digit(s[i]).value == 0 <==> s[i] == 48
    {
    }
    hide Base62Digit;
    assert DigitsIn(s) == Zeros(n) + DigitsIn(rest);
    LeadingZeros(n, DigitsIn(rest), 62);
    if rest != [] {
      NoLeading(DigitsIn(rest), 0);
    }
    assert Leading(DigitsIn(rest), 0) == 0 && Zeros(0) == [];
  }

  /** Version ids of 27 characters are encoded in exactly 32. */
  lemma EncodedLength(s: Str)
    requires IsVersionId(s)
    ensures |s| == 27 ==> |Encode(s)| == 32
    ensures |s| > 27 ==> |Encode(s)| == 2 * |s|
  {
    if |s| == 27 {
      Base62RoundTrip(s);
    }
  }

  /**
    Decoding an encoded version id gives the id back, except for an id of 27 characters
    whose replication group starts with a null character, which is refused, or whose position
    is negative, which comes back as another one.
   */
  lemma VersionIdRoundTrip(s: Str)
    requires IsVersionId(s)
    ensures Decode(Encode(s)) == Ok(s) <==> |s| > 27 || (s[20] != 0 && IsDecimal(s[10..20]))
  {
    hide Base62Encode;
    hide Base62Decoded;
    hide BytesOfHex;
    hide HexOfBytes;
    hide StringOf;
    hide BytesOf;
    hide IsSigned;
    EncodedLength(s);
    if |s| == 27 {
      Base62RoundTrip(s);
      OtherPosition(s);
    } else {
      HexRoundTrip(BytesOf(s));
      StringOfBytes(s);
    }
  }

  /** With zeros in the place of a signed position it is another id. */
  lemma OtherPosition(s: Str)
    requires |s| == 27
    ensures s == s[..10] + s[10..20] + s[20..]
    ensures !IsDecimal(s[10..20]) ==> s != s[..10] + Repeat(48, 10) + s[20..]
  {
    var zeros := Repeat(48, 10);
    assert (s[..10] + zeros + s[20..])[10..20] == zeros;
  }

  // ---------------------------------------------------------------------------
  // Generated ids

  lemma {:induction false} FixedIsDecimal(width: nat, n: nat)
    ensures |Fixed(width, n)| == width && IsDecimal(Fixed(width, n))
  {
    if width > 0 {
      FixedIsDecimal(width - 1, n / 10);
    }
  }

  /** The numbers of a generated id: the position is signed for the first negative one. */
  lemma NumbersOf(stamp: Stamp)
    requires Representable(stamp)
    ensures var t := PadLeft(IntToString(MAX_TS - stamp.ts), Repeat(48, LENGTH_TS));
            var q := PadLeft(IntToString(MAX_SEQ - stamp.seqNo), Repeat(48, LENGTH_SEQ));
            && |t| == 14 && IsDecimal(t) && |q| == 6
            && if stamp.seqNo <= MAX_SEQ then IsDecimal(q) else q == [48, 48, 48, 48, 45, 49]
  {
    hide Power;
    PowersOfTen();
    PadNumber(LENGTH_TS, MAX_TS - stamp.ts);
    FixedIsDecimal(LENGTH_TS, MAX_TS - stamp.ts);
    if stamp.seqNo <= MAX_SEQ {
      PositionDigits(stamp.seqNo);
      FixedIsDecimal(LENGTH_SEQ, MAX_SEQ - stamp.seqNo);
    } else {
      NegativePosition(1);
    }
  }

  /**
    Exactly when a generated id survives encoding: when it has more than its replication
    group, or its position is not negative and the group does not start with a null
    character.
   */
  lemma GeneratedRoundTrip(stamp: Stamp, rg: Str, info: Str)
    requires Representable(stamp) && IsAscii(rg) && IsAscii(info)
    ensures var id := VersionIdOf(stamp, rg, info);
            && IsVersionId(id)
            && (Decode(Encode(id)) == Ok(id) <==> info != [] || (stamp.seqNo <= MAX_SEQ && (rg != [] ==> rg[0] != 0)))
  {
    hide Encode;
    hide Decode;
    hide IntToString;
    hide PadLeft;
    NumbersOf(stamp);
    var t := PadLeft(IntToString(MAX_TS - stamp.ts), Repeat(48, LENGTH_TS));
    var q := PadLeft(IntToString(MAX_SEQ - stamp.seqNo), Repeat(48, LENGTH_SEQ));
    var group := PadRight(rg, Repeat(32, LENGTH_RG));
    var id := VersionIdOf(stamp, rg, info);
    assert id == t + q + group + info;
    assert id[..10] == t[..10] && id[10..20] == t[10..] + q && id[20] == group[0];
    if stamp.seqNo > MAX_SEQ {
      var part := id[10..20];
      assert part[8] == 45 && part[9] == 49;
      assert IsDecimal(part[..8]) && IsDecimal(part[9..]);
      assert IsSigned(part) && !IsDecimal(part);
    }
    VersionIdRoundTrip(id);
  }
}
