/**
  What is in a version id and in its encodings: the id holds its moment, position, group and
  info; the characters of an encoded id are the numerals of the parts of the id.
 */
module VersionIdDigits {
  import opened Strings
  import opened Keys
  import opened VersionIds
  import opened VersionIdEncoding

  // ---------------------------------------------------------------------------
  // What is in an id

  /** Where the parts of an id are: its moment and position as decimal numbers, then the group
      padded with spaces, then the info. */
  lemma IdHasParts(stamp: Stamp, rg: Str, info: Str)
    requires 0 <= stamp.ts <= MAX_TS && 0 <= stamp.seqNo <= MAX_SEQ
    ensures var id := VersionIdOf(stamp, rg, info);
            && |id| == 27 + |info|
            && (forall i :: 0 <= i < 20 ==> 48 <= id[i] < 58)
            && IsDecimal(id[..14]) && ParseDecimal(id[..14]) == MAX_TS - stamp.ts
            && IsDecimal(id[14..20]) && ParseDecimal(id[14..20]) == MAX_SEQ - stamp.seqNo
            && (forall i :: 0 <= i < 7 ==> id[20 + i] == if i < |rg| then rg[i] else 32)
            && id[27..] == info
  {
    PowersOfTen();
    PadNumber(LENGTH_TS, MAX_TS - stamp.ts);
    PadNumber(LENGTH_SEQ, MAX_SEQ - stamp.seqNo);
    FixedIsParsed(LENGTH_TS, MAX_TS - stamp.ts);
    FixedIsParsed(LENGTH_SEQ, MAX_SEQ - stamp.seqNo);
    GroupIs(rg);
    hide PadLeft;
    hide PadRight;
    hide IntToString;
    hide Fixed;
    hide ParseDecimal;
    hide Power;
    hide Repeat;
    PartsOfConcat(Fixed(LENGTH_TS, MAX_TS - stamp.ts), Fixed(LENGTH_SEQ, MAX_SEQ - stamp.seqNo),
                  PadRight(rg, Repeat(32, LENGTH_RG)), info);
  }

  lemma PartsOfConcat(a: Str, b: Str, c: Str, info: Str)
    requires |a| == 14 && |b| == 6 && |c| == 7 && IsDecimal(a) && IsDecimal(b)
    ensures var id := a + b + c + info;
            && |id| == 27 + |info| && id[..14] == a && id[14..20] == b && id[27..] == info
            && (forall i :: 0 <= i < 20 ==> 48 <= id[i] < 58)
            && forall i :: 0 <= i < 7 ==> id[20 + i] == c[i]
  {
  }

  /** Digits at a fixed width have the value of the number. */
  lemma {:induction false} FixedIsParsed(width: nat, n: nat)
    requires n < Power(10, width)
    ensures IsDecimal(Fixed(width, n)) && ParseDecimal(Fixed(width, n)) == n
  {
    if width > 0 {
      FixedIsParsed(width - 1, n / 10);
      var f := Fixed(width, n);
      assert f[..|f|-1] == Fixed(width - 1, n / 10);
    }
  }

  /** Ids differ if their moments, positions, padded groups or infos do, and only then. */
  lemma SameIdExactly(a: Stamp, b: Stamp, rg: Str, rg': Str, info: Str, info': Str)
    requires 0 <= a.ts <= MAX_TS && 0 <= a.seqNo <= MAX_SEQ && 0 <= b.ts <= MAX_TS && 0 <= b.seqNo <= MAX_SEQ
    ensures VersionIdOf(a, rg, info) == VersionIdOf(b, rg', info')
       <==> a == b && info == info' && PadRight(rg, Repeat(32, LENGTH_RG)) == PadRight(rg', Repeat(32, LENGTH_RG))
  {
    IdHasParts(a, rg, info);
    IdHasParts(b, rg', info');
    hide ParseDecimal;
    hide Repeat;
    GroupIs(rg);
    GroupIs(rg');
    var id, id' := VersionIdOf(a, rg, info), VersionIdOf(b, rg', info');
    var c, c' := PadRight(rg, Repeat(32, LENGTH_RG)), PadRight(rg', Repeat(32, LENGTH_RG));
    if id == id' {
      assert forall i :: 0 <= i < 7 ==> c[i] == id[20 + i] == c'[i];
      assert c == c';
    }
    if a == b && info == info' && c == c' {
      SameParts(a, rg, rg', info);
    }
  }

  lemma SameParts(a: Stamp, rg: Str, rg': Str, info: Str)
    requires PadRight(rg, Repeat(32, LENGTH_RG)) == PadRight(rg', Repeat(32, LENGTH_RG))
    ensures VersionIdOf(a, rg, info) == VersionIdOf(a, rg', info)
  {
  }

  lemma GroupIs(rg: Str)
    ensures var c := PadRight(rg, Repeat(32, LENGTH_RG));
            |c| == 7 && forall i :: 0 <= i < 7 ==> c[i] == if i < |rg| then rg[i] else 32
  {
  }

  // ---------------------------------------------------------------------------
  // The alphabet of base 62

  const DIGITS: string := "0123456789"
  const LOWER: string := "abcdefghijklmnopqrstuvwxyz"
  const UPPER: string := "ABCDEFGHIJKLMNOPQRSTUVWXYZ"

  /** The digits of base 62, in their order. */
  const BASE62: string := DIGITS + LOWER + UPPER

  lemma Alphabet(d: nat)
    requires d < 62
    ensures Base62Char(d) == BASE62[d] as int
  {
    assert d < 10 ==> BASE62[d] == DIGITS[d];
    assert 10 <= d < 36 ==> BASE62[d] == LOWER[d - 10];
    assert 36 <= d ==> BASE62[d] == UPPER[d - 36];
    Ascending(DIGITS, '0');
    Ascending(LOWER, 'a');
    Ascending(UPPER, 'A');
  }

  predicate IsAlphabet(s: string, from: char) {
    forall i :: 0 <= i < |s| ==> s[i] as int == from as int + i
  }

  lemma Ascending(s: string, from: char)
    requires (s == DIGITS && from == '0') || (s == LOWER && from == 'a') || (s == UPPER && from == 'A')
    ensures IsAlphabet(s, from)
  {
  }

  // ---------------------------------------------------------------------------
  // The numerals in an encoded id

  /** Padding with '0's changes no value. */
  lemma PaddedValue(e: Str, width: nat)
    requires IsBase62(e) && |e| <= width
    ensures |Pad(e, width)| == width && IsBase62(Pad(e, width))
    ensures ValueOf(DigitsIn(Pad(e, width)), 62) == ValueOf(DigitsIn(e), 62)
  {
    hide ValueOf;
    hide DigitsIn;
    hide PadLeft;
    hide Base62Digit;
    PadLeftZeros(e, width);
    ZerosAreDigits(width - |e|, e);
    LeadingZeros(width - |e|, DigitsIn(e), 62);
  }

  /** Bytes are encoded as the number that they are the digits of in base 256. */
  lemma BytesAreNumeral(bytes: seq<nat>)
    requires |bytes| == 7 && forall i :: 0 <= i < |bytes| ==> bytes[i] < 256
    ensures var e := Pad(EncodeBytes(bytes), 20);
            |e| == 20 && IsBase62(e) && ValueOf(DigitsIn(e), 62) == ValueOf(bytes, 256)
  {
    Capacities();
    hide Power;
    hide Chars;
    hide DigitsIn;
    hide Base62Digit;
    hide Digits;
    hide PadLeft;
    hide ValueOf;
    var n, z := ValueOf(bytes, 256), Leading(bytes, 0);
    var ds := Digits(n, 62);
    ValueBound(bytes, 256);
    DigitsBound(n, 62, 10);
    CharsAreDigits(ds);
    ValueOfDigits(n, 62);
    ZerosAreDigits(z, Chars(ds));
    LeadingZeros(z, ds, 62);
    PaddedValue(EncodeBytes(bytes), 20);
  }

  /** The number that `s` is the numeral of in base 62; each character is a digit by its place
      in the alphabet. */
  ghost predicate IsNumeral(s: Str, n: nat) {
    && IsBase62(s) && ValueOf(DigitsIn(s), 62) == n
    && forall i :: 0 <= i < |s| ==> DigitsIn(s)[i] < 62 && s[i] == BASE62[DigitsIn(s)[i]] as int
  }

  lemma DigitOfChar(c: CodeUnit)
    requires Base62Digit(c).Some?
    ensures |BASE62| == 62 && c == BASE62[Base62Digit(c).value] as int
  {
    hide BASE62;
    AlphabetSize();
    Alphabet(Base62Digit(c).value);
  }

  lemma AlphabetSize()
    ensures |BASE62| == 62
  {
  }

  lemma DigitsOfChars(s: Str)
    requires IsBase62(s)
    ensures forall i :: 0 <= i < |s| ==> DigitsIn(s)[i] < 62 && s[i] == BASE62[DigitsIn(s)[i]] as int
  {
    hide BASE62;
    hide Base62Digit;
    AlphabetSize();
    forall i | 0 <= i < |s|
      ensures DigitsIn(s)[i] < 62 && s[i] == BASE62[DigitsIn(s)[i]] as int
    {
      DigitOfChar(s[i]);
    }
  }

  /**
    An encoded id of 27 characters is made of three numerals in base 62: six characters for
    each of the two halves of its twenty digits, and twenty for the bytes of its group.
   */
  lemma EncodedIsNumerals(s: Str)
    requires IsVersionId(s) && |s| == 27 && IsDecimal(s[10..20])
    ensures var e := Encode(s);
            && |e| == 32
            && IsNumeral(e[..6], ParseDecimal(s[..10]))
            && IsNumeral(e[6..12], ParseDecimal(s[10..20]))
            && IsNumeral(e[12..], ValueOf(BytesOf(s[20..]), 256))
  {
    hide Pad;
    hide EncodeInt;
    hide EncodeBytes;
    hide ParseDecimal;
    hide ValueOf;
    hide DigitsIn;
    hide Base62Digit;
    hide Power;
    hide BASE62;
    var p1, p2, p3 := s[..10], s[10..20], s[20..];
    var e1, e2, e3 := Pad(EncodePart(p1), 6), Pad(EncodePart(p2), 6), Pad(EncodeBytes(BytesOf(p3)), 20);
    ParsedBound(p1);
    ParsedBound(p2);
    IntRoundTrip(ParseDecimal(p1));
    IntRoundTrip(ParseDecimal(p2));
    BytesAreNumeral(BytesOf(p3));
    var e := e1 + e2 + e3;
    assert e[..6] == e1 && e[6..12] == e2 && e[12..] == e3;
    DigitsOfChars(e1);
    DigitsOfChars(e2);
    DigitsOfChars(e3);
  }

  /** A longer id is encoded as two hexadecimal digits for each character. */
  lemma {:induction false} HexIsPairs(s: Str, i: nat)
    requires IsAscii(s) && i < |s|
    ensures var e := HexEncode(s);
            && |e| == 2 * |s| && HexDigit(e[2 * i]).Some? && HexDigit(e[2 * i + 1]).Some?
            && s[i] == HexDigit(e[2 * i]).value * 16 + HexDigit(e[2 * i + 1]).value
            && !(65 <= e[2 * i] < 71) && !(65 <= e[2 * i + 1] < 71)
    decreases |s|
  {
    if i > 0 {
      HexIsPairs(s[1..], i - 1);
    } else {
      ByteRoundTrip(s[0]);
    }
  }
}
