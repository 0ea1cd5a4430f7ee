/** Characters by number: UTF-8 and UTF-16 read back, and how a text spelled in escapes reads as the text spelled raw. */
module CodePoints {
  import opened Bytes
  import opened JsonText
  import opened Json
  import opened JsonPieces
  import opened Grammar
  import opened GrammarReading
  import Utf8

  // ---------- UTF-8: RFC 3629 ----------

  /** The number a well-formed front stands for: what its first byte has above its mark, and six bits of each byte after it. */
  function DecodeRune(s: Bytes): (r: nat)
    requires Utf8.RuneLength(s) > 0
  {
    match Utf8.RuneLength(s)
    case 1 => s[0]
    case 2 => Six(s[0] - 0xC0, s[1])
    case 3 => Six(Six(s[0] - 0xE0, s[1]), s[2])
    case _ => Six(Six(Six(s[0] - 0xF0, s[1]), s[2]), s[3])
  }

  /** Six more bits. */
  function Six(high: nat, b: Byte): nat
    requires b >= 0x80
  {
    high * 64 + (b - 0x80)
  }

  lemma SixApart(high: nat, b: Byte)
    requires 0x80 <= b <= 0xBF
    ensures Six(high, b) / 64 == high && Six(high, b) % 64 == b - 0x80
  {
  }

  lemma SixTogether(r: nat)
    ensures Six(r / 64, 0x80 + r % 64) == r
    ensures r / 4096 == r / 64 / 64 && r / 262144 == r / 64 / 64 / 64
  {
  }

  /** Every scalar value is read back from its encoding. */
  lemma DecodeEncode(r: nat)
    requires Utf8.Scalar(r)
    ensures DecodeRune(Utf8.Encode(r)) == r
  {
    hide Six;
    SixTogether(r);
    SixTogether(r / 64);
    SixTogether(r / 4096);
  }

  /** And every well-formed front is the encoding of the scalar value it stands for, so overlong forms and surrogates are none. */
  lemma EncodeDecode(s: Bytes)
    requires Utf8.RuneLength(s) > 0
    ensures Utf8.Scalar(DecodeRune(s)) && Utf8.Encode(DecodeRune(s)) == s[..Utf8.RuneLength(s)]
  {
    match Utf8.RuneLength(s) {
      case 1 => assert s[..1] == [s[0]];
      case 2 => DecodeTwo(s);
      case 3 => DecodeThree(s);
      case _ => DecodeFour(s);
    }
  }

  lemma DecodeTwo(s: Bytes)
    requires Utf8.RuneLength(s) == 2
    ensures Utf8.Scalar(DecodeRune(s)) && Utf8.Encode(DecodeRune(s)) == s[..2]
  {
    SixApart(s[0] - 0xC0, s[1]);
    assert s[..2] == [s[0], s[1]];
  }

  lemma DecodeThree(s: Bytes)
    requires Utf8.RuneLength(s) == 3
    ensures Utf8.Scalar(DecodeRune(s)) && Utf8.Encode(DecodeRune(s)) == s[..3]
  {
    var high := Six(s[0] - 0xE0, s[1]);
    SixApart(s[0] - 0xE0, s[1]);
    SixApart(high, s[2]);
    SixTogether(DecodeRune(s));
    assert s[..3] == [s[0], s[1], s[2]];
  }

  lemma DecodeFour(s: Bytes)
    requires Utf8.RuneLength(s) == 4
    ensures Utf8.Scalar(DecodeRune(s)) && Utf8.Encode(DecodeRune(s)) == s[..4]
  {
    var high := Six(s[0] - 0xF0, s[1]);
    var higher := Six(high, s[2]);
    SixApart(s[0] - 0xF0, s[1]);
    SixApart(high, s[2]);
    SixApart(higher, s[3]);
    SixTogether(DecodeRune(s));
    assert s[..4] == [s[0], s[1], s[2], s[3]];
  }

  // ---------- UTF-16: section 7 of RFC 8259 ----------

  function HighOf(r: nat): nat
    requires 0x10000 <= r <= 0x10FFFF
  {
    0xD800 + (r - 0x10000) / 0x400
  }

  function LowOf(r: nat): nat
    requires 0x10000 <= r <= 0x10FFFF
  {
    0xDC00 + (r - 0x10000) % 0x400
  }

  /** A character past U+FFFF is what its two halves combine to. */
  lemma HalvesCombine(r: nat)
    requires 0x10000 <= r <= 0x10FFFF
    ensures HighSurrogate(HighOf(r)) && LowSurrogate(LowOf(r)) && Combine(HighOf(r), LowOf(r)) == r
  {
  }

  /** And any two halves are those of what they combine to. */
  lemma CombinedHalves(high: nat, low: nat)
    requires HighSurrogate(high) && LowSurrogate(low)
    ensures 0x10000 <= Combine(high, low) <= 0x10FFFF
    ensures HighOf(Combine(high, low)) == high && LowOf(Combine(high, low)) == low
  {
  }

  /** The units that are no character of their own are the halves. */
  lemma SurrogatesAreHalves(unit: nat)
    ensures Utf8.Surrogate(unit) <==> HighSurrogate(unit) || LowSurrogate(unit)
    ensures !(HighSurrogate(unit) && LowSurrogate(unit))
  {
  }

  // ---------- Escapes ----------

  const LOWER := Ascii("0123456789abcdef")
  const UPPER := Ascii("0123456789ABCDEF")

  lemma DigitPlaces(n: nat)
    requires n < 16
    ensures LOWER[n] == (if n < 10 then 0x30 + n else 0x57 + n) && UPPER[n] == (if n < 10 then 0x30 + n else 0x37 + n)
  {
    assert n in {0, 1, 2, 3, 4, 5, 6, 7, 8, 9, 10, 11, 12, 13, 14, 15};
  }

  /** A hexadecimal digit of either case, and nothing else, has the value of its place. */
  lemma HexDigits(b: Byte, n: nat)
    ensures HexValue(b) == Some(n) <==> n < 16 && (b == LOWER[n] || b == UPPER[n])
  {
    if n < 16 {
      DigitPlaces(n);
    }
  }

  lemma NoHexDigit(b: Byte)
    ensures HexValue(b).None? <==> forall n :: 0 <= n < 16 ==> b != LOWER[n] && b != UPPER[n]
  {
    if HexValue(b).Some? {
      HexDigits(b, HexValue(b).value);
    }
    forall n | 0 <= n < 16 ensures HexValue(b).None? ==> b != LOWER[n] && b != UPPER[n] {
      HexDigits(b, n);
    }
  }

  /** Four lowercase digits. */
  function Quad(unit: nat): (quad: Bytes)
    requires unit < 0x10000
    ensures |quad| == 4
  {
    [LOWER[unit / 4096], LOWER[unit / 256 % 16], LOWER[unit / 16 % 16], LOWER[unit % 16]]
  }

  lemma QuadReads(unit: nat)
    requires unit < 0x10000
    ensures HexQuad(Quad(unit)) == Some(unit)
  {
    hide HexValue;
    var a, b, c, d := unit / 4096, unit / 256 % 16, unit / 16 % 16, unit % 16;
    HexDigits(LOWER[a], a);
    HexDigits(LOWER[b], b);
    HexDigits(LOWER[c], c);
    HexDigits(LOWER[d], d);
    FourDigits(unit);
  }

  lemma FourDigits(unit: nat)
    ensures unit / 4096 * 4096 + unit / 256 % 16 * 256 + unit / 16 % 16 * 16 + unit % 16 == unit
  {
    assert unit / 256 == unit / 16 / 16 && unit / 4096 == unit / 256 / 16;
  }

  /** The letter of a two-byte escape and the character it is for: section 7 of RFC 8259. */
  const SHORT_ESCAPES: map<char, nat> :=
    map['"' := 0x22, '\\' := 0x5C, '/' := 0x2F, 'b' := 0x08, 'f' := 0x0C, 'n' := 0x0A, 'r' := 0x0D, 't' := 0x09]

  lemma ShortEscapesAre(c: char)
    requires c < 128 as char
    ensures ShortEscape(c as int) == if c in SHORT_ESCAPES then Some(SHORT_ESCAPES[c]) else None
  {
  }

  // ---------- One text, spelled two ways ----------

  /** A character in \u escapes: one for its number, or one for each of its halves. */
  function Escaped(r: nat): (c: CharSpelling)
    requires Utf8.Scalar(r)
  {
    if r < 0x10000 then Unit(Quad(r)) else Pair(Quad(HighOf(r)), Quad(LowOf(r)))
  }

  lemma EscapedMeans(r: nat)
    requires Utf8.Scalar(r)
    ensures CharOk(Escaped(r)) && CharMeaning(Escaped(r)) == Utf8.Encode(r)
  {
    hide HexQuad, Quad, Utf8.Encode;
    if r < 0x10000 {
      QuadReads(r);
    } else {
      HalvesCombine(r);
      QuadReads(HighOf(r));
      QuadReads(LowOf(r));
    }
  }

  predicate Scalars(points: seq<nat>) {
    forall r <- points :: Utf8.Scalar(r)
  }

  /** The text of some characters in UTF-8. */
  function Encoded(points: seq<nat>): Bytes
    requires Scalars(points)
  {
    if points == [] then [] else Utf8.Encode(points[0]) + Encoded(points[1..])
  }

  function AllEscaped(points: seq<nat>): (chars: seq<CharSpelling>)
    requires Scalars(points)
    ensures |chars| == |points|
  {
    if points == [] then [] else [Escaped(points[0])] + AllEscaped(points[1..])
  }

  lemma {:induction false} AllEscapedMean(points: seq<nat>)
    requires Scalars(points)
    ensures CharsOk(AllEscaped(points)) && CharsMeaning(AllEscaped(points)) == Encoded(points)
  {
    hide CharOk, CharMeaning, Escaped, Utf8.Encode;
    if points != [] {
      var rest := points[1..];
      assert forall r <- rest :: r in points;
      AllEscapedMean(rest);
      EscapedMeans(points[0]);
      var chars := AllEscaped(points);
      assert chars[1..] == AllEscaped(rest);
      assert forall c <- chars :: c == Escaped(points[0]) || c in AllEscaped(rest);
    }
  }

  /** What may stand in a string as it is: anything but controls, the quote and the backslash. */
  predicate MayBeRaw(r: nat) {
    r >= 0x20 && r != 0x22 && r != 0x5C
  }

  function RawBytes(s: Bytes): (chars: seq<CharSpelling>)
    ensures |chars| == |s|
  {
    seq(|s|, i requires 0 <= i < |s| => Raw(s[i]))
  }

  lemma {:induction false} RawBytesMean(s: Bytes)
    requires forall b <- s :: b >= 0x20 && b != QUOTE && b != BACKSLASH
    ensures CharsOk(RawBytes(s)) && CharsMeaning(RawBytes(s)) == s && CharsText(RawBytes(s)) == s
  {
    if s != [] {
      assert forall b <- s[1..] :: b in s;
      RawBytesMean(s[1..]);
      assert RawBytes(s)[1..] == RawBytes(s[1..]);
      assert forall i :: 0 <= i < |s| ==> s[i] in s;
      assert s == [s[0]] + s[1..];
    }
  }

  lemma {:induction false} EncodedRaw(points: seq<nat>)
    requires Scalars(points) && forall r <- points :: MayBeRaw(r)
    ensures forall b <- Encoded(points) :: b >= 0x20 && b != QUOTE && b != BACKSLASH
  {
    if points != [] {
      assert points[0] in points && forall r <- points[1..] :: r in points;
      EncodedRaw(points[1..]);
    }
  }

  /** A document that is one string spelled so. */
  function StringDocument(chars: seq<CharSpelling>): Bytes {
    DocumentText(Document([], Quoted(chars), []))
  }

  /** Spelled in \u escapes, halves included, a text is read as its characters in UTF-8. */
  lemma EscapedReads(points: seq<nat>, rules: Rules)
    requires Scalars(points)
    ensures ParseDocument(StringDocument(AllEscaped(points)), rules) == Parsed(Text(Encoded(points)), [])
  {
    hide ParseDocument, CharsOk, CharsMeaning, Encoded;
    AllEscapedMean(points);
    var d := Document([], Quoted(AllEscaped(points)), []);
    DocumentRead(d, rules);
  }

  /** Spelled in escapes and spelled as it is, a text has one canonical form. */
  lemma EscapedIsRaw(points: seq<nat>, rules: Rules)
    requires Scalars(points) && forall r <- points :: MayBeRaw(r)
    ensures var raw := [QUOTE] + Encoded(points) + [QUOTE];
            && ParseDocument(raw, rules).Parsed? && ParseDocument(StringDocument(AllEscaped(points)), rules).Parsed?
            && Canonical(ParseDocument(raw, rules).value) == Canonical(ParseDocument(StringDocument(AllEscaped(points)), rules).value)
  {
    hide ParseDocument, CharsOk, CharsMeaning, CharsText, Encoded, Canonical;
    EscapedReads(points, rules);
    EncodedRaw(points);
    var chars := RawBytes(Encoded(points));
    RawBytesMean(Encoded(points));
    var d := Document([], Quoted(chars), []);
    DocumentRead(d, rules);
    assert DocumentText(d) == [QUOTE] + Encoded(points) + [QUOTE];
  }

  // ---------- The spelling that is printed ----------

  /** A spelling's bytes with its letters in lower case where they are hexadecimal digits. */
  function LowerCase(c: CharSpelling): Bytes {
    match c
    case Unit(quad) => [BACKSLASH, LETTER_U] + seq(|quad|, i requires 0 <= i < |quad| => if 0x41 <= quad[i] <= 0x5A then quad[i] + 0x20 else quad[i])
    case _ => CharText(c)
  }

  /** The spelling a text's ASCII is printed in is the shortest there is, its digits in lower case. */
  lemma ShortestSpelling(b: Byte, c: CharSpelling)
    requires b < 0x80 && CharOk(c) && CharMeaning(c) == [b]
    ensures |EscapeAscii(b)| <= |CharText(c)|
    ensures |EscapeAscii(b)| == |CharText(c)| ==> EscapeAscii(b) == LowerCase(c)
  {
    match c {
      case Raw(_) =>
      case Short(_) =>
      case Unit(quad) => LowerQuad(b, quad);
      case Pair(_, _) =>
    }
  }

  /** The digits of an ASCII character's number. */
  lemma LowerQuad(b: Byte, quad: Bytes)
    requires b < 0x80 && CharOk(Unit(quad)) && CharMeaning(Unit(quad)) == [b]
    ensures HexQuad(quad) == Some(b as nat) && LowerCase(Unit(quad)) == [BACKSLASH, LETTER_U, 0x30, 0x30, HexDigit(b / 16), HexDigit(b % 16)]
  {
    var r := HexQuad(quad).value;
    DecodeEncode(r);
    assert r == b;
    assert HexValue(quad[0]) == Some(0) && HexValue(quad[1]) == Some(0);
    assert HexValue(quad[2]) == Some(b / 16) && HexValue(quad[3]) == Some(b % 16);
  }

  /** Every ASCII character has the spelling it is printed in. */
  lemma PrintedSpelling(b: Byte) returns (c: CharSpelling)
    requires b < 0x80
    ensures CharOk(c) && CharMeaning(c) == [b] && CharText(c) == EscapeAscii(b)
  {
    if Literal(b) {
      c := Raw(b);
    } else if |EscapeAscii(b)| == 2 {
      c := Short(EscapeAscii(b)[1]);
    } else {
      c := Unit([0x30, 0x30, HexDigit(b / 16), HexDigit(b % 16)]);
    }
  }

  /** The characters the two printers name by their bytes. */
  lemma NamedCharacters()
    ensures REPLACEMENT == Utf8.Encode(0xFFFD)
    ensures LINE_SEPARATOR == Utf8.Encode(0x2028) && PARAGRAPH_SEPARATOR == Utf8.Encode(0x2029)
  {
  }
}
