/** JSON strings and numbers as bytes: RFC 8259 sections 6 and 7, and the two escapings the program prints. */
module JsonText {
  import opened Bytes
  import Utf8

  const QUOTE: Byte := 0x22
  const BACKSLASH: Byte := 0x5C
  const LETTER_U: Byte := 0x75

  /** U+FFFD, which both printers put in place of a byte that is not UTF-8. */
  const REPLACEMENT: Bytes := [0xEF, 0xBF, 0xBD]
  const LINE_SEPARATOR: Bytes := [0xE2, 0x80, 0xA8]
  const PARAGRAPH_SEPARATOR: Bytes := [0xE2, 0x80, 0xA9]

  // ---------- Escaping ----------

  function HexDigit(n: nat): (b: Byte)
    requires n < 16
    ensures HexValue(b) == Some(n)
  {
    if n < 10 then 0x30 + n else 0x61 + n - 10
  }

  function HexValue(b: Byte): (n: Option<nat>)
    ensures n.Some? ==> n.value < 16
  {
    if 0x30 <= b <= 0x39 then Some(b - 0x30)
    else if 0x61 <= b <= 0x66 then Some(b - 0x61 + 10)
    else if 0x41 <= b <= 0x46 then Some(b - 0x41 + 10)
    else None
  }

  /** ASCII bytes both printers write as they are. */
  predicate Literal(b: Byte) {
    0x20 <= b < 0x80 && b != QUOTE && b != BACKSLASH
  }

  function EscapeAscii(b: Byte): Bytes
    requires b < 0x80
  {
    if Literal(b) then [b]
    else if b == QUOTE || b == BACKSLASH then [BACKSLASH, b]
    else if b == 0x08 then [BACKSLASH, 0x62]
    else if b == 0x0C then [BACKSLASH, 0x66]
    else if b == 0x0A then [BACKSLASH, 0x6E]
    else if b == 0x0D then [BACKSLASH, 0x72]
    else if b == 0x09 then [BACKSLASH, 0x74]
    else [BACKSLASH, LETTER_U, 0x30, 0x30, HexDigit(b / 16), HexDigit(b % 16)]
  }

  /** What the canonical form puts between the quotes for a decoded text. */
  function CanonicalChars(text: Bytes): Bytes
    decreases |text|
  {
    if text == [] then []
    else if text[0] < 0x80 then EscapeAscii(text[0]) + CanonicalChars(text[1..])
    else
      var n := Utf8.RuneLength(text);
      if n == 0 then REPLACEMENT + CanonicalChars(text[1..])
      else text[..n] + CanonicalChars(text[n..])
  }

  function CanonicalString(text: Bytes): Bytes {
    [QUOTE] + CanonicalChars(text) + [QUOTE]
  }

  // ---------- Decoding ----------

  datatype StringParse =
    | Decoded(text: Bytes, rest: Bytes)
    | Malformed
    | LoneSurrogate

  function Prepend(front: Bytes, parse: StringParse): StringParse {
    match parse
    case Decoded(text, rest) => Decoded(front + text, rest)
    case Malformed => Malformed
    case LoneSurrogate => LoneSurrogate
  }

  /** The four hexadecimal digits at the front of s. */
  function HexQuad(s: Bytes): (unit: Option<nat>)
    ensures unit.Some? ==> |s| >= 4 && unit.value < 0x10000
  {
    if |s| < 4 then None
    else
      match (HexValue(s[0]), HexValue(s[1]), HexValue(s[2]), HexValue(s[3]))
      case (Some(a), Some(b), Some(c), Some(d)) => Some(a * 4096 + b * 256 + c * 16 + d)
      case _ => None
  }

  /** The byte a two-byte escape stands for. */
  function ShortEscape(b: Byte): Option<Byte> {
    if b == QUOTE || b == BACKSLASH || b == 0x2F then Some(b)
    else if b == 0x62 then Some(0x08)
    else if b == 0x66 then Some(0x0C)
    else if b == 0x6E then Some(0x0A)
    else if b == 0x72 then Some(0x0D)
    else if b == 0x74 then Some(0x09)
    else None
  }

  predicate HighSurrogate(unit: nat) {
    0xD800 <= unit <= 0xDBFF
  }

  predicate LowSurrogate(unit: nat) {
    0xDC00 <= unit <= 0xDFFF
  }

  function Combine(high: nat, low: nat): (r: nat)
    requires HighSurrogate(high) && LowSurrogate(low)
    ensures Utf8.Scalar(r) && r >= 0x10000
  {
    0x10000 + (high - 0xD800) * 0x400 + (low - 0xDC00)
  }

  /** The low half an escape pair must go on with, right after its high half. */
  function LowHalf(high: nat, s: Bytes): Option<nat> {
    if !HighSurrogate(high) || |s| < 6 || s[0] != BACKSLASH || s[1] != LETTER_U then None
    else
      match HexQuad(s[2..])
      case Some(low) => if LowSurrogate(low) then Some(low) else None
      case None => None
  }

  /** A string's text, read from just after its opening quote. */
  function DecodeChars(s: Bytes): (parse: StringParse)
    ensures parse.Decoded? ==> |parse.rest| < |s|
    decreases |s|
  {
    if s == [] then Malformed
    else if s[0] == QUOTE then Decoded([], s[1..])
    else if s[0] == BACKSLASH then
      if |s| < 2 then Malformed
      else if s[1] == LETTER_U then DecodeUnit(s)
      else
        match ShortEscape(s[1])
        case Some(b) => Prepend([b], DecodeChars(s[2..]))
        case None => Malformed
    else if s[0] < 0x20 then Malformed
    else Prepend([s[0]], DecodeChars(s[1..]))
  }

  /** The same, from a \u escape. */
  function DecodeUnit(s: Bytes): (parse: StringParse)
    requires |s| >= 2 && s[0] == BACKSLASH && s[1] == LETTER_U
    ensures parse.Decoded? ==> |parse.rest| < |s|
    decreases |s|, 0
  {
    match HexQuad(s[2..])
    case None => Malformed
    case Some(unit) =>
      if !Utf8.Surrogate(unit) then Prepend(Utf8.Encode(unit), DecodeChars(s[6..]))
      else
        match LowHalf(unit, s[6..])
        case None => LoneSurrogate
        case Some(low) => Prepend(Utf8.Encode(Combine(unit, low)), DecodeChars(s[12..]))
  }

  // ---------- Numbers ----------

  predicate Digit(b: Byte) {
    0x30 <= b <= 0x39
  }

  /** How many digits s starts with. */
  function Digits(s: Bytes): (n: nat)
    ensures n <= |s|
    ensures forall i :: 0 <= i < n ==> Digit(s[i])
    ensures n < |s| ==> !Digit(s[n])
  {
    if s == [] || !Digit(s[0]) then 0 else 1 + Digits(s[1..])
  }

  /** Where the integer part ends: a single zero, or digits that do not start with one. */
  function IntegerEnd(s: Bytes): (end: Option<nat>)
    ensures end.Some? ==> 0 < end.value <= |s|
  {
    var start := if s != [] && s[0] == 0x2D then 1 else 0;
    if start >= |s| then None
    else if s[start] == 0x30 then Some(start + 1)
    else if 0x31 <= s[start] <= 0x39 then Some(start + Digits(s[start..]))
    else None
  }

  function FractionEnd(s: Bytes, i: nat): (end: Option<nat>)
    requires i <= |s|
    ensures end.Some? ==> i <= end.value <= |s|
  {
    if i == |s| || s[i] != 0x2E then Some(i)
    else if Digits(s[i + 1..]) == 0 then None
    else Some(i + 1 + Digits(s[i + 1..]))
  }

  function ExponentDigitsStart(s: Bytes, i: nat): (start: nat)
    requires i < |s|
    ensures i < start <= |s|
  {
    if i + 1 < |s| && (s[i + 1] == 0x2B || s[i + 1] == 0x2D) then i + 2 else i + 1
  }

  function ExponentEnd(s: Bytes, i: nat): (end: Option<nat>)
    requires i <= |s|
    ensures end.Some? ==> i <= end.value <= |s|
  {
    if i == |s| || (s[i] != 0x65 && s[i] != 0x45) then Some(i)
    else
      var start := ExponentDigitsStart(s, i);
      if Digits(s[start..]) == 0 then None else Some(start + Digits(s[start..]))
  }

  /** Where the number token at the front of s ends: section 6 of RFC 8259, read greedily. */
  function NumberEnd(s: Bytes): (end: Option<nat>)
    ensures end.Some? ==> 0 < end.value <= |s|
  {
    match IntegerEnd(s)
    case None => None
    case Some(i) =>
      match FractionEnd(s, i)
      case None => None
      case Some(f) => ExponentEnd(s, f)
  }

  /** Whether a token carries a decimal point or an exponent. */
  predicate Inexact(token: Bytes) {
    exists i :: 0 <= i < |token| && (token[i] == 0x2E || token[i] == 0x65 || token[i] == 0x45)
  }

  function Power(base: nat, n: nat): nat {
    if n == 0 then 1 else base * Power(base, n - 1)
  }

  /** The digits of s as one decimal number, other bytes passed over. */
  function DigitsValue(s: Bytes): nat {
    if s == [] then 0
    else
      var last := s[|s| - 1];
      var front := DigitsValue(s[..|s| - 1]);
      if Digit(last) then front * 10 + (last - 0x30) else front
  }

  /** The digits of an exponent; the float parser stops reading them once past ten thousand. */
  function ExponentValue(s: Bytes): nat {
    if s == [] then 0
    else
      var last := s[|s| - 1];
      var front := ExponentValue(s[..|s| - 1]);
      if Digit(last) && front < 10000 then front * 10 + (last - 0x30) else front
  }

  function IndexOf(s: Bytes, wanted: set<Byte>): (i: nat)
    ensures i <= |s|
  {
    if s == [] || s[0] in wanted then 0 else 1 + IndexOf(s[1..], wanted)
  }

  /** 2^1024 - 2^970: what rounds to it or above is no finite 64-bit float. */
  const OVERFLOW: nat := 0xFFFF_FFFF_FFFF_FC00_0000_0000_0000_0000_0000_0000_0000_0000_0000_0000_0000_0000_0000_0000_0000_0000_0000_0000_0000_0000_0000_0000_0000_0000_0000_0000_0000_0000_0000_0000_0000_0000_0000_0000_0000_0000_0000_0000_0000_0000_0000_0000_0000_0000_0000_0000_0000_0000_0000_0000_0000_0000_0000_0000_0000_0000_0000_0000_0000_0000

  /** Whether a number token parses to a finite 64-bit float. */
  predicate Finite(token: Bytes) {
    var mark := IndexOf(token, {0x65, 0x45});
    var mantissa := token[..mark];
    var point := IndexOf(mantissa, {0x2E});
    var fraction: nat := if point == |mantissa| then 0 else |mantissa| - point - 1;
    var magnitude := ExponentValue(token[mark..]);
    var exponent: int := (if mark + 1 < |token| && token[mark + 1] == 0x2D then -1 else 1) * magnitude;
    var digits := DigitsValue(mantissa);
    if exponent >= fraction then digits * Power(10, exponent - fraction) < OVERFLOW
    else digits < OVERFLOW * Power(10, fraction - exponent)
  }
}
