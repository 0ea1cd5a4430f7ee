/** The slower path to the canonical form: decode, sort, encode with line separators escaped, then undo just those escapes. */
module Established {
  import opened Bytes
  import opened JsonText
  import opened KeyOrder
  import opened Json
  import opened JsonPieces
  import opened Grammar
  import opened GrammarReading
  import opened CanonicalForm
  import opened CanonicalRoundTrip
  import opened CanonicalStream
  import opened Surrogates
  import opened StrictWalk
  import Utf8

  // ---------- The standard encoder ----------

  const ESCAPED_LINE: Bytes := [BACKSLASH, LETTER_U, 0x32, 0x30, 0x32, 0x38]
  const ESCAPED_PARAGRAPH: Bytes := [BACKSLASH, LETTER_U, 0x32, 0x30, 0x32, 0x39]
  const ESCAPED_REPLACEMENT: Bytes := [BACKSLASH, LETTER_U, 0x66, 0x66, 0x66, 0x64]

  function EncodeRune(rune: Bytes): Bytes {
    if rune == LINE_SEPARATOR then ESCAPED_LINE
    else if rune == PARAGRAPH_SEPARATOR then ESCAPED_PARAGRAPH
    else rune
  }

  /** What the encoder puts between the quotes, with HTML escaping off. */
  function EncodeChars(text: Bytes): Bytes
    decreases |text|
  {
    if text == [] then []
    else if text[0] < 0x80 then EscapeAscii(text[0]) + EncodeChars(text[1..])
    else
      var n := Utf8.RuneLength(text);
      if n == 0 then ESCAPED_REPLACEMENT + EncodeChars(text[1..])
      else EncodeRune(text[..n]) + EncodeChars(text[n..])
  }

  function EncodeString(text: Bytes): Bytes {
    [QUOTE] + EncodeChars(text) + [QUOTE]
  }

  function EncodeValue(v: Value): Bytes
    decreases v
  {
    match v
    case Null => NULL_WORD
    case True => TRUE_WORD
    case False => FALSE_WORD
    case Number(token) => token
    case Text(text) => EncodeString(text)
    case Array(items) => if items == [] then [LBRACKET, RBRACKET] else [LBRACKET] + EncodeItems(items)
    case Object(members) => if members == [] then [LBRACE, RBRACE] else [LBRACE] + EncodeMembers(members)
  }

  function EncodeItems(items: seq<Value>): Bytes
    requires items != []
    decreases items
  {
    EncodeValue(items[0]) + if |items| == 1 then [RBRACKET] else [COMMA] + EncodeItems(items[1..])
  }

  function EncodeMembers(members: seq<Member<Value>>): Bytes
    requires members != []
    decreases members
  {
    EncodeMember(members[0]) + if |members| == 1 then [RBRACE] else [COMMA] + EncodeMembers(members[1..])
  }

  function EncodeMember(m: Member<Value>): Bytes
    decreases m
  {
    EncodeString(m.key) + [COLON] + EncodeValue(m.value)
  }

  // ---------- Undoing the line separator escapes ----------

  /** Whether the escape after a backslash is one of the two separators. */
  predicate SeparatorAfter(s: Bytes) {
    |s| >= 5 && (s[..5] == ESCAPED_LINE[1..] || s[..5] == ESCAPED_PARAGRAPH[1..])
  }

  function SeparatorOf(s: Bytes): Bytes
    requires SeparatorAfter(s)
  {
    if s[4] == 0x38 then LINE_SEPARATOR else PARAGRAPH_SEPARATOR
  }

  /** Undoes the two escapes one character at a time: an escaped backslash hides what follows it. */
  function Restore(s: Bytes): Bytes
    decreases |s|
  {
    if s == [] then []
    else if s[0] != BACKSLASH then [s[0]] + Restore(s[1..])
    else if SeparatorAfter(s[1..]) then SeparatorOf(s[1..]) + Restore(s[6..])
    else if |s| == 1 then s
    else s[..2] + Restore(s[2..])
  }

  function Run(n: nat): (run: Bytes)
    ensures |run| == n
    ensures forall i :: 0 <= i < n ==> run[i] == BACKSLASH
  {
    seq(n, _ => BACKSLASH)
  }

  lemma RestoreUnfold(s: Bytes)
    ensures s == [] ==> Restore(s) == []
    ensures s != [] && s[0] != BACKSLASH ==> Restore(s) == [s[0]] + Restore(s[1..])
    ensures s != [] && s[0] == BACKSLASH && SeparatorAfter(s[1..]) ==> Restore(s) == SeparatorOf(s[1..]) + Restore(s[6..])
    ensures |s| >= 2 && s[0] == BACKSLASH && !SeparatorAfter(s[1..]) ==> Restore(s) == s[..2] + Restore(s[2..])
    ensures s == [BACKSLASH] ==> Restore(s) == s
  {
    hide SeparatorAfter, SeparatorOf;
    if s == [BACKSLASH] {
      NoSeparator(s[1..]);
    }
  }

  lemma NoSeparator(s: Bytes)
    ensures s == [] || s[0] != LETTER_U ==> !SeparatorAfter(s)
  {
    if SeparatorAfter(s) {
      assert s[..5][0] == s[0];
    }
  }

  /** A whole run of backslashes at once: only an odd one escapes what follows it. */
  lemma {:induction false} RestoreRun(n: nat, rest: Bytes)
    requires n > 0 && (rest == [] || rest[0] != BACKSLASH)
    ensures Restore(Run(n) + rest) ==
            if n % 2 == 1 && SeparatorAfter(rest) then Run(n - 1) + SeparatorOf(rest) + Restore(rest[5..])
            else Run(n) + Restore(rest)
  {
    hide Restore, SeparatorAfter, SeparatorOf;
    if n == 1 {
      RunOfOne(rest);
    } else {
      var fewer := Run(n - 2) + rest;
      assert Run(n) + rest == [BACKSLASH, BACKSLASH] + fewer && Run(2) == [BACKSLASH, BACKSLASH];
      NoSeparator([BACKSLASH] + fewer);
      UnfoldPair(BACKSLASH, fewer);
      if n == 2 {
        assert Run(0) + rest == rest;
      } else {
        RestoreRun(n - 2, rest);
        assert Run(2) + Run(n - 2) == Run(n) && Run(2) + Run(n - 3) == Run(n - 1);
      }
      RunJoins(n, rest);
    }
  }

  lemma RunOfOne(rest: Bytes)
    requires rest == [] || rest[0] != BACKSLASH
    ensures Restore([BACKSLASH] + rest) == if SeparatorAfter(rest) then Run(0) + SeparatorOf(rest) + Restore(rest[5..]) else Run(1) + Restore(rest)
    ensures Run(1) + rest == [BACKSLASH] + rest
  {
    hide Restore, SeparatorAfter, SeparatorOf;
    hide Run;
    ShortRuns();
    if SeparatorAfter(rest) {
      SeparatorLength(rest);
      UnfoldSeparator(rest);
      NothingFirst(SeparatorOf(rest), Restore(rest[5..]));
    } else if rest == [] {
      LoneBackslash();
      assert [BACKSLASH] + rest == [BACKSLASH];
    } else {
      UnfoldPlain(rest[0], rest[1..]);
      assert rest == [rest[0]] + rest[1..];
      assert [BACKSLASH] + rest == [BACKSLASH, rest[0]] + rest[1..];
      UnfoldPair(rest[0], rest[1..]);
      Regroup1(BACKSLASH, rest[0], Restore(rest[1..]));
    }
  }

  lemma NothingFirst(a: Bytes, b: Bytes)
    ensures [] + a + b == a + b
  {
  }

  lemma Regroup1(a: Byte, b: Byte, tail: Bytes)
    ensures [a, b] + tail == [a] + ([b] + tail)
  {
  }

  lemma ShortRuns()
    ensures Run(0) == [] && Run(1) == [BACKSLASH]
  {
  }

  lemma LoneBackslash()
    ensures Restore([BACKSLASH]) == [BACKSLASH] && Restore([]) == []
  {
    NoSeparator([]);
  }

  lemma UnfoldPlain(b: Byte, rest: Bytes)
    requires b != BACKSLASH
    ensures Restore([b] + rest) == [b] + Restore(rest)
  {
    assert ([b] + rest)[1..] == rest;
  }

  lemma UnfoldSeparator(rest: Bytes)
    requires SeparatorAfter(rest)
    ensures Restore([BACKSLASH] + rest) == SeparatorOf(rest) + Restore(rest[5..])
  {
    hide SeparatorAfter, SeparatorOf;
    SeparatorLength(rest);
    var s := [BACKSLASH] + rest;
    assert s[1..] == rest && s[6..] == rest[5..];
  }

  lemma UnfoldPair(b: Byte, rest: Bytes)
    requires !SeparatorAfter([b] + rest)
    ensures Restore([BACKSLASH, b] + rest) == [BACKSLASH, b] + Restore(rest)
  {
    hide SeparatorAfter, SeparatorOf;
    var s := [BACKSLASH, b] + rest;
    assert s[1..] == [b] + rest && s[..2] == [BACKSLASH, b] && s[2..] == rest;
  }

  lemma SeparatorLength(s: Bytes)
    requires SeparatorAfter(s)
    ensures |s| >= 5
  {
  }

  lemma RunJoins(n: nat, rest: Bytes)
    requires n >= 2
    ensures Run(2) + (Run(n - 2) + Restore(rest)) == Run(n) + Restore(rest)
    ensures n >= 3 && SeparatorAfter(rest) ==>
              Run(2) + (Run(n - 3) + SeparatorOf(rest) + Restore(rest[5..])) == Run(n - 1) + SeparatorOf(rest) + Restore(rest[5..])
  {
    hide Restore, SeparatorAfter, SeparatorOf;
    assert Run(2) + Run(n - 2) == Run(n);
    if n >= 3 {
      assert Run(2) + Run(n - 3) == Run(n - 1);
      if SeparatorAfter(rest) {
        SeparatorLength(rest);
        var sep, tail := SeparatorOf(rest), Restore(rest[5..]);
        assert Run(2) + (Run(n - 3) + sep + tail) == Run(2) + Run(n - 3) + sep + tail;
      }
    }
  }

  predicate Contains(s: Bytes, part: Bytes) {
    exists i :: 0 <= i <= |s| - |part| && PartAt(s, part, i)
  }

  predicate PartAt(s: Bytes, part: Bytes, i: nat)
    requires i + |part| <= |s|
  {
    s[i..i + |part|] == part
  }

  /** Text that holds neither escape is left alone. */
  lemma {:induction false} RestoreNothing(s: Bytes)
    requires !Contains(s, ESCAPED_LINE) && !Contains(s, ESCAPED_PARAGRAPH)
    ensures Restore(s) == s
    decreases |s|
  {
    hide Restore, SeparatorAfter, SeparatorOf, Contains;
    RestoreUnfold(s);
    if s != [] {
      if s[0] != BACKSLASH {
        ContainsTail(s, 1);
        RestoreNothing(s[1..]);
      } else {
        SeparatorContained(s);
        if |s| >= 2 {
          ContainsTail(s, 2);
          RestoreNothing(s[2..]);
        } else {
          assert s == [BACKSLASH];
        }
      }
    }
  }

  lemma ContainsAt(s: Bytes, part: Bytes, i: nat)
    requires i + |part| <= |s| && s[i..i + |part|] == part
    ensures Contains(s, part)
  {
    assert PartAt(s, part, i);
  }

  lemma ContainsTailOf(s: Bytes, k: nat, part: Bytes)
    requires k <= |s| && Contains(s[k..], part)
    ensures Contains(s, part)
  {
    var i :| 0 <= i <= |s[k..]| - |part| && PartAt(s[k..], part, i);
    assert s[k + i..k + i + |part|] == s[k..][i..i + |part|];
    ContainsAt(s, part, k + i);
  }

  lemma ContainsTail(s: Bytes, k: nat)
    requires k <= |s|
    ensures Contains(s[k..], ESCAPED_LINE) ==> Contains(s, ESCAPED_LINE)
    ensures Contains(s[k..], ESCAPED_PARAGRAPH) ==> Contains(s, ESCAPED_PARAGRAPH)
  {
    hide Contains;
    if Contains(s[k..], ESCAPED_LINE) {
      ContainsTailOf(s, k, ESCAPED_LINE);
    }
    if Contains(s[k..], ESCAPED_PARAGRAPH) {
      ContainsTailOf(s, k, ESCAPED_PARAGRAPH);
    }
  }

  lemma SeparatorContained(s: Bytes)
    requires s != [] && s[0] == BACKSLASH
    ensures SeparatorAfter(s[1..]) ==> Contains(s, ESCAPED_LINE) || Contains(s, ESCAPED_PARAGRAPH)
  {
    hide Contains;
    if SeparatorAfter(s[1..]) {
      assert s[0..6] == [BACKSLASH] + s[1..][..5];
      assert [BACKSLASH] + ESCAPED_LINE[1..] == ESCAPED_LINE;
      assert [BACKSLASH] + ESCAPED_PARAGRAPH[1..] == ESCAPED_PARAGRAPH;
      if s[0..6] == ESCAPED_LINE {
        ContainsAt(s, ESCAPED_LINE, 0);
      } else {
        ContainsAt(s, ESCAPED_PARAGRAPH, 0);
      }
    }
  }

  /** The pass over the encoder's output, a run of backslashes at a time. */
  method RestoreJSONLineSeparatorsV2(encoded: Bytes) returns (result: Bytes)
    ensures result == Restore(encoded)
  {
    hide Restore, SeparatorAfter, SeparatorOf, Contains;
    if !Contains(encoded, ESCAPED_LINE) && !Contains(encoded, ESCAPED_PARAGRAPH) {
      RestoreNothing(encoded);
      return encoded;
    }
    result := [];
    var index := 0;
    assert encoded[0..] == encoded;
    while index < |encoded|
      invariant 0 <= index <= |encoded|
      invariant result + Restore(encoded[index..]) == Restore(encoded)
    {
      if encoded[index] != BACKSLASH {
        RestoreUnfold(encoded[index..]);
        assert encoded[index..][1..] == encoded[index + 1..];
        Regroup(result, [encoded[index]], Restore(encoded[index + 1..]));
        result := result + [encoded[index]];
        index := index + 1;
        continue;
      }
      var start := index;
      while index < |encoded| && encoded[index] == BACKSLASH
        invariant start <= index <= |encoded|
        invariant forall i :: start <= i < index ==> encoded[i] == BACKSLASH
      {
        index := index + 1;
      }
      var backslashes := index - start;
      ghost var rest := encoded[index..];
      assert encoded[start..index] == Run(backslashes);
      assert encoded[start..] == Run(backslashes) + rest;
      RestoreRun(backslashes, rest);
      if backslashes % 2 == 1 && SeparatorAfter(encoded[index..]) {
        SeparatorLength(rest);
        assert encoded[start..index - 1] == Run(backslashes - 1);
        Regroup4(result, Run(backslashes - 1), SeparatorOf(rest), Restore(rest[5..]));
        result := result + encoded[start..index - 1];
        result := result + SeparatorOf(encoded[index..]);
        index := index + 5;
        assert encoded[index..] == rest[5..];
        continue;
      }
      Regroup(result, Run(backslashes), Restore(rest));
      result := result + encoded[start..index];
    }
    assert encoded[index..] == [];
    RestoreUnfold([]);
  }

  lemma Regroup4(a: Bytes, b: Bytes, c: Bytes, d: Bytes)
    ensures a + (b + c + d) == a + b + c + d
  {
  }

  // ---------- The two paths print alike ----------

  lemma {:induction false} RestorePlain(plain: Bytes, rest: Bytes)
    requires forall i :: 0 <= i < |plain| ==> plain[i] != BACKSLASH
    ensures Restore(plain + rest) == plain + Restore(rest)
  {
    hide Restore;
    if plain == [] {
      assert plain + rest == rest;
      assert plain + Restore(rest) == Restore(rest);
    } else {
      RestoreUnfold(plain + rest);
      assert (plain + rest)[1..] == plain[1..] + rest;
      RestorePlain(plain[1..], rest);
      assert plain == [plain[0]] + plain[1..];
      Regroup([plain[0]], plain[1..], Restore(rest));
    }
  }

  lemma FrontOf(front: Bytes, rest: Bytes)
    ensures (front + rest)[..|front|] == front && (front + rest)[|front|..] == rest
  {
  }

  /** An ASCII byte's escape comes through the pass as it is. */
  lemma RestoreAscii(b: Byte, rest: Bytes)
    requires b < 0x80
    ensures Restore(EscapeAscii(b) + rest) == EscapeAscii(b) + Restore(rest)
  {
    hide Restore;
    var escape := EscapeAscii(b);
    var s := escape + rest;
    if Literal(b) {
      RestorePlain(escape, rest);
    } else {
      assert s[0] == BACKSLASH && s[1] == escape[1];
      if |escape| == 2 {
        NoSeparator(s[1..]);
        RestoreUnfold(s);
        assert s[..2] == escape && s[2..] == rest;
      } else {
        assert s[1..][..5][1] == 0x30 && s[1..][..5][2] == 0x30;
        assert !SeparatorAfter(s[1..]);
        RestoreUnfold(s);
        assert escape == escape[..2] + escape[2..];
        Regroup3(escape[..2], escape[2..], rest);
        FrontOf(escape[..2], escape[2..] + rest);
        RestorePlain(escape[2..], rest);
        Regroup(escape[..2], escape[2..], Restore(rest));
      }
    }
  }

  lemma RestoreRune(rune: Bytes, rest: Bytes)
    requires rune != [] && Utf8.RuneLength(rune) == |rune| && rune[0] >= 0x80
    ensures Restore(EncodeRune(rune) + rest) == rune + Restore(rest)
  {
    hide Restore;
    if rune == LINE_SEPARATOR || rune == PARAGRAPH_SEPARATOR {
      var s := EncodeRune(rune) + rest;
      assert s[1..][..5] == EncodeRune(rune)[1..];
      assert s[6..] == rest;
      RestoreUnfold(s);
    } else {
      forall i | 0 <= i < |rune| ensures rune[i] != BACKSLASH {
        if i > 0 {
          Utf8.RuneTail(rune, i);
        }
      }
      RestorePlain(rune, rest);
    }
  }

  lemma EncodeCharsRune(text: Bytes)
    requires text != [] && Utf8.RuneLength(text) > 0
    ensures var n := Utf8.RuneLength(text);
            EncodeChars(text) == (if text[0] < 0x80 then EscapeAscii(text[0]) else EncodeRune(text[..n])) + EncodeChars(text[n..])
  {
    hide EscapeAscii, EncodeRune;
  }

  /**
   * Undoing the separator escapes on the encoder's text of a valid string gives the canonical text,
   * whatever the string holds: runs of backslashes before "u2028" too.
   */
  lemma {:induction false} CharsRestored(text: Bytes, rest: Bytes)
    requires Utf8.Valid(text)
    ensures Restore(EncodeChars(text) + rest) == CanonicalChars(text) + Restore(rest)
    decreases |text|
  {
    hide Restore, EncodeChars, CanonicalChars, EscapeAscii, EncodeRune;
    if text == [] {
      NoCharsEncoded();
      assert [] + rest == rest && [] + Restore(rest) == Restore(rest);
    } else {
      var n := Utf8.RuneLength(text);
      var tail := EncodeChars(text[n..]) + rest;
      Utf8.RuneLengthLocal(text, []);
      EncodeCharsRune(text);
      assert text == text[..n] + text[n..];
      CharsRune(text[..n], text[n..]);
      CharsRestored(text[n..], rest);
      if text[0] < 0x80 {
        RestoreAscii(text[0], tail);
        Regroup3(EscapeAscii(text[0]), EncodeChars(text[n..]), rest);
        Regroup(EscapeAscii(text[0]), CanonicalChars(text[n..]), Restore(rest));
      } else {
        RestoreRune(text[..n], tail);
        Regroup3(EncodeRune(text[..n]), EncodeChars(text[n..]), rest);
        Regroup(text[..n], CanonicalChars(text[n..]), Restore(rest));
      }
    }
  }

  lemma NoCharsEncoded()
    ensures EncodeChars([]) == [] && CanonicalChars([]) == []
  {
  }

  lemma StringRestored(text: Bytes, rest: Bytes)
    requires Utf8.Valid(text)
    ensures Restore(EncodeString(text) + rest) == CanonicalString(text) + Restore(rest)
  {
    hide Restore, EncodeChars, CanonicalChars;
    var chars := EncodeChars(text);
    assert EncodeString(text) + rest == [QUOTE] + (chars + ([QUOTE] + rest));
    RestorePlain([QUOTE], chars + ([QUOTE] + rest));
    CharsRestored(text, [QUOTE] + rest);
    RestorePlain([QUOTE], rest);
    assert [QUOTE] + (CanonicalChars(text) + ([QUOTE] + Restore(rest))) == CanonicalString(text) + Restore(rest);
  }

  /** The whole document: the established path's text is the canonical one. */
  lemma {:induction false} ValueRestored(v: Value, rest: Bytes)
    requires TextsValid(v) && TokensOk(v)
    ensures Restore(EncodeValue(v) + rest) == Print(v) + Restore(rest)
    decreases v
  {
    hide Restore, EncodeString, CanonicalString, EncodeItems, EncodeMembers, PrintItems, PrintMembers, Utf8.Valid;
    match v {
      case Text(text) => StringRestored(text, rest);
      case Number(token) =>
        TokenPlain(token);
        RestorePlain(token, rest);
      case Array(items) =>
        if items != [] {
          ItemsRestored(items, rest);
          RestoreFirst(LBRACKET, EncodeItems(items), PrintItems(items), rest);
        } else {
          RestorePlain([LBRACKET, RBRACKET], rest);
        }
      case Object(members) =>
        if members != [] {
          MembersRestored(members, rest);
          RestoreFirst(LBRACE, EncodeMembers(members), PrintMembers(members), rest);
        } else {
          RestorePlain([LBRACE, RBRACE], rest);
        }
      case _ => RestorePlain(EncodeValue(v), rest);
    }
  }

  lemma TokenPlain(token: Bytes)
    requires IsNumeral(token)
    ensures forall i :: 0 <= i < |token| ==> token[i] != BACKSLASH
  {
    var n: Numeral :| NumeralOk(n) && NumeralText(n) == token;
    NumeralBytes(n);
  }

  lemma NumeralBytes(n: Numeral)
    requires NumeralOk(n)
    ensures BACKSLASH !in NumeralText(n)
  {
    DigitsBytes(n.integer);
    if n.fraction.Some? {
      DigitsBytes(n.fraction.value);
    }
    if n.exponent.Some? {
      DigitsBytes(n.exponent.value.digits);
    }
  }

  lemma DigitsBytes(digits: Bytes)
    requires AllDigits(digits)
    ensures BACKSLASH !in digits
  {
  }

  lemma RestoreFirst(mark: Byte, encoded: Bytes, printed: Bytes, rest: Bytes)
    requires mark != BACKSLASH && Restore(encoded + rest) == printed + Restore(rest)
    ensures Restore([mark] + encoded + rest) == [mark] + printed + Restore(rest)
  {
    hide Restore;
    Regroup3([mark], encoded, rest);
    RestorePlain([mark], encoded + rest);
    Regroup([mark], printed, Restore(rest));
  }

  lemma {:induction false} ItemsRestored(items: seq<Value>, rest: Bytes)
    requires items != [] && forall i :: 0 <= i < |items| ==> TextsValid(items[i]) && TokensOk(items[i])
    ensures Restore(EncodeItems(items) + rest) == PrintItems(items) + Restore(rest)
    decreases items
  {
    hide Restore, EncodeValue, Print, TextsValid, TokensOk;
    var first := EncodeValue(items[0]);
    if |items| == 1 {
      ValueRestored(items[0], [RBRACKET] + rest);
      RestorePlain([RBRACKET], rest);
      Regroup3(first, [RBRACKET], rest);
      Regroup(Print(items[0]), [RBRACKET], Restore(rest));
    } else {
      var tail := [COMMA] + EncodeItems(items[1..]);
      ValueRestored(items[0], tail + rest);
      ItemsRestored(items[1..], rest);
      RestoreFirst(COMMA, EncodeItems(items[1..]), PrintItems(items[1..]), rest);
      Regroup3(first, tail, rest);
      Regroup(Print(items[0]), [COMMA] + PrintItems(items[1..]), Restore(rest));
    }
  }

  lemma {:induction false} MemberRestored(m: Member<Value>, rest: Bytes)
    requires Utf8.Valid(m.key) && TextsValid(m.value) && TokensOk(m.value)
    ensures Restore(EncodeMember(m) + rest) == PrintMember(m) + Restore(rest)
    decreases m
  {
    hide Restore, EncodeValue, Print, TextsValid, TokensOk, Utf8.Valid, EncodeString, CanonicalString;
    var key, value := EncodeString(m.key), EncodeValue(m.value);
    assert EncodeMember(m) + rest == key + ([COLON] + (value + rest));
    StringRestored(m.key, [COLON] + (value + rest));
    RestorePlain([COLON], value + rest);
    ValueRestored(m.value, rest);
    var k, v := CanonicalString(m.key), Print(m.value);
    assert k + ([COLON] + (v + Restore(rest))) == k + [COLON] + v + Restore(rest);
  }

  lemma {:induction false} MembersRestored(members: seq<Member<Value>>, rest: Bytes)
    requires members != []
    requires forall i :: 0 <= i < |members| ==> Utf8.Valid(members[i].key) && TextsValid(members[i].value) && TokensOk(members[i].value)
    ensures Restore(EncodeMembers(members) + rest) == PrintMembers(members) + Restore(rest)
    decreases members
  {
    hide Restore, EncodeMember, PrintMember, TextsValid, TokensOk, Utf8.Valid;
    var first := EncodeMember(members[0]);
    if |members| == 1 {
      MemberRestored(members[0], [RBRACE] + rest);
      RestorePlain([RBRACE], rest);
      Regroup3(first, [RBRACE], rest);
      Regroup(PrintMember(members[0]), [RBRACE], Restore(rest));
    } else {
      var tail := [COMMA] + EncodeMembers(members[1..]);
      MemberRestored(members[0], tail + rest);
      MembersRestored(members[1..], rest);
      RestoreFirst(COMMA, EncodeMembers(members[1..]), PrintMembers(members[1..]), rest);
      Regroup3(first, tail, rest);
      Regroup(PrintMember(members[0]), [COMMA] + PrintMembers(members[1..]), Restore(rest));
    }
  }

  // ---------- The two paths together ----------

  /** What the standard decoder, keeping number tokens, makes of a text: the value the grammar writes with it, within a nesting limit. */
  ghost function Decoded(raw: Bytes, limit: nat): Option<Value> {
    if v :| Writes(raw, v, Rules(limit, false)) then Some(v) else None
  }

  /** The established path: decode, walk for repeated keys and numbers past the float range, sort, encode, restore. */
  ghost function EstablishedV2(raw: Bytes, limit: nat): Option<Bytes> {
    match Decoded(raw, limit)
    case None => None
    case Some(v) => if Strict(v) then Some(Restore(EncodeValue(Normal(v)))) else None
  }

  /** A text is written by one value at most, which a lenient reader reads. */
  lemma DecodedIs(raw: Bytes, limit: nat)
    ensures Decoded(raw, limit) ==
            match ParseDocument(raw, Rules(limit, false))
            case Refused(_) => None
            case Parsed(v, _) => Some(v)
  {
    hide ParseDocument, Writes;
    var rules := Rules(limit, false);
    match Decoded(raw, limit) {
      case Some(v) => ReadsTheGrammar(raw, v, rules);
      case None =>
        if ParseDocument(raw, rules).Parsed? {
          var v := ParseDocument(raw, rules).value;
          OnlyParsed(raw, v, rules);
          ReadsTheGrammar(raw, v, rules);
        }
    }
  }

  /** Decoding and then walking reads what reading in one pass under the strict rules does, and refuses what that refuses. */
  lemma WalkIsStrict(raw: Bytes, limit: nat)
    ensures (match Decoded(raw, limit)
             case None => None
             case Some(v) => if Strict(v) then Some(v) else None)
            == match ParseDocument(raw, Rules(limit, true))
               case Refused(_) => None
               case Parsed(v, _) => Some(v)
  {
    hide ParseDocument, Decoded, Strict, Acceptable, TreeText, TreeMeaning, TreeOk;
    var strict, lenient := Rules(limit, true), Rules(limit, false);
    DecodedIs(raw, limit);
    if ParseDocument(raw, strict).Parsed? {
      var v := ParseDocument(raw, strict).value;
      OnlyParsed(raw, v, strict);
      StrictIsLenient(raw, v, strict);
      StrictlyAcceptable(v, 0, limit);
    }
    if ParseDocument(raw, lenient).Parsed? {
      var v := ParseDocument(raw, lenient).value;
      OnlyParsed(raw, v, lenient);
      ReadsTheGrammar(raw, v, lenient);
      StrictlyAcceptable(v, 0, limit);
      if Strict(v) {
        var d: Document :| DocumentOk(d) && DocumentText(d) == raw && TreeMeaning(d.tree) == v && Acceptable(v, 0, lenient);
        DocumentRead(d, strict);
      }
    }
  }

  /** A deeper limit accepts all that a shallower one does, and reads it alike. */
  lemma DeeperLimit(raw: Bytes, limit: nat, deeper: nat)
    requires limit <= deeper && ParseDocument(raw, Rules(limit, true)).Parsed?
    ensures ParseDocument(raw, Rules(deeper, true)) == ParseDocument(raw, Rules(limit, true))
  {
    hide ParseDocument, Acceptable, TreeText, TreeMeaning, TreeOk;
    var v := ParseDocument(raw, Rules(limit, true)).value;
    OnlyParsed(raw, v, Rules(limit, true));
    ReadsTheGrammar(raw, v, Rules(limit, true));
    var d: Document :| DocumentOk(d) && DocumentText(d) == raw && TreeMeaning(d.tree) == v && Acceptable(v, 0, Rules(limit, true));
    AcceptableDeeper(v, 0, limit, deeper);
    DocumentRead(d, Rules(deeper, true));
  }

  lemma {:induction false} AcceptableDeeper(v: Value, depth: nat, limit: nat, deeper: nat)
    requires limit <= deeper && Acceptable(v, depth, Rules(limit, true))
    ensures Acceptable(v, depth, Rules(deeper, true))
    decreases v
  {
    hide Inexact, Finite, DistinctKeys;
    match v {
      case Array(items) =>
        ItemsAcceptableIff(items, depth + 1, Rules(limit, true));
        ItemsAcceptableIff(items, depth + 1, Rules(deeper, true));
        forall i | 0 <= i < |items| ensures Acceptable(items[i], depth + 1, Rules(deeper, true)) {
          AcceptableDeeper(items[i], depth + 1, limit, deeper);
        }
      case Object(members) =>
        MembersAcceptableIff(members, depth + 1, Rules(limit, true));
        MembersAcceptableIff(members, depth + 1, Rules(deeper, true));
        forall i | 0 <= i < |members| ensures Acceptable(members[i].value, depth + 1, Rules(deeper, true)) {
          AcceptableDeeper(members[i].value, depth + 1, limit, deeper);
        }
      case _ =>
    }
  }

  /** Whatever the established path answers for a valid text is the canonical form of its value. */
  lemma EstablishedIsCanonical(raw: Bytes, limit: nat)
    requires Utf8.Valid(raw)
    ensures EstablishedV2(raw, limit) ==
            match ParseDocument(raw, Rules(limit, true))
            case Refused(_) => None
            case Parsed(v, _) => Some(Canonical(v))
  {
    hide ParseDocument, Print, Normal, EncodeValue, Restore, TextsValid, TokensOk, Utf8.Valid, Acceptable, Decoded, Strict;
    var rules := Rules(limit, true);
    WalkIsStrict(raw, limit);
    if ParseDocument(raw, rules).Parsed? {
      var v := ParseDocument(raw, rules).value;
      OnlyParsed(raw, v, rules);
      SourceValid(raw, v, rules);
      StrictIsLenient(raw, v, rules);
      NormalKeeps(v, 0, rules);
      ValueRestored(Normal(v), []);
      RestoreUnfold([]);
      assert EncodeValue(Normal(v)) + [] == EncodeValue(Normal(v));
      assert Print(Normal(v)) + [] == Print(Normal(v));
    }
  }

  /** What is asked of a payload before either path sees it. */
  predicate Admitted(raw: Bytes) {
    raw != [] && Utf8.Valid(raw) && !(BYTE_ORDER_MARK <= raw) && ScanOutside(raw)
  }

  const BYTE_ORDER_MARK: Bytes := [0xEF, 0xBB, 0xBF]

  lemma NothingStarts(raw: Bytes, rules: Rules)
    ensures ParseDocument(raw, rules).Parsed? ==> raw != [] && !(BYTE_ORDER_MARK <= raw)
  {
    if BYTE_ORDER_MARK <= raw {
      assert raw[0] == 0xEF && SkipSpace(raw) == raw;
      assert IntegerEnd(raw).None?;
    }
  }

  /**
   * What a payload is answered, of its bytes alone: it must be UTF-8 and a text of the grammar for a strict
   * value within the limit, whose canonical form is the answer. Nothing else is ever refused, and nothing
   * else ever answered.
   */
  lemma AnswersExactly(raw: Bytes, limit: nat)
    ensures var answer := if Admitted(raw) then EstablishedV2(raw, limit) else None;
            && (answer.Some? <==> Utf8.Valid(raw) && exists v :: Writes(raw, v, Rules(limit, true)))
            && forall v :: Utf8.Valid(raw) && Writes(raw, v, Rules(limit, true)) ==> answer == Some(Canonical(v))
  {
    hide ParseDocument, EstablishedV2, Writes, Utf8.Valid, Canonical;
    var rules := Rules(limit, true);
    NothingStarts(raw, rules);
    SurrogatesAgree(raw, rules);
    if Utf8.Valid(raw) {
      EstablishedIsCanonical(raw, limit);
    }
    forall v ensures ParseDocument(raw, rules) == Parsed(v, []) <==> Writes(raw, v, rules) {
      ReadsTheGrammar(raw, v, rules);
    }
    if ParseDocument(raw, rules).Parsed? {
      OnlyParsed(raw, ParseDocument(raw, rules).value, rules);
      assert Writes(raw, ParseDocument(raw, rules).value, rules);
    }
  }

  /**
   * The canonical bytes of a payload: the single pass answers, and what it declines the established
   * path answers. The answer is the established path's either way, refusals included.
   */
  method CanonicalJSONV2(pool: Pool, raw: Bytes, limit: nat) returns (out: Option<Bytes>)
    requires pool.Valid() && MAX_DEPTH <= limit
    modifies pool, pool.Storage()
    ensures pool.Valid()
    ensures out == if Admitted(raw) then EstablishedV2(raw, limit) else None
  {
    hide ParseDocument, Print, Normal, EncodeValue, Restore, Canonical, EstablishedV2, Utf8.Valid;
    var scanned := ValidateJSONSurrogateEscapes(raw);
    if raw == [] || !Utf8.Valid(raw) || BYTE_ORDER_MARK <= raw || !scanned {
      return None;
    }
    EstablishedIsCanonical(raw, limit);
    var dst := new Buffer();
    var ok := pool.CanonicalStreamV2(dst, raw);
    if ok {
      DeeperLimit(raw, MAX_DEPTH, limit);
      ghost var canonical := Canonical(ParseDocument(raw, SINGLE_PASS).value);
      assert [] + canonical == canonical;
      return Some(dst.bytes);
    }
    out := Establish(raw, limit);
  }

  /** The established path itself. */
  method Establish(raw: Bytes, limit: nat) returns (out: Option<Bytes>)
    ensures out == EstablishedV2(raw, limit)
  {
    hide ParseDocument, Decoded, Restore, EncodeValue, Normal, Strict;
    DecodedIs(raw, limit);
    match ParseDocument(raw, Rules(limit, false)) {
      case Refused(_) => out := None;
      case Parsed(v, _) =>
        var walked := RejectDuplicateJSONFields(v);
        if !walked {
          return None;
        }
        var result := RestoreJSONLineSeparatorsV2(EncodeValue(Normal(v)));
        out := Some(result);
    }
  }
}
