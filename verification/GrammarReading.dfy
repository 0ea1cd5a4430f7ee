/** The reader accepts exactly the texts of the grammar, and reads each as what it means. */
module GrammarReading {
  import opened Bytes
  import opened JsonText
  import opened KeyOrder
  import opened Json
  import opened JsonPieces
  import opened Grammar
  import Utf8

  // ---------- Strings ----------

  lemma QuadLocal(quad: Bytes, t: Bytes)
    requires |quad| == 4
    ensures HexQuad(quad + t) == HexQuad(quad)
  {
  }

  lemma UnitUnfold(s: Bytes)
    requires |s| >= 2 && s[0] == BACKSLASH && s[1] == LETTER_U
    ensures HexQuad(s[2..]).None? ==> DecodeChars(s) == Malformed
    ensures HexQuad(s[2..]).Some? ==>
              var unit := HexQuad(s[2..]).value;
              if !Utf8.Surrogate(unit) then DecodeChars(s) == Prepend(Utf8.Encode(unit), DecodeChars(s[6..]))
              else if LowHalf(unit, s[6..]).None? then DecodeChars(s) == LoneSurrogate
              else DecodeChars(s) == Prepend(Utf8.Encode(Combine(unit, LowHalf(unit, s[6..]).value)), DecodeChars(s[12..]))
  {
    hide HexQuad, LowHalf;
  }

  lemma CharRead(c: CharSpelling, t: Bytes)
    requires CharOk(c)
    ensures DecodeChars(CharText(c) + t) == Prepend(CharMeaning(c), DecodeChars(t))
  {
    hide DecodeChars, HexQuad;
    var s := CharText(c) + t;
    DecodeUnfold(s);
    match c {
      case Raw(b) =>
        assert s[1..] == t;
      case Short(letter) =>
        assert s[0] == BACKSLASH && s[1] == letter && s[2..] == t;
      case Unit(quad) =>
        QuadLocal(quad, t);
        assert s[2..] == quad + t && s[6..] == t;
        UnitUnfold(s);
      case Pair(high, low) =>
        PairText(high, low, t);
        QuadLocal(high, [BACKSLASH, LETTER_U] + low + t);
        QuadLocal(low, t);
        UnitUnfold(s);
    }
  }

  lemma PairText(high: Bytes, low: Bytes, t: Bytes)
    requires |high| == |low| == 4
    ensures var s := CharText(Pair(high, low)) + t;
            && s[0] == BACKSLASH && s[1] == LETTER_U
            && s[2..] == high + ([BACKSLASH, LETTER_U] + low + t)
            && s[6..] == [BACKSLASH, LETTER_U] + (low + t) && s[6..][2..] == low + t
            && s[12..] == t
  {
    var s := CharText(Pair(high, low)) + t;
    assert s == [BACKSLASH, LETTER_U] + (high + ([BACKSLASH, LETTER_U] + low + t));
    assert s[6..] == [BACKSLASH, LETTER_U] + (low + t);
  }

  /** A spelled string reads as what it means, up to its closing quote. */
  lemma {:induction false} CharsRead(chars: seq<CharSpelling>, rest: Bytes)
    requires CharsOk(chars)
    ensures DecodeChars(CharsText(chars) + ([QUOTE] + rest)) == Decoded(CharsMeaning(chars), rest)
  {
    hide DecodeChars, CharText, CharMeaning, CharOk;
    if chars == [] {
      assert CharsText(chars) + ([QUOTE] + rest) == [QUOTE] + rest;
      DecodeUnfold([QUOTE] + rest);
      assert ([QUOTE] + rest)[1..] == rest;
    } else {
      var t := CharsText(chars[1..]) + ([QUOTE] + rest);
      CharsRead(chars[1..], rest);
      CharRead(chars[0], t);
      Regroup3(CharText(chars[0]), CharsText(chars[1..]), [QUOTE] + rest);
    }
  }

  /** How the first character of a decoded string was spelled. */
  lemma SpellChar(s: Bytes) returns (c: CharSpelling, t: Bytes)
    requires s != [] && s[0] != QUOTE && DecodeChars(s).Decoded?
    ensures CharOk(c) && s == CharText(c) + t && |t| < |s|
    ensures DecodeChars(s) == Prepend(CharMeaning(c), DecodeChars(t))
  {
    hide DecodeChars, HexQuad;
    DecodeUnfold(s);
    if s[0] != BACKSLASH {
      c, t := Raw(s[0]), s[1..];
    } else if s[1] != LETTER_U {
      c, t := Short(s[1]), s[2..];
    } else {
      UnitUnfold(s);
      QuadFront(s[2..]);
      var unit := HexQuad(s[2..]).value;
      if !Utf8.Surrogate(unit) {
        c, t := Unit(s[2..6]), s[6..];
        assert s[2..][..4] == s[2..6];
      } else {
        QuadFront(s[6..][2..]);
        c, t := Pair(s[2..6], s[8..12]), s[12..];
        assert s[2..][..4] == s[2..6];
        assert s[6..][2..][..4] == s[8..12];
        assert s == [BACKSLASH, LETTER_U] + s[2..6] + [BACKSLASH, LETTER_U] + s[8..12] + s[12..];
      }
    }
  }

  lemma QuadFront(s: Bytes)
    ensures HexQuad(s).Some? ==> |s| >= 4 && HexQuad(s[..4]) == HexQuad(s)
  {
  }

  /** Every string that decodes is the text of some spelling that means what it decodes to. */
  lemma {:induction false} SpellChars(s: Bytes) returns (chars: seq<CharSpelling>)
    requires DecodeChars(s).Decoded?
    ensures CharsOk(chars)
    ensures s == CharsText(chars) + ([QUOTE] + DecodeChars(s).rest)
    ensures DecodeChars(s).text == CharsMeaning(chars)
    decreases |s|
  {
    hide DecodeChars, CharText, CharMeaning, CharOk;
    DecodeUnfold(s);
    if s[0] == QUOTE {
      chars := [];
      assert s == [QUOTE] + s[1..];
    } else {
      var c, t := SpellChar(s);
      var tail := SpellChars(t);
      chars := [c] + tail;
      assert chars[1..] == tail;
      Regroup3(CharText(c), CharsText(tail), [QUOTE] + DecodeChars(s).rest);
    }
  }

  // ---------- Numbers ----------

  /** What may follow a value inside a document, and cannot go on with a number. */
  predicate Boundary(s: Bytes) {
    s == [] || Space(s[0]) || s[0] == COMMA || s[0] == RBRACKET || s[0] == RBRACE
  }

  lemma {:induction false} DigitsRead(digits: Bytes, t: Bytes)
    requires forall b <- digits :: Digit(b)
    requires t == [] || !Digit(t[0])
    ensures Digits(digits + t) == |digits|
  {
    if digits == [] {
      assert digits + t == t;
    } else {
      assert (digits + t)[1..] == digits[1..] + t;
      assert digits[0] in digits;
      DigitsRead(digits[1..], t);
    }
  }

  lemma IntegerRead(n: Numeral, t: Bytes)
    requires NumeralOk(n) && (t == [] || !Digit(t[0]))
    ensures IntegerEnd(IntegerText(n) + t) == Some(|IntegerText(n)|)
  {
    hide Digits;
    var s := IntegerText(n) + t;
    var start := if n.negative then 1 else 0;
    assert n.integer[0] in n.integer;
    assert s[start] == n.integer[0];
    assert s[start..] == n.integer + t;
    DigitsRead(n.integer, t);
  }

  lemma FractionRead(front: Bytes, fraction: Option<Bytes>, t: Bytes)
    requires fraction.Some? ==> AllDigits(fraction.value)
    requires t == [] || (!Digit(t[0]) && t[0] != 0x2E)
    ensures FractionEnd(front + (FractionText(fraction) + t), |front|) == Some(|front| + |FractionText(fraction)|)
  {
    hide Digits;
    var s := front + (FractionText(fraction) + t);
    if fraction.Some? {
      assert s[|front| + 1..] == fraction.value + t;
      DigitsRead(fraction.value, t);
    } else {
      assert FractionText(fraction) + t == t;
    }
  }

  /** An exponent's digits, from after its letter and its sign. */
  lemma ExponentDigitsRead(front: Bytes, digits: Bytes, t: Bytes, s: Bytes, i: nat)
    requires AllDigits(digits) && (t == [] || !Digit(t[0]))
    requires s == front + (digits + t) && i < |s| && (s[i] == 0x65 || s[i] == 0x45)
    requires ExponentDigitsStart(s, i) == |front|
    ensures ExponentEnd(s, i) == Some(|front| + |digits|)
  {
    hide Digits, ExponentDigitsStart;
    assert s[|front|..] == digits + t;
    DigitsRead(digits, t);
  }

  lemma ExponentRead(front: Bytes, exponent: Option<Exponent>, t: Bytes)
    requires exponent.Some? ==> ExponentOk(exponent.value)
    requires t == [] || (!Digit(t[0]) && t[0] != 0x65 && t[0] != 0x45)
    ensures ExponentEnd(front + (ExponentText(exponent) + t), |front|) == Some(|front| + |ExponentText(exponent)|)
  {
    hide Digits, ExponentEnd;
    var s := front + (ExponentText(exponent) + t);
    match exponent {
      case None =>
        assert ExponentText(exponent) + t == t;
        NoExponent(s, |front|);
      case Some(e) =>
        var marks := [e.letter] + if e.sign.Some? then [e.sign.value] else [];
        Regroup(marks, e.digits, t);
        Regroup(front, marks, e.digits + t);
        assert e.digits[0] in e.digits;
        assert s[|front|] == e.letter;
        assert s[|front| + 1] == if e.sign.Some? then e.sign.value else e.digits[0];
        ExponentDigitsRead(front + marks, e.digits, t, s, |front|);
    }
  }

  lemma NoExponent(s: Bytes, i: nat)
    requires i <= |s| && (i == |s| || (s[i] != 0x65 && s[i] != 0x45))
    ensures ExponentEnd(s, i) == Some(i)
  {
  }

  /** A numeral is read whole when what follows it cannot go on with it. */
  lemma NumeralRead(n: Numeral, t: Bytes)
    requires NumeralOk(n) && Boundary(t)
    ensures NumberEnd(NumeralText(n) + t) == Some(|NumeralText(n)|)
  {
    hide IntegerEnd, FractionEnd, ExponentEnd;
    var i, f, e := IntegerText(n), FractionText(n.fraction), ExponentText(n.exponent);
    var s := NumeralText(n) + t;
    assert s == i + (f + (e + t));
    assert s == (i + f) + (e + t);
    assert |NumeralText(n)| == |i| + |f| + |e|;
    IntegerRead(n, f + (e + t));
    FractionRead(i, n.fraction, e + t);
    ExponentRead(i + f, n.exponent, t);
  }

  lemma DigitsFront(s: Bytes)
    ensures forall b <- s[..Digits(s)] :: Digit(b)
  {
    var front := s[..Digits(s)];
    forall b <- front ensures Digit(b) {
      var k :| 0 <= k < |front| && front[k] == b;
      assert s[k] == b;
    }
  }

  lemma SpellInteger(s: Bytes) returns (negative: bool, integer: Bytes)
    requires IntegerEnd(s).Some?
    ensures AllDigits(integer) && (integer[0] == 0x30 ==> |integer| == 1)
    ensures (if negative then [0x2D] else []) + integer == s[..IntegerEnd(s).value]
  {
    hide Digits;
    var i := IntegerEnd(s).value;
    negative := s[0] == 0x2D;
    var start := if negative then 1 else 0;
    DigitsFront(s[start..]);
    DigitsFirst(s[start..]);
    assert s[start..][..i - start] == s[start..i];
    integer := s[start..i];
  }

  lemma SpellFraction(s: Bytes, i: nat) returns (fraction: Option<Bytes>)
    requires i <= |s| && FractionEnd(s, i).Some?
    ensures fraction.Some? ==> AllDigits(fraction.value)
    ensures FractionText(fraction) == s[i..FractionEnd(s, i).value]
  {
    hide Digits;
    fraction := None;
    if i < |s| && s[i] == 0x2E {
      var f := FractionEnd(s, i).value;
      DigitsFront(s[i + 1..]);
      assert s[i + 1..][..f - i - 1] == s[i + 1..f];
      fraction := Some(s[i + 1..f]);
    }
  }

  /** Every token the reader takes for a number is a numeral of the grammar. */
  lemma SpellNumeral(s: Bytes) returns (n: Numeral)
    requires NumberEnd(s).Some?
    ensures NumeralOk(n) && NumeralText(n) == s[..NumberEnd(s).value]
  {
    hide IntegerEnd, FractionEnd, ExponentEnd, FractionText, ExponentText, AllDigits;
    var i := IntegerEnd(s).value;
    var f := FractionEnd(s, i).value;
    var e := ExponentEnd(s, f).value;
    var negative, integer := SpellInteger(s);
    var fraction := SpellFraction(s, i);
    var exponent := SpellExponent(s, f);
    n := Numeral(negative, integer, fraction, exponent);
    assert s[..i] + (s[i..f] + s[f..e]) == s[..e];
  }

  lemma DigitsFirst(s: Bytes)
    ensures s != [] && Digit(s[0]) ==> Digits(s) > 0
  {
  }

  lemma SpellExponent(s: Bytes, f: nat) returns (exponent: Option<Exponent>)
    requires f <= |s| && ExponentEnd(s, f).Some?
    ensures exponent.Some? ==> ExponentOk(exponent.value)
    ensures ExponentText(exponent) == s[f..ExponentEnd(s, f).value]
  {
    hide Digits;
    var e := ExponentEnd(s, f).value;
    exponent := None;
    if f < |s| && (s[f] == 0x65 || s[f] == 0x45) {
      var start := ExponentDigitsStart(s, f);
      DigitsFront(s[start..]);
      assert s[start..][..e - start] == s[start..e];
      if start == f + 2 {
        exponent := Some(Exponent(s[f], Some(s[f + 1]), s[start..e]));
        assert s[f..e] == [s[f]] + [s[f + 1]] + s[start..e];
      } else {
        exponent := Some(Exponent(s[f], None, s[start..e]));
        assert s[f..e] == [s[f]] + [] + s[start..e];
      }
    }
  }

  // ---------- Space ----------

  lemma {:induction false} SkipMore(space: Bytes, t: Bytes)
    requires AllSpace(space)
    ensures SkipSpace(space + t) == SkipSpace(t)
  {
    if space == [] {
      assert space + t == t;
    } else {
      SpaceUnfold(space + t);
      assert space[0] in space;
      assert (space + t)[1..] == space[1..] + t;
      SkipMore(space[1..], t);
    }
  }

  lemma SkipNone(t: Bytes)
    requires t == [] || !Space(t[0])
    ensures SkipSpace(t) == t
  {
  }

  lemma {:induction false} SkipSkipped(s: Bytes)
    ensures SkipSpace(SkipSpace(s)) == SkipSpace(s)
  {
    SkipNone(SkipSpace(s));
  }

  /** The space skipped, and the text after it. */
  lemma SpellSpace(s: Bytes) returns (space: Bytes)
    ensures AllSpace(space) && s == space + SkipSpace(s)
  {
    var n := |s| - |SkipSpace(s)|;
    space := s[..n];
    forall b <- space ensures Space(b) {
      var k :| 0 <= k < |space| && space[k] == b;
      assert s[k] == b;
    }
  }

  // ---------- Values ----------

  lemma ValueUnfold(s: Bytes, depth: nat, rules: Rules)
    requires depth <= rules.limit && s != []
    ensures s[0] == LBRACE ==> ParseValue(s, depth, rules) == ParseObject(s, depth, rules)
    ensures s[0] == LBRACKET ==> ParseValue(s, depth, rules) == ParseArray(s, depth, rules)
    ensures s[0] == QUOTE ==> ParseValue(s, depth, rules) ==
                              match ParseText(s)
                              case Parsed(text, rest) => Parsed(Text(text), rest)
                              case Refused(why) => Refused(why)
    ensures s[0] == 0x74 ==> ParseValue(s, depth, rules) == ParseWord(s, TRUE_WORD, True)
    ensures s[0] == 0x66 ==> ParseValue(s, depth, rules) == ParseWord(s, FALSE_WORD, False)
    ensures s[0] == 0x6E ==> ParseValue(s, depth, rules) == ParseWord(s, NULL_WORD, Null)
    ensures s[0] !in {LBRACE, LBRACKET, QUOTE, 0x74, 0x66, 0x6E} ==> ParseValue(s, depth, rules) == ParseNumber(s, rules)
  {
    hide ParseObject, ParseArray, ParseText, ParseWord, ParseNumber;
  }

  /** A value's text starts with neither space nor a closing or separating byte. */
  lemma TreeFirst(t: Tree)
    requires TreeOk(t)
    ensures TreeText(t) != [] && !Space(TreeText(t)[0])
    ensures TreeText(t)[0] != RBRACKET && TreeText(t)[0] != RBRACE && TreeText(t)[0] != COMMA && TreeText(t)[0] < 0x80
  {
    hide ItemsText, FieldsText, CharsText, FractionText, ExponentText;
    if t.Numerals? {
      assert t.numeral.integer[0] in t.numeral.integer;
    }
  }

  lemma TextRead(chars: seq<CharSpelling>, rest: Bytes)
    requires CharsOk(chars)
    ensures Next(StringText(chars) + rest, QUOTE)
    ensures ParseText(StringText(chars) + rest) == Parsed(CharsMeaning(chars), rest)
  {
    hide CharsText, DecodeChars;
    CharsRead(chars, rest);
    assert (StringText(chars) + rest)[1..] == CharsText(chars) + ([QUOTE] + rest);
  }

  lemma NumberRead(n: Numeral, rest: Bytes, rules: Rules)
    requires NumeralOk(n) && Boundary(rest)
    requires rules.strict && Inexact(NumeralText(n)) ==> Finite(NumeralText(n))
    ensures ParseNumber(NumeralText(n) + rest, rules) == Parsed(Number(NumeralText(n)), rest)
  {
    hide NumberEnd, Inexact, Finite;
    NumeralRead(n, rest);
    var s := NumeralText(n) + rest;
    assert s[..|NumeralText(n)|] == NumeralText(n);
  }

  /** Every text of the grammar whose value is acceptable is read as that value. */
  lemma {:induction false} TreeRead(t: Tree, rest: Bytes, depth: nat, rules: Rules)
    requires TreeOk(t) && Boundary(rest)
    requires Acceptable(TreeMeaning(t), depth, rules)
    ensures ParseValue(TreeText(t) + rest, depth, rules) == Parsed(TreeMeaning(t), rest)
    decreases t, 1
  {
    hide ParseValue, ParseArray, ParseObject, ParseNumber, ParseText, Inexact, Finite;
    var s := TreeText(t) + rest;
    TreeFirst(t);
    ValueUnfold(s, depth, rules);
    match t {
      case Word(v) =>
        WordRead(v, rest);
      case Numerals(n) =>
        NumeralFirst(n);
        NumberRead(n, rest, rules);
      case Quoted(chars) =>
        TextRead(chars, rest);
      case NoItems(space) =>
        EmptyArrayRead(space, rest, depth, rules);
      case Items(items) =>
        ArrayRead(t, rest, depth, rules);
      case NoFields(space) =>
        EmptyObjectRead(space, rest, depth, rules);
      case Fields(fields) =>
        ObjectRead(t, rest, depth, rules);
    }
  }

  lemma WordRead(v: Value, rest: Bytes)
    requires v == Null || v == True || v == False
    ensures ParseWord(TreeText(Word(v)) + rest, TreeText(Word(v)), v) == Parsed(v, rest)
  {
    var word := TreeText(Word(v));
    assert word <= word + rest && (word + rest)[|word|..] == rest;
  }

  lemma EmptyArrayRead(space: Bytes, rest: Bytes, depth: nat, rules: Rules)
    requires AllSpace(space)
    ensures Next(TreeText(NoItems(space)) + rest, LBRACKET)
    ensures ParseArray(TreeText(NoItems(space)) + rest, depth, rules) == Parsed(Array([]), rest)
  {
    hide ParseArray, SkipSpace;
    var s := TreeText(NoItems(space)) + rest;
    var tail := [RBRACKET] + rest;
    Regroup3([LBRACKET] + space, [RBRACKET], rest);
    Regroup3([LBRACKET], space, tail);
    assert s[1..] == space + tail;
    assert tail[1..] == rest;
    SkipMore(space, tail);
    SkipNone(tail);
    ArrayUnfold(s, depth, rules);
  }

  lemma EmptyObjectRead(space: Bytes, rest: Bytes, depth: nat, rules: Rules)
    requires AllSpace(space)
    ensures Next(TreeText(NoFields(space)) + rest, LBRACE)
    ensures ParseObject(TreeText(NoFields(space)) + rest, depth, rules) == Parsed(Object([]), rest)
  {
    hide ParseObject, SkipSpace;
    var s := TreeText(NoFields(space)) + rest;
    var tail := [RBRACE] + rest;
    Regroup3([LBRACE] + space, [RBRACE], rest);
    Regroup3([LBRACE], space, tail);
    assert s[1..] == space + tail;
    assert tail[1..] == rest;
    SkipMore(space, tail);
    SkipNone(tail);
    ObjectUnfold(s, depth, rules);
  }

  lemma NumeralFirst(n: Numeral)
    requires NumeralOk(n)
    ensures NumeralText(n) != [] && (NumeralText(n)[0] == 0x2D || Digit(NumeralText(n)[0]))
  {
    assert n.integer[0] in n.integer;
  }

  lemma {:induction false} ArrayRead(t: Tree, rest: Bytes, depth: nat, rules: Rules)
    requires t.Items? && TreeOk(t) && Acceptable(TreeMeaning(t), depth, rules)
    ensures Next(TreeText(t) + rest, LBRACKET)
    ensures ParseArray(TreeText(t) + rest, depth, rules) == Parsed(TreeMeaning(t), rest)
    decreases t, 0
  {
    hide ParseArray, ParseItems, SkipSpace;
    var s := TreeText(t) + rest;
    var text := ItemsText(t.items) + rest;
    assert s[1..] == text;
    ItemsRead(t.items, rest, depth, rules);
    ItemsFirst(t.items, rest);
    ItemsSkip(text, depth, rules);
    ArrayUnfold(s, depth, rules);
  }

  lemma ItemsFirst(items: seq<Item>, rest: Bytes)
    requires items != [] && ItemsOk(items)
    ensures !Next(SkipSpace(ItemsText(items) + rest), RBRACKET)
  {
    hide SkipSpace, TreeText;
    var i := items[0];
    TreeFirst(i.tree);
    var tail := ItemsText(items)[|ItemText(i)|..] + rest;
    assert ItemsText(items) + rest == i.before + (TreeText(i.tree) + i.after + tail);
    SkipMore(i.before, TreeText(i.tree) + i.after + tail);
    SkipNone(TreeText(i.tree) + i.after + tail);
  }

  lemma ItemsSkip(s: Bytes, depth: nat, rules: Rules)
    ensures ParseItems(SkipSpace(s), depth, rules) == ParseItems(s, depth, rules)
  {
    hide SkipSpace, ParseItems;
    SkipSkipped(s);
    ItemsUnfold(s, depth, rules);
    ItemsUnfold(SkipSpace(s), depth, rules);
  }

  /** One item's text. */
  lemma {:induction false} ItemRead(i: Item, rest: Bytes, depth: nat, rules: Rules)
    requires AllSpace(i.before) && AllSpace(i.after) && TreeOk(i.tree)
    requires Acceptable(TreeMeaning(i.tree), depth, rules) && Boundary(i.after + rest)
    ensures ParseValue(SkipSpace(ItemText(i) + rest), depth, rules) == Parsed(TreeMeaning(i.tree), i.after + rest)
    decreases i
  {
    hide ParseValue, SkipSpace, TreeText, TreeMeaning, TreeOk, Acceptable, Boundary;
    var value := TreeText(i.tree) + (i.after + rest);
    Regroup(TreeText(i.tree), i.after, rest);
    Regroup(i.before, TreeText(i.tree) + i.after, rest);
    TreeFirst(i.tree);
    SkipMore(i.before, value);
    SkipNone(value);
    TreeRead(i.tree, i.after + rest, depth, rules);
  }

  lemma ItemsHead(items: seq<Item>, depth: nat, rules: Rules)
    requires items != [] && ItemsOk(items) && ItemsAcceptable(ItemsMeaning(items), depth, rules)
    ensures var i := items[0];
            AllSpace(i.before) && AllSpace(i.after) && TreeOk(i.tree) && Acceptable(TreeMeaning(i.tree), depth, rules)
    ensures ItemsOk(items[1..]) && ItemsAcceptable(ItemsMeaning(items[1..]), depth, rules)
    ensures ItemsMeaning(items) == [TreeMeaning(items[0].tree)] + ItemsMeaning(items[1..])
  {
    hide TreeOk, TreeMeaning, Acceptable, AllSpace;
    var meaning := ItemsMeaning(items);
    assert meaning[0] == TreeMeaning(items[0].tree) && meaning[1..] == ItemsMeaning(items[1..]);
  }

  lemma FieldsHead(fields: seq<Field>, depth: nat, rules: Rules)
    requires fields != [] && FieldsOk(fields) && MembersAcceptable(FieldsMeaning(fields), depth, rules)
    ensures var f := fields[0];
            FieldSpaceOk(f) && CharsOk(f.key) && TreeOk(f.tree) && Acceptable(TreeMeaning(f.tree), depth, rules)
    ensures FieldsOk(fields[1..]) && MembersAcceptable(FieldsMeaning(fields[1..]), depth, rules)
    ensures FieldsMeaning(fields) == [Member(CharsMeaning(fields[0].key), TreeMeaning(fields[0].tree))] + FieldsMeaning(fields[1..])
  {
    hide TreeOk, TreeMeaning, Acceptable, FieldSpaceOk, CharsOk, CharsMeaning;
    var meaning := FieldsMeaning(fields);
    assert meaning[0] == Member(CharsMeaning(fields[0].key), TreeMeaning(fields[0].tree)) && meaning[1..] == FieldsMeaning(fields[1..]);
  }

  lemma ItemsTextStep(items: seq<Item>, rest: Bytes)
    requires items != []
    ensures |items| == 1 ==> ItemsText(items) + rest == ItemText(items[0]) + ([RBRACKET] + rest)
    ensures |items| > 1 ==> ItemsText(items) + rest == ItemText(items[0]) + ([COMMA] + (ItemsText(items[1..]) + rest))
  {
    hide ItemText;
    var head := ItemText(items[0]);
    if |items| == 1 {
      Regroup(head, [RBRACKET], rest);
    } else {
      Regroup(head, [COMMA] + ItemsText(items[1..]), rest);
      Regroup([COMMA], ItemsText(items[1..]), rest);
    }
  }

  lemma {:induction false} ItemsRead(items: seq<Item>, rest: Bytes, depth: nat, rules: Rules)
    requires items != [] && ItemsOk(items)
    requires ItemsAcceptable(ItemsMeaning(items), depth + 1, rules)
    ensures ParseItems(ItemsText(items) + rest, depth, rules) == Parsed(ItemsMeaning(items), rest)
    decreases items
  {
    hide ParseItems, ParseValue, SkipSpace, TreeText, TreeMeaning, TreeOk, Acceptable, ItemText, ItemsText,
         ItemsMeaning, ItemsOk, ItemsAcceptable, Boundary;
    var i := items[0];
    var meaning := ItemsMeaning(items);
    ItemsHead(items, depth + 1, rules);
    var tail := if |items| == 1 then [RBRACKET] + rest else [COMMA] + (ItemsText(items[1..]) + rest);
    ItemsTextStep(items, rest);
    AfterBoundary(i.after, tail);
    ItemRead(i, tail, depth + 1, rules);
    SkipMore(i.after, tail);
    SkipNone(tail);
    ItemsUnfold(ItemText(i) + tail, depth, rules);
    if |items| == 1 {
      assert tail[1..] == rest;
      assert meaning == [TreeMeaning(i.tree)];
    } else {
      assert tail[1..] == ItemsText(items[1..]) + rest;
      ItemsRead(items[1..], rest, depth, rules);
    }
  }

  lemma AfterBoundary(space: Bytes, tail: Bytes)
    requires AllSpace(space) && tail != [] && (tail[0] == COMMA || tail[0] == RBRACKET || tail[0] == RBRACE)
    ensures Boundary(space + tail)
  {
    if space != [] {
      assert space[0] in space;
    }
  }

  lemma {:induction false} ObjectRead(t: Tree, rest: Bytes, depth: nat, rules: Rules)
    requires t.Fields? && TreeOk(t) && Acceptable(TreeMeaning(t), depth, rules)
    ensures Next(TreeText(t) + rest, LBRACE)
    ensures ParseObject(TreeText(t) + rest, depth, rules) == Parsed(TreeMeaning(t), rest)
    decreases t, 0
  {
    hide ParseObject, ParseMembers, SkipSpace, DistinctKeys;
    var s := TreeText(t) + rest;
    var text := FieldsText(t.fields) + rest;
    assert s[1..] == text;
    FieldsRead(t.fields, rest, depth, rules);
    FieldsFirst(t.fields, rest);
    MembersSkip(text, depth, rules);
    ObjectUnfold(s, depth, rules);
  }

  lemma FieldsFirst(fields: seq<Field>, rest: Bytes)
    requires fields != [] && FieldsOk(fields)
    ensures Next(SkipSpace(FieldsText(fields) + rest), QUOTE)
  {
    hide SkipSpace, TreeText;
    var f := fields[0];
    var tail := f.beforeColon + ([COLON] + (f.afterColon + (TreeText(f.tree) + f.after)));
    var more := FieldsText(fields)[|FieldText(f)|..] + rest;
    assert FieldsText(fields) + rest == f.before + (StringText(f.key) + tail + more);
    SkipMore(f.before, StringText(f.key) + tail + more);
    SkipNone(StringText(f.key) + tail + more);
  }

  lemma MembersSkip(s: Bytes, depth: nat, rules: Rules)
    ensures ParseMembers(SkipSpace(s), depth, rules) == ParseMembers(s, depth, rules)
  {
    hide SkipSpace, ParseMembers;
    SkipSkipped(s);
    MembersUnfold(s, depth, rules);
    MembersUnfold(SkipSpace(s), depth, rules);
  }

  /** One member's text, from its key. */
  lemma {:induction false} FieldRead(f: Field, rest: Bytes, depth: nat, rules: Rules)
    requires FieldSpaceOk(f) && CharsOk(f.key) && TreeOk(f.tree)
    requires Acceptable(TreeMeaning(f.tree), depth + 1, rules) && Boundary(f.after + rest)
    ensures ParseMember(SkipSpace(FieldText(f) + rest), depth, rules)
         == Parsed(Member(CharsMeaning(f.key), TreeMeaning(f.tree)), f.after + rest)
    decreases f
  {
    hide ParseMember, ParseValue, ParseText, SkipSpace, TreeText, TreeMeaning, TreeOk, Acceptable, StringText, Boundary;
    var value := TreeText(f.tree) + (f.after + rest);
    var colon := [COLON] + (f.afterColon + value);
    var keyed := StringText(f.key) + (f.beforeColon + colon);
    FieldParts(f, rest);
    TextRead(f.key, f.beforeColon + colon);
    SkipMore(f.before, keyed);
    SkipNone(keyed);
    SkipMore(f.beforeColon, colon);
    SkipNone(colon);
    assert colon[1..] == f.afterColon + value;
    SkipMore(f.afterColon, value);
    TreeFirst(f.tree);
    SkipNone(value);
    TreeRead(f.tree, f.after + rest, depth + 1, rules);
    MemberUnfold(keyed, depth, rules);
  }

  lemma FieldParts(f: Field, rest: Bytes)
    ensures FieldText(f) + rest
         == f.before + (StringText(f.key) + (f.beforeColon + ([COLON] + (f.afterColon + (TreeText(f.tree) + (f.after + rest))))))
  {
    hide TreeText, StringText;
    Nest(f.before, StringText(f.key), f.beforeColon, [COLON], f.afterColon, TreeText(f.tree), f.after, rest);
  }

  lemma Nest(a: Bytes, b: Bytes, c: Bytes, d: Bytes, e: Bytes, f: Bytes, g: Bytes, h: Bytes)
    ensures a + (b + (c + (d + (e + (f + g))))) + h == a + (b + (c + (d + (e + (f + (g + h))))))
  {
    Regroup(f, g, h);
    Regroup(e, f + g, h);
    Regroup(d, e + (f + g), h);
    Regroup(c, d + (e + (f + g)), h);
    Regroup(b, c + (d + (e + (f + g))), h);
    Regroup(a, b + (c + (d + (e + (f + g)))), h);
  }

  lemma FieldsTextStep(fields: seq<Field>, rest: Bytes)
    requires fields != []
    ensures |fields| == 1 ==> FieldsText(fields) + rest == FieldText(fields[0]) + ([RBRACE] + rest)
    ensures |fields| > 1 ==> FieldsText(fields) + rest == FieldText(fields[0]) + ([COMMA] + (FieldsText(fields[1..]) + rest))
  {
    hide FieldText;
    var head := FieldText(fields[0]);
    if |fields| == 1 {
      Regroup(head, [RBRACE], rest);
    } else {
      Regroup(head, [COMMA] + FieldsText(fields[1..]), rest);
      Regroup([COMMA], FieldsText(fields[1..]), rest);
    }
  }

  lemma {:induction false} FieldsRead(fields: seq<Field>, rest: Bytes, depth: nat, rules: Rules)
    requires fields != [] && FieldsOk(fields)
    requires MembersAcceptable(FieldsMeaning(fields), depth + 1, rules)
    ensures ParseMembers(FieldsText(fields) + rest, depth, rules) == Parsed(FieldsMeaning(fields), rest)
    decreases fields
  {
    hide ParseMembers, ParseMember, SkipSpace, TreeText, TreeMeaning, TreeOk, Acceptable, FieldText, FieldsText, CharsMeaning, CharsOk,
         FieldsMeaning, FieldsOk, MembersAcceptable, Boundary;
    var f := fields[0];
    var meaning := FieldsMeaning(fields);
    FieldsHead(fields, depth + 1, rules);
    var tail := if |fields| == 1 then [RBRACE] + rest else [COMMA] + (FieldsText(fields[1..]) + rest);
    FieldsTextStep(fields, rest);
    AfterBoundary(f.after, tail);
    FieldRead(f, tail, depth, rules);
    SkipMore(f.after, tail);
    SkipNone(tail);
    MembersUnfold(FieldText(f) + tail, depth, rules);
    if |fields| == 1 {
      assert tail[1..] == rest;
      assert meaning == [meaning[0]];
    } else {
      assert tail[1..] == FieldsText(fields[1..]) + rest;
      FieldsRead(fields[1..], rest, depth, rules);
    }
  }

  // ---------- And back: what is read was written by the grammar ----------

  /** How a value that was read had been written. */
  lemma {:induction false} SpellTree(s: Bytes, depth: nat, rules: Rules) returns (t: Tree)
    requires ParseValue(s, depth, rules).Parsed?
    ensures TreeOk(t) && TreeMeaning(t) == ParseValue(s, depth, rules).value
    ensures s == TreeText(t) + ParseValue(s, depth, rules).rest
    ensures Acceptable(TreeMeaning(t), depth, rules)
    decreases |s|, 2
  {
    hide ParseArray, ParseObject, ParseText, ParseNumber, ParseValue;
    NoValue(s, depth, rules);
    ValueUnfold(s, depth, rules);
    if s[0] == LBRACE {
      t := SpellObject(s, depth, rules);
    } else if s[0] == LBRACKET {
      t := SpellArray(s, depth, rules);
    } else if s[0] == QUOTE {
      var chars := SpellText(s);
      t := Quoted(chars);
    } else if s[0] == 0x74 {
      t := Word(True);
    } else if s[0] == 0x66 {
      t := Word(False);
    } else if s[0] == 0x6E {
      t := Word(Null);
    } else {
      t := SpellNumber(s, rules);
    }
  }

  lemma NoValue(s: Bytes, depth: nat, rules: Rules)
    requires ParseValue(s, depth, rules).Parsed?
    ensures depth <= rules.limit && s != []
  {
    hide ParseArray, ParseObject, ParseText, ParseNumber;
  }

  lemma SpellText(s: Bytes) returns (chars: seq<CharSpelling>)
    requires Next(s, QUOTE) && ParseText(s).Parsed?
    ensures CharsOk(chars) && CharsMeaning(chars) == ParseText(s).value
    ensures s == StringText(chars) + ParseText(s).rest
  {
    hide DecodeChars, CharsText, CharsMeaning, CharsOk;
    chars := SpellChars(s[1..]);
    var rest := ParseText(s).rest;
    Regroup([QUOTE], CharsText(chars), [QUOTE] + rest);
    Regroup3([QUOTE] + CharsText(chars), [QUOTE], rest);
    assert s == [QUOTE] + s[1..];
  }

  lemma SpellNumber(s: Bytes, rules: Rules) returns (t: Tree)
    requires ParseNumber(s, rules).Parsed?
    ensures TreeOk(t) && t.Numerals? && TreeMeaning(t) == ParseNumber(s, rules).value
    ensures s == TreeText(t) + ParseNumber(s, rules).rest
    ensures rules.strict && Inexact(ParseNumber(s, rules).value.token) ==> Finite(ParseNumber(s, rules).value.token)
  {
    hide NumberEnd, Inexact, Finite, NumeralOk, NumeralText;
    var n := SpellNumeral(s);
    t := Numerals(n);
    var end := NumberEnd(s).value;
    assert s == s[..end] + s[end..];
  }

  lemma {:induction false} SpellArray(s: Bytes, depth: nat, rules: Rules) returns (t: Tree)
    requires Next(s, LBRACKET) && ParseArray(s, depth, rules).Parsed? && depth <= rules.limit
    ensures TreeOk(t) && TreeMeaning(t) == ParseArray(s, depth, rules).value
    ensures s == TreeText(t) + ParseArray(s, depth, rules).rest
    ensures Acceptable(TreeMeaning(t), depth, rules)
    decreases |s|, 1
  {
    hide ParseArray, ParseItems, SkipSpace, ItemsText;
    ArrayUnfold(s, depth, rules);
    var inside := SkipSpace(s[1..]);
    assert s == [LBRACKET] + s[1..];
    if Next(inside, RBRACKET) {
      var space := SpellSpace(s[1..]);
      t := NoItems(space);
      assert inside == [RBRACKET] + inside[1..];
      Flatten4([LBRACKET], space, [RBRACKET], inside[1..]);
    } else {
      ItemsSkip(s[1..], depth, rules);
      var items := SpellItems(s[1..], depth, rules);
      t := Items(items);
      Regroup([LBRACKET], ItemsText(items), ParseArray(s, depth, rules).rest);
    }
  }

  lemma Flatten4(a: Bytes, b: Bytes, c: Bytes, d: Bytes)
    ensures a + (b + (c + d)) == a + b + c + d
  {
  }

  lemma {:induction false} SpellItems(s: Bytes, depth: nat, rules: Rules) returns (items: seq<Item>)
    requires ParseItems(s, depth, rules).Parsed?
    ensures items != [] && ItemsOk(items) && ItemsMeaning(items) == ParseItems(s, depth, rules).value
    ensures s == ItemsText(items) + ParseItems(s, depth, rules).rest
    ensures ItemsAcceptable(ItemsMeaning(items), depth + 1, rules)
    decreases |s|, 3
  {
    hide ParseItems, ParseValue, SkipSpace, TreeText, TreeMeaning, TreeOk, Acceptable, ItemText, ItemsText, ItemsMeaning, ItemsOk, ItemsAcceptable;
    ItemsUnfold(s, depth, rules);
    var value := ParseValue(SkipSpace(s), depth + 1, rules);
    var before := SpellSpace(s);
    var tree := SpellTree(SkipSpace(s), depth + 1, rules);
    var after := SpellSpace(value.rest);
    var item := Item(before, tree, after);
    var tail := SkipSpace(value.rest);
    ItemWhole(item, tail);
    if Next(tail, COMMA) {
      var more := SpellItems(tail[1..], depth, rules);
      items := [item] + more;
      assert items[1..] == more;
      assert tail == [COMMA] + tail[1..];
      ItemsTextStep(items, ParseItems(s, depth, rules).rest);
      ItemsJoin(item, more, depth + 1, rules);
    } else {
      items := [item];
      assert tail == [RBRACKET] + tail[1..];
      ItemsTextStep(items, tail[1..]);
      NoMoreItems(depth + 1, rules);
      ItemsJoin(item, [], depth + 1, rules);
      assert [item] + [] == [item];
    }
  }

  lemma NoMoreItems(depth: nat, rules: Rules)
    ensures ItemsOk([]) && ItemsMeaning([]) == [] && ItemsAcceptable([], depth, rules)
    ensures FieldsOk([]) && FieldsMeaning([]) == [] && MembersAcceptable([], depth, rules)
  {
  }

  lemma ItemWhole(i: Item, tail: Bytes)
    ensures i.before + (TreeText(i.tree) + (i.after + tail)) == ItemText(i) + tail
  {
    hide TreeText;
    Regroup(TreeText(i.tree), i.after, tail);
    Regroup(i.before, TreeText(i.tree) + i.after, tail);
  }

  lemma ItemsJoin(item: Item, more: seq<Item>, depth: nat, rules: Rules)
    requires AllSpace(item.before) && AllSpace(item.after) && TreeOk(item.tree) && Acceptable(TreeMeaning(item.tree), depth, rules)
    requires ItemsOk(more) && ItemsAcceptable(ItemsMeaning(more), depth, rules)
    ensures ItemsOk([item] + more)
    ensures ItemsMeaning([item] + more) == [TreeMeaning(item.tree)] + ItemsMeaning(more)
    ensures ItemsAcceptable(ItemsMeaning([item] + more), depth, rules)
  {
    hide TreeOk, TreeMeaning, Acceptable, AllSpace;
    assert ([item] + more)[1..] == more;
    assert ([TreeMeaning(item.tree)] + ItemsMeaning(more))[1..] == ItemsMeaning(more);
  }

  lemma {:induction false} SpellObject(s: Bytes, depth: nat, rules: Rules) returns (t: Tree)
    requires Next(s, LBRACE) && ParseObject(s, depth, rules).Parsed? && depth <= rules.limit
    ensures TreeOk(t) && TreeMeaning(t) == ParseObject(s, depth, rules).value
    ensures s == TreeText(t) + ParseObject(s, depth, rules).rest
    ensures Acceptable(TreeMeaning(t), depth, rules)
    decreases |s|, 1
  {
    hide ParseObject, ParseMembers, SkipSpace, FieldsText, DistinctKeys;
    ObjectUnfold(s, depth, rules);
    var inside := SkipSpace(s[1..]);
    assert s == [LBRACE] + s[1..];
    if Next(inside, RBRACE) {
      var space := SpellSpace(s[1..]);
      t := NoFields(space);
      assert inside == [RBRACE] + inside[1..];
      Flatten4([LBRACE], space, [RBRACE], inside[1..]);
      NoKeys();
    } else {
      MembersSkip(s[1..], depth, rules);
      var fields := SpellFields(s[1..], depth, rules);
      t := Fields(fields);
      Regroup([LBRACE], FieldsText(fields), ParseObject(s, depth, rules).rest);
    }
  }

  lemma NoKeys()
    ensures DistinctKeys<Value>([])
  {
  }

  lemma {:induction false} SpellField(s: Bytes, depth: nat, rules: Rules) returns (f: Field, tail: Bytes)
    requires ParseMember(SkipSpace(s), depth, rules).Parsed?
    ensures FieldSpaceOk(f) && CharsOk(f.key) && TreeOk(f.tree) && Acceptable(TreeMeaning(f.tree), depth + 1, rules)
    ensures Member(CharsMeaning(f.key), TreeMeaning(f.tree)) == ParseMember(SkipSpace(s), depth, rules).value
    ensures tail == SkipSpace(ParseMember(SkipSpace(s), depth, rules).rest)
    ensures s == FieldText(f) + tail
    decreases |s|, 3
  {
    hide ParseMember, ParseValue, ParseText, SkipSpace, TreeText, TreeMeaning, TreeOk, Acceptable, StringText, FieldText, CharsOk, CharsMeaning, AllSpace;
    var keyed := SkipSpace(s);
    MemberUnfold(keyed, depth, rules);
    var before := SpellSpace(s);
    var key := SpellText(keyed);
    var keyRest := ParseText(keyed).rest;
    var beforeColon := SpellSpace(keyRest);
    var colon := SkipSpace(keyRest);
    Uncons(colon, COLON);
    var afterColon := SpellSpace(colon[1..]);
    var tree := SpellTree(SkipSpace(colon[1..]), depth + 1, rules);
    var rest := ParseValue(SkipSpace(colon[1..]), depth + 1, rules).rest;
    var after := SpellSpace(rest);
    f := Field(before, key, beforeColon, afterColon, tree, after);
    tail := SkipSpace(rest);
    FieldParts(f, tail);
  }

  lemma Uncons(s: Bytes, b: Byte)
    requires Next(s, b)
    ensures s == [b] + s[1..]
  {
  }

  lemma {:induction false} SpellFields(s: Bytes, depth: nat, rules: Rules) returns (fields: seq<Field>)
    requires ParseMembers(s, depth, rules).Parsed?
    ensures fields != [] && FieldsOk(fields) && FieldsMeaning(fields) == ParseMembers(s, depth, rules).value
    ensures s == FieldsText(fields) + ParseMembers(s, depth, rules).rest
    ensures MembersAcceptable(FieldsMeaning(fields), depth + 1, rules)
    decreases |s|, 4
  {
    hide ParseMembers, ParseMember, SkipSpace, TreeMeaning, TreeOk, Acceptable, FieldText, FieldsText, FieldsMeaning, FieldsOk, MembersAcceptable,
         CharsMeaning, CharsOk, FieldSpaceOk;
    MembersUnfold(s, depth, rules);
    var field, tail := SpellField(s, depth, rules);
    if Next(tail, COMMA) {
      var more := SpellFields(tail[1..], depth, rules);
      fields := [field] + more;
      assert fields[1..] == more;
      assert tail == [COMMA] + tail[1..];
      FieldsTextStep(fields, ParseMembers(s, depth, rules).rest);
      FieldsJoin(field, more, depth + 1, rules);
    } else {
      fields := [field];
      assert tail == [RBRACE] + tail[1..];
      FieldsTextStep(fields, tail[1..]);
      NoMoreItems(depth + 1, rules);
      FieldsJoin(field, [], depth + 1, rules);
      assert [field] + [] == [field];
    }
  }

  lemma FieldsJoin(field: Field, more: seq<Field>, depth: nat, rules: Rules)
    requires FieldSpaceOk(field) && CharsOk(field.key) && TreeOk(field.tree) && Acceptable(TreeMeaning(field.tree), depth, rules)
    requires FieldsOk(more) && MembersAcceptable(FieldsMeaning(more), depth, rules)
    ensures FieldsOk([field] + more)
    ensures FieldsMeaning([field] + more) == [Member(CharsMeaning(field.key), TreeMeaning(field.tree))] + FieldsMeaning(more)
    ensures MembersAcceptable(FieldsMeaning([field] + more), depth, rules)
  {
    hide TreeOk, TreeMeaning, Acceptable, FieldSpaceOk, CharsOk, CharsMeaning;
    assert ([field] + more)[1..] == more;
    var member := Member(CharsMeaning(field.key), TreeMeaning(field.tree));
    assert ([member] + FieldsMeaning(more))[1..] == FieldsMeaning(more);
  }

  // ---------- Documents ----------

  /** Whether a text is a document of the grammar with this acceptable value. */
  ghost predicate Writes(s: Bytes, v: Value, rules: Rules) {
    exists d: Document :: DocumentOk(d) && DocumentText(d) == s && TreeMeaning(d.tree) == v && Acceptable(v, 0, rules)
  }

  /** However it is written, a document is read as its value. */
  lemma DocumentRead(d: Document, rules: Rules)
    requires DocumentOk(d) && Acceptable(TreeMeaning(d.tree), 0, rules)
    ensures ParseDocument(DocumentText(d), rules) == Parsed(TreeMeaning(d.tree), [])
  {
    hide ParseValue, SkipSpace, TreeText, TreeMeaning, Acceptable, TreeOk;
    TreeFirst(d.tree);
    SkipMore(d.before, TreeText(d.tree) + d.after);
    SkipNone(TreeText(d.tree) + d.after);
    if d.after != [] {
      assert d.after[0] in d.after;
    }
    TreeRead(d.tree, d.after, 0, rules);
    SkipMore(d.after, []);
    SkipNone([]);
    assert d.after + [] == d.after;
  }

  /** The reader accepts a text exactly when the grammar writes an acceptable value with it, and reads that value. */
  lemma ReadsTheGrammar(s: Bytes, v: Value, rules: Rules)
    ensures ParseDocument(s, rules) == Parsed(v, []) <==> Writes(s, v, rules)
  {
    hide ParseValue, SkipSpace, TreeText, TreeMeaning, Acceptable, TreeOk;
    if Writes(s, v, rules) {
      var d: Document :| DocumentOk(d) && DocumentText(d) == s && TreeMeaning(d.tree) == v && Acceptable(v, 0, rules);
      DocumentRead(d, rules);
    }
    if ParseDocument(s, rules) == Parsed(v, []) {
      var before := SpellSpace(s);
      var tree := SpellTree(SkipSpace(s), 0, rules);
      var after := SpellSpace(ParseValue(SkipSpace(s), 0, rules).rest);
      var d := Document(before, tree, after);
      assert after == after + [];
      assert DocumentOk(d) && DocumentText(d) == s;
    }
  }
}
