/** How the canonical form spells a value: no document that writes the value in that order is shorter. */
module CanonicalSpelling {
  import opened Bytes
  import opened JsonText
  import opened KeyOrder
  import opened Json
  import opened JsonPieces
  import opened Grammar
  import opened GrammarReading
  import opened CanonicalForm
  import opened CanonicalRoundTrip
  import opened Established
  import Utf8

  // ---------- Lengths ----------

  /** How many bytes the printed text of a valid string takes. */
  function Cost(text: Bytes): nat {
    if text == [] then 0 else CostOf(text[0]) + Cost(text[1..])
  }

  function CostOf(b: Byte): nat {
    if b < 0x80 then |EscapeAscii(b)| else 1
  }

  lemma {:induction false} CostJoins(a: Bytes, b: Bytes)
    ensures Cost(a + b) == Cost(a) + Cost(b)
  {
    hide CostOf;
    if a == [] {
      assert a + b == b;
    } else {
      assert (a + b)[1..] == a[1..] + b;
      CostJoins(a[1..], b);
    }
  }

  lemma {:induction false} CostHigh(text: Bytes)
    requires forall b <- text :: b >= 0x80
    ensures Cost(text) == |text|
  {
    if text != [] {
      assert text[0] in text && forall b <- text[1..] :: b in text;
      CostHigh(text[1..]);
    }
  }

  lemma RuneHigh(text: Bytes)
    requires Utf8.RuneLength(text) > 0 && text[0] >= 0x80
    ensures forall b <- text[..Utf8.RuneLength(text)] :: b >= 0x80
  {
    var n := Utf8.RuneLength(text);
    forall i | 0 <= i < n ensures text[i] >= 0x80 {
      if i > 0 {
        Utf8.RuneTail(text, i);
      }
    }
  }

  lemma {:induction false} CharsCost(text: Bytes)
    requires Utf8.Valid(text)
    ensures |CanonicalChars(text)| == Cost(text)
    decreases |text|
  {
    hide EscapeAscii;
    if text != [] {
      var n := Utf8.RuneLength(text);
      CharsCost(text[n..]);
      if text[0] >= 0x80 {
        RuneHigh(text);
        CostHigh(text[..n]);
        CostJoins(text[..n], text[n..]);
        assert text == text[..n] + text[n..];
      }
    }
  }

  /** No spelling of a character is shorter than what it is printed as. */
  lemma SpellingCost(c: CharSpelling)
    requires CharOk(c)
    ensures Cost(CharMeaning(c)) <= |CharText(c)|
  {
    match c {
      case Raw(b) => OneCost(b);
      case Short(letter) => OneCost(ShortEscape(letter).value);
      case Unit(quad) => ScalarCost(HexQuad(quad).value);
      case Pair(high, low) => ScalarCost(Combine(HexQuad(high).value, HexQuad(low).value));
    }
  }

  lemma OneCost(b: Byte)
    ensures Cost([b]) == CostOf(b)
    ensures b >= 0x20 && b != QUOTE && b != BACKSLASH ==> CostOf(b) == 1
    ensures CostOf(b) <= 6
    ensures forall letter: Byte :: ShortEscape(letter) == Some(b) ==> CostOf(b) <= 2
  {
    assert [b][1..] == [];
  }

  lemma ScalarCost(r: nat)
    requires Utf8.Scalar(r)
    ensures Cost(Utf8.Encode(r)) <= 6
  {
    if r < 0x80 {
      OneCost(r);
    } else {
      CostHigh(Utf8.Encode(r));
    }
  }

  lemma {:induction false} SpellingsCost(chars: seq<CharSpelling>)
    requires CharsOk(chars)
    ensures Cost(CharsMeaning(chars)) <= |CharsText(chars)|
  {
    hide CharOk, CharMeaning, CharText, Cost;
    if chars != [] {
      SpellingCost(chars[0]);
      SpellingsCost(chars[1..]);
      CostJoins(CharMeaning(chars[0]), CharsMeaning(chars[1..]));
    } else {
      NothingCosts();
    }
  }

  lemma NothingCosts()
    ensures Cost([]) == 0
  {
  }

  lemma StringCost(chars: seq<CharSpelling>)
    requires CharsOk(chars) && Utf8.Valid(CharsMeaning(chars))
    ensures |CanonicalString(CharsMeaning(chars))| <= |StringText(chars)|
  {
    hide CharsOk, CharsMeaning, CharsText, CanonicalChars, Cost, Utf8.Valid;
    SpellingsCost(chars);
    CharsCost(CharsMeaning(chars));
  }

  // ---------- Documents ----------

  /** No text of a value, member order kept, is shorter than its print. */
  lemma {:induction false} TreeCost(t: Tree)
    requires TreeOk(t) && TextsValid(TreeMeaning(t))
    ensures |Print(TreeMeaning(t))| <= |TreeText(t)|
    decreases t, 1
  {
    hide CanonicalChars, CharsText, CharsOk, CharsMeaning, Utf8.Valid, NumeralText, NumeralOk, ItemsText, FieldsText, ItemsMeaning, FieldsMeaning, PrintItems, PrintMembers;
    match t {
      case Quoted(chars) => StringCost(chars);
      case Items(items) => ItemsCost(items);
      case Fields(fields) => FieldsCost(fields);
      case _ =>
    }
  }

  lemma {:induction false} ItemsCost(items: seq<Item>)
    requires items != [] && ItemsOk(items) && forall i :: 0 <= i < |items| ==> TextsValid(ItemsMeaning(items)[i])
    ensures |PrintItems(ItemsMeaning(items))| <= |ItemsText(items)|
    decreases items, 0
  {
    hide TreeText, TreeOk, TreeMeaning, TextsValid, Print;
    var values := ItemsMeaning(items);
    assert values[0] == TreeMeaning(items[0].tree);
    TreeCost(items[0].tree);
    if |items| > 1 {
      assert values[1..] == ItemsMeaning(items[1..]);
      assert forall i :: 0 <= i < |items| - 1 ==> ItemsMeaning(items[1..])[i] == values[i + 1];
      ItemsCost(items[1..]);
    }
  }

  lemma {:induction false} FieldsCost(fields: seq<Field>)
    requires fields != [] && FieldsOk(fields)
    requires forall i :: 0 <= i < |fields| ==> Utf8.Valid(FieldsMeaning(fields)[i].key) && TextsValid(FieldsMeaning(fields)[i].value)
    ensures |PrintMembers(FieldsMeaning(fields))| <= |FieldsText(fields)|
    decreases fields, 0
  {
    hide TreeText, TreeOk, TreeMeaning, TextsValid, Print, CanonicalChars, CharsText, CharsOk, CharsMeaning, Utf8.Valid;
    var members := FieldsMeaning(fields);
    assert members[0] == Member(CharsMeaning(fields[0].key), TreeMeaning(fields[0].tree));
    TreeCost(fields[0].tree);
    StringCost(fields[0].key);
    if |fields| > 1 {
      assert members[1..] == FieldsMeaning(fields[1..]);
      assert forall i :: 0 <= i < |fields| - 1 ==> FieldsMeaning(fields[1..])[i] == members[i + 1];
      FieldsCost(fields[1..]);
    }
  }

  /** No document of a value in canonical order is shorter than its canonical form: no space, and no longer escape than there has to be. */
  lemma CanonicalIsShortest(v: Value, d: Document)
    requires DocumentOk(d) && TreeMeaning(d.tree) == Normal(v) && TextsValid(Normal(v))
    ensures |Canonical(v)| <= |DocumentText(d)|
  {
    hide TreeText, TreeOk, TreeMeaning, TextsValid, Print, Normal;
    TreeCost(d.tree);
  }

  // ---------- The alphabet ----------

  /** The white space, words, digits and structure of section 2 and 3 of RFC 8259, by their characters. */
  lemma AlphabetIs(b: Byte)
    ensures Space(b) <==> b == ' ' as int || b == '\t' as int || b == '\n' as int || b == '\r' as int
    ensures Digit(b) <==> '0' as int <= b <= '9' as int
    ensures TRUE_WORD == Ascii("true") && FALSE_WORD == Ascii("false") && NULL_WORD == Ascii("null")
    ensures [LBRACKET, RBRACKET, LBRACE, RBRACE, COMMA, COLON, QUOTE, BACKSLASH, LETTER_U] == Ascii("[]{},:\"\\u")
  {
  }

  // ---------- The order of keys ----------

  /** Keys are ordered by the first byte they differ in, a key before every longer one that starts with it. */
  lemma {:induction false} LessExactly(a: Bytes, b: Bytes)
    ensures Less(a, b) <==>
              || (|a| < |b| && a == b[..|a|])
              || exists k :: 0 <= k < |a| && k < |b| && a[..k] == b[..k] && a[k] < b[k]
  {
    if |a| < |b| && a == b[..|a|] {
      PrefixLess(a, b);
    }
    if k :| 0 <= k < |a| && k < |b| && a[..k] == b[..k] && a[k] < b[k] {
      LessAtDifference(a, b, k);
    }
    if Less(a, b) {
      var k := Difference(a, b);
      assert k == |a| ==> a == b[..|a|];
    }
  }

  lemma {:induction false} PrefixLess(a: Bytes, b: Bytes)
    requires |a| < |b| && a == b[..|a|]
    ensures Less(a, b)
  {
    if a != [] {
      assert a[0] == b[0] && a[1..] == b[1..][..|a| - 1];
      PrefixLess(a[1..], b[1..]);
    }
  }

  /** Where a lesser key ends or first differs. */
  lemma {:induction false} Difference(a: Bytes, b: Bytes) returns (k: nat)
    requires Less(a, b)
    ensures k <= |a| && k < |b| && a[..k] == b[..k] && (k == |a| || a[k] < b[k])
  {
    if a == [] || a[0] != b[0] {
      k := 0;
    } else {
      var n := Difference(a[1..], b[1..]);
      k := n + 1;
      assert a[..k] == [a[0]] + a[1..][..n] && b[..k] == [b[0]] + b[1..][..n];
    }
  }

  // ---------- How deep a document may be ----------

  /** Arrays within arrays, n of them around nothing. */
  function Nested(n: nat): Tree {
    if n == 0 then NoItems([]) else Items([Item([], Nested(n - 1), [])])
  }

  lemma {:induction false} NestedOk(n: nat, depth: nat, rules: Rules)
    ensures TreeOk(Nested(n))
    ensures Acceptable(TreeMeaning(Nested(n)), depth, rules) <==> depth + n <= rules.limit
  {
    if n > 0 {
      NestedOk(n - 1, depth + 1, rules);
      var items := [Item([], Nested(n - 1), [])];
      assert items[1..] == [] && ItemsOk(items);
      assert ItemsMeaning(items) == [TreeMeaning(Nested(n - 1))];
      ItemsAcceptableIff([TreeMeaning(Nested(n - 1))], depth + 1, rules);
    }
  }

  /** The single pass reads arrays nested five hundred and twelve deep in an outermost one, and none deeper. */
  lemma DeepestRead(n: nat)
    ensures ParseDocument(DocumentText(Document([], Nested(n), [])), SINGLE_PASS).Parsed? <==> n <= 512
  {
    hide ParseDocument, TreeText, TreeMeaning, TreeOk, Acceptable;
    var d := Document([], Nested(n), []);
    var raw := DocumentText(d);
    NestedOk(n, 0, SINGLE_PASS);
    NestedOk(n, 0, Rules(n, true));
    if n <= 512 {
      DocumentRead(d, SINGLE_PASS);
    } else if ParseDocument(raw, SINGLE_PASS).Parsed? {
      DeeperLimit(raw, 512, n);
      DocumentRead(d, Rules(n, true));
      ReadsTheGrammar(raw, TreeMeaning(d.tree), SINGLE_PASS);
      assert false;
    }
  }
}
