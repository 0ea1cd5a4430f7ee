/** Canonical texts read back: what they are read as, when they are fixed points, and when two agree. */
module CanonicalRoundTrip {
  import opened Bytes
  import opened JsonText
  import opened KeyOrder
  import opened Json
  import opened JsonPieces
  import opened Grammar
  import opened GrammarReading
  import opened CanonicalForm
  import Utf8

  // ---------- Strings ----------

  /** The text with every byte that is not UTF-8 replaced, as printing replaces it. */
  function Repair(text: Bytes): Bytes
    decreases |text|
  {
    if text == [] then []
    else
      var n := Utf8.RuneLength(text);
      if n == 0 then REPLACEMENT + Repair(text[1..]) else text[..n] + Repair(text[n..])
  }

  lemma {:induction false} RepairValid(text: Bytes)
    ensures Utf8.Valid(Repair(text))
    decreases |text|
  {
    if text != [] {
      var n := Utf8.RuneLength(text);
      if n == 0 {
        RepairValid(text[1..]);
        assert REPLACEMENT[3..] == [];
        Utf8.ValidConcat(REPLACEMENT, Repair(text[1..]));
      } else {
        RepairValid(text[n..]);
        Utf8.RuneLengthLocal(text, []);
        assert text[..n][n..] == [];
        Utf8.ValidConcat(text[..n], Repair(text[n..]));
      }
    }
  }

  lemma {:induction false} RepairNothing(text: Bytes)
    requires Utf8.Valid(text)
    ensures Repair(text) == text
    decreases |text|
  {
    if text != [] {
      RepairNothing(text[Utf8.RuneLength(text)..]);
    }
  }

  lemma CharsRune(rune: Bytes, rest: Bytes)
    requires rune != [] && Utf8.RuneLength(rune) == |rune|
    ensures CanonicalChars(rune + rest) == (if rune[0] < 0x80 then EscapeAscii(rune[0]) else rune) + CanonicalChars(rest)
  {
    hide EscapeAscii;
    Utf8.RuneLengthLocal(rune, rest);
    assert (rune + rest)[..|rune|] == rune;
    assert (rune + rest)[|rune|..] == rest;
  }

  lemma CharsBad(text: Bytes)
    requires text != [] && Utf8.RuneLength(text) == 0
    ensures CanonicalChars(text) == REPLACEMENT + CanonicalChars(text[1..])
  {
  }

  /** Repairing a text changes nothing of how it prints. */
  lemma {:induction false} RepairPrints(text: Bytes)
    ensures CanonicalChars(Repair(text)) == CanonicalChars(text)
    decreases |text|
  {
    hide CanonicalChars, EscapeAscii, Repair, Utf8.RuneLength;
    if text == [] {
      NothingRepaired();
    } else {
      var n := Utf8.RuneLength(text);
      RepairUnfold(text);
      if n == 0 {
        RepairPrints(text[1..]);
        CharsBad(text);
        ReplacementRune();
        CharsRune(REPLACEMENT, Repair(text[1..]));
      } else {
        RepairPrints(text[n..]);
        Utf8.RuneLengthLocal(text, []);
        CharsRune(text[..n], Repair(text[n..]));
        CharsRune(text[..n], text[n..]);
        assert text == text[..n] + text[n..];
      }
    }
  }

  lemma NothingRepaired()
    ensures Repair([]) == []
  {
  }

  lemma RepairUnfold(text: Bytes)
    requires text != []
    ensures var n := Utf8.RuneLength(text);
            Repair(text) == if n == 0 then REPLACEMENT + Repair(text[1..]) else text[..n] + Repair(text[n..])
  {
  }

  lemma ReplacementRune()
    ensures Utf8.RuneLength(REPLACEMENT) == |REPLACEMENT| && REPLACEMENT[0] >= 0x80
  {
  }

  /** Bytes that are each written as they are. */
  function RawChars(s: Bytes): (chars: seq<CharSpelling>)
    ensures |chars| == |s|
  {
    if s == [] then [] else [Raw(s[0])] + RawChars(s[1..])
  }

  lemma {:induction false} RawSpells(s: Bytes)
    requires forall i :: 0 <= i < |s| ==> CharOk(Raw(s[i]))
    ensures CharsOk(RawChars(s)) && CharsText(RawChars(s)) == s && CharsMeaning(RawChars(s)) == s
  {
    if s != [] {
      RawSpells(s[1..]);
      SpelledMore([Raw(s[0])], RawChars(s[1..]));
      SpelledOne(Raw(s[0]));
      assert s == [s[0]] + s[1..];
    }
  }

  lemma SpelledOne(c: CharSpelling)
    requires CharOk(c)
    ensures CharsOk([c]) && CharsText([c]) == CharText(c) && CharsMeaning([c]) == CharMeaning(c)
  {
    hide CharOk, CharText, CharMeaning;
  }

  lemma {:induction false} SpelledMore(a: seq<CharSpelling>, b: seq<CharSpelling>)
    requires CharsOk(a) && CharsOk(b)
    ensures CharsOk(a + b)
    ensures CharsText(a + b) == CharsText(a) + CharsText(b)
    ensures CharsMeaning(a + b) == CharsMeaning(a) + CharsMeaning(b)
  {
    hide CharOk, CharText, CharMeaning;
    if a == [] {
      assert a + b == b;
    } else {
      SpelledMore(a[1..], b);
      assert (a + b)[0] == a[0] && (a + b)[1..] == a[1..] + b;
    }
  }

  /** The escape of an ASCII byte is a spelling of it. */
  lemma SpellAscii(b: Byte) returns (c: CharSpelling)
    requires b < 0x80
    ensures CharOk(c) && CharText(c) == EscapeAscii(b) && CharMeaning(c) == [b]
  {
    var escape := EscapeAscii(b);
    if Literal(b) {
      c := Raw(b);
    } else if |escape| == 2 {
      c := Short(escape[1]);
    } else {
      var quad := [0x30, 0x30, HexDigit(b / 16), HexDigit(b % 16)];
      assert HexValue(0x30) == Some(0);
      assert HexQuad(quad) == Some(b / 16 * 16 + b % 16);
      c := Unit(quad);
      assert escape == [BACKSLASH, LETTER_U] + quad;
    }
  }

  /** Escaping a valid text spells it: decoding undoes it. */
  lemma {:induction false} SpellEscaped(text: Bytes) returns (chars: seq<CharSpelling>)
    requires Utf8.Valid(text)
    ensures CharsOk(chars) && CharsText(chars) == CanonicalChars(text) && CharsMeaning(chars) == text
    decreases |text|
  {
    hide CanonicalChars, EscapeAscii, CharOk, CharText, CharMeaning;
    if text == [] {
      chars := [];
      NoChars();
    } else {
      var n := Utf8.RuneLength(text);
      var tail := SpellEscaped(text[n..]);
      Utf8.RuneLengthLocal(text, []);
      assert text == text[..n] + text[n..];
      CharsRune(text[..n], text[n..]);
      if text[0] < 0x80 {
        var c := SpellAscii(text[0]);
        SpelledOne(c);
        SpelledMore([c], tail);
        chars := [c] + tail;
        assert text[..n] == [text[0]];
      } else {
        RuneRaw(text);
        RawSpells(text[..n]);
        SpelledMore(RawChars(text[..n]), tail);
        chars := RawChars(text[..n]) + tail;
      }
    }
  }

  lemma NoChars()
    ensures CanonicalChars([]) == [] && CharsText([]) == [] && CharsMeaning([]) == []
  {
  }

  lemma RuneRaw(text: Bytes)
    requires Utf8.RuneLength(text) > 0 && text[0] >= 0x80
    ensures forall i :: 0 <= i < Utf8.RuneLength(text) ==> CharOk(Raw(text[i]))
  {
    forall i | 0 < i < Utf8.RuneLength(text) ensures text[i] >= 0x80 {
      Utf8.RuneTail(text, i);
    }
  }

  // ---------- Values ----------

  ghost predicate IsNumeral(token: Bytes) {
    exists n: Numeral :: NumeralOk(n) && NumeralText(n) == token
  }

  /** Whether every number is a numeral of the grammar. */
  ghost predicate TokensOk(v: Value)
    decreases v
  {
    match v
    case Number(token) => IsNumeral(token)
    case Array(items) => forall i :: 0 <= i < |items| ==> TokensOk(items[i])
    case Object(members) => forall i :: 0 <= i < |members| ==> TokensOk(members[i].value)
    case _ => true
  }

  /** Whether every string and every key is valid UTF-8. */
  predicate TextsValid(v: Value)
    decreases v
  {
    match v
    case Text(text) => Utf8.Valid(text)
    case Array(items) => forall i :: 0 <= i < |items| ==> TextsValid(items[i])
    case Object(members) => forall i :: 0 <= i < |members| ==> Utf8.Valid(members[i].key) && TextsValid(members[i].value)
    case _ => true
  }

  function RepairValue(v: Value): Value
    decreases v
  {
    match v
    case Text(text) => Text(Repair(text))
    case Array(items) => Array(RepairItems(items))
    case Object(members) => Object(RepairMembers(members))
    case _ => v
  }

  function RepairItems(items: seq<Value>): (repaired: seq<Value>)
    ensures |repaired| == |items|
    decreases items
  {
    if items == [] then [] else [RepairValue(items[0])] + RepairItems(items[1..])
  }

  function RepairMembers(members: seq<Member<Value>>): (repaired: seq<Member<Value>>)
    ensures |repaired| == |members|
    decreases members
  {
    if members == [] then []
    else [Member(Repair(members[0].key), RepairValue(members[0].value))] + RepairMembers(members[1..])
  }

  lemma {:induction false} RepairItemAt(items: seq<Value>, i: nat)
    requires i < |items|
    ensures RepairItems(items)[i] == RepairValue(items[i])
  {
    hide RepairValue;
    if i > 0 {
      RepairItemAt(items[1..], i - 1);
    }
  }

  lemma {:induction false} RepairMemberAt(members: seq<Member<Value>>, i: nat)
    requires i < |members|
    ensures RepairMembers(members)[i] == Member(Repair(members[i].key), RepairValue(members[i].value))
  {
    hide RepairValue, Repair;
    if i > 0 {
      RepairMemberAt(members[1..], i - 1);
    }
  }

  lemma {:induction false} RepairPrintsValue(v: Value)
    ensures Print(RepairValue(v)) == Print(v)
    decreases v
  {
    hide CanonicalChars, Repair, PrintItems, PrintMembers;
    match v {
      case Text(text) => RepairPrints(text);
      case Array(items) => if items != [] { RepairPrintsItems(items); }
      case Object(members) => if members != [] { RepairPrintsMembers(members); }
      case _ =>
    }
  }

  lemma {:induction false} RepairPrintsItems(items: seq<Value>)
    requires items != []
    ensures PrintItems(RepairItems(items)) == PrintItems(items)
    decreases items
  {
    hide Print, RepairValue;
    RepairPrintsValue(items[0]);
    var repaired := RepairItems(items);
    assert repaired[0] == RepairValue(items[0]) && repaired[1..] == RepairItems(items[1..]);
    if |items| > 1 {
      RepairPrintsItems(items[1..]);
    }
  }

  lemma {:induction false} RepairPrintsMembers(members: seq<Member<Value>>)
    requires members != []
    ensures PrintMembers(RepairMembers(members)) == PrintMembers(members)
    decreases members
  {
    hide Print, RepairValue, Repair, CanonicalChars;
    var m := members[0];
    RepairPrintsValue(m.value);
    RepairPrints(m.key);
    var repaired := RepairMembers(members);
    assert repaired[0] == Member(Repair(m.key), RepairValue(m.value)) && repaired[1..] == RepairMembers(members[1..]);
    assert PrintMember(repaired[0]) == PrintMember(m);
    if |members| > 1 {
      RepairPrintsMembers(members[1..]);
    }
  }

  lemma {:induction false} RepairedIsValid(v: Value)
    ensures TextsValid(RepairValue(v))
    ensures TokensOk(v) ==> TokensOk(RepairValue(v))
    decreases v
  {
    hide Repair, IsNumeral;
    match v {
      case Text(text) => RepairValid(text);
      case Array(items) =>
        forall i | 0 <= i < |items|
          ensures TextsValid(RepairItems(items)[i]) && (TokensOk(items[i]) ==> TokensOk(RepairItems(items)[i]))
        {
          RepairItemAt(items, i);
          RepairedIsValid(items[i]);
        }
      case Object(members) =>
        forall i | 0 <= i < |members|
          ensures Utf8.Valid(RepairMembers(members)[i].key) && TextsValid(RepairMembers(members)[i].value)
          ensures TokensOk(members[i].value) ==> TokensOk(RepairMembers(members)[i].value)
        {
          RepairMemberAt(members, i);
          RepairValid(members[i].key);
          RepairedIsValid(members[i].value);
        }
      case _ =>
    }
  }

  /** Valid text needs no repair. */
  lemma {:induction false} RepairNothingIn(v: Value)
    requires TextsValid(v)
    ensures RepairValue(v) == v
    decreases v
  {
    hide Repair, Utf8.Valid;
    match v {
      case Text(text) => RepairNothing(text);
      case Array(items) =>
        forall i | 0 <= i < |items| ensures RepairItems(items)[i] == items[i] {
          RepairItemAt(items, i);
          RepairNothingIn(items[i]);
        }
      case Object(members) =>
        forall i | 0 <= i < |members| ensures RepairMembers(members)[i] == members[i] {
          RepairMemberAt(members, i);
          RepairNothing(members[i].key);
          RepairNothingIn(members[i].value);
        }
      case _ =>
    }
  }

  // ---------- A printed value is a text of the grammar ----------

  /** The tree a value is printed as, with no space in it. */
  lemma {:induction false} WriteTree(v: Value) returns (t: Tree)
    requires TextsValid(v) && TokensOk(v)
    ensures TreeOk(t) && TreeText(t) == Print(v) && TreeMeaning(t) == v
    decreases v
  {
    hide CanonicalChars, PrintItems, PrintMembers, ItemsText, FieldsText, Utf8.Valid, NumeralOk, NumeralText, CharsText, CharsOk, CharsMeaning;
    match v {
      case Null => t := Word(Null);
      case True => t := Word(True);
      case False => t := Word(False);
      case Number(token) =>
        var n: Numeral :| NumeralOk(n) && NumeralText(n) == token;
        t := Numerals(n);
      case Text(text) =>
        var chars := SpellEscaped(text);
        t := Quoted(chars);
      case Array(items) =>
        if items == [] {
          t := NoItems([]);
        } else {
          var written := WriteItems(items);
          t := Items(written);
        }
      case Object(members) =>
        if members == [] {
          t := NoFields([]);
        } else {
          var written := WriteFields(members);
          t := Fields(written);
        }
    }
  }

  lemma {:induction false} WriteItems(values: seq<Value>) returns (items: seq<Item>)
    requires values != [] && forall i :: 0 <= i < |values| ==> TextsValid(values[i]) && TokensOk(values[i])
    ensures items != [] && ItemsOk(items) && ItemsText(items) == PrintItems(values) && ItemsMeaning(items) == values
    decreases values
  {
    hide TextsValid, TokensOk, Print, TreeText, TreeOk, TreeMeaning;
    var t := WriteTree(values[0]);
    var item := Item([], t, []);
    assert ItemText(item) == TreeText(t);
    if |values| == 1 {
      items := [item];
      assert values == [values[0]];
    } else {
      var tail := WriteItems(values[1..]);
      items := [item] + tail;
      assert items[1..] == tail;
      assert values == [values[0]] + values[1..];
    }
  }

  lemma {:induction false} WriteFields(members: seq<Member<Value>>) returns (fields: seq<Field>)
    requires members != []
    requires forall i :: 0 <= i < |members| ==> Utf8.Valid(members[i].key) && TextsValid(members[i].value) && TokensOk(members[i].value)
    ensures fields != [] && FieldsOk(fields) && FieldsText(fields) == PrintMembers(members) && FieldsMeaning(fields) == members
    decreases members
  {
    hide TextsValid, TokensOk, Print, TreeText, TreeOk, TreeMeaning, Utf8.Valid, CharsText, CharsOk, CharsMeaning, CanonicalChars, FieldText, PrintMember;
    var t := WriteTree(members[0].value);
    var key := SpellEscaped(members[0].key);
    var field := Field([], key, [], [], t, []);
    FieldTight(members[0], field);
    if |members| == 1 {
      fields := [field];
      assert members == [members[0]];
    } else {
      var tail := WriteFields(members[1..]);
      fields := [field] + tail;
      assert fields[1..] == tail;
      assert members == [members[0]] + members[1..];
    }
  }

  lemma FieldTight(m: Member<Value>, field: Field)
    requires field == Field([], field.key, [], [], field.tree, [])
    requires TreeText(field.tree) == Print(m.value) && CharsText(field.key) == CanonicalChars(m.key)
    ensures FieldText(field) == PrintMember(m)
  {
    hide CharsText, CanonicalChars, TreeText, Print;
    var k, v := CanonicalString(m.key), Print(m.value);
    assert [] + (k + ([] + ([COLON] + ([] + (v + []))))) == k + [COLON] + v;
  }

  // ---------- What ordering and repairing keep ----------

  lemma {:induction false} ItemsAcceptableIff(items: seq<Value>, depth: nat, rules: Rules)
    ensures ItemsAcceptable(items, depth, rules) <==> forall i :: 0 <= i < |items| ==> Acceptable(items[i], depth, rules)
  {
    hide Acceptable;
    if items != [] {
      ItemsAcceptableIff(items[1..], depth, rules);
      assert forall i :: 0 < i < |items| ==> items[i] == items[1..][i - 1];
    }
  }

  lemma {:induction false} MembersAcceptableIff(members: seq<Member<Value>>, depth: nat, rules: Rules)
    ensures MembersAcceptable(members, depth, rules) <==> forall i :: 0 <= i < |members| ==> Acceptable(members[i].value, depth, rules)
  {
    hide Acceptable;
    if members != [] {
      MembersAcceptableIff(members[1..], depth, rules);
      assert forall i :: 0 < i < |members| ==> members[i] == members[1..][i - 1];
    }
  }

  /** Rules that let repeated keys and numbers past the float range through. */
  function Lenient(rules: Rules): Rules {
    Rules(rules.limit, false)
  }

  /** Strict rules are the lenient ones, unique keys and finite numbers; ordering and repairing keep all but the keys. */
  lemma {:induction false} AcceptableRepaired(v: Value, depth: nat, rules: Rules)
    requires Acceptable(v, depth, rules)
    ensures Acceptable(RepairValue(v), depth, Lenient(rules))
    ensures rules.strict ==> UniqueKeys(v)
    ensures UniqueKeys(RepairValue(v)) ==> Acceptable(RepairValue(v), depth, rules)
    decreases v
  {
    hide Repair, Inexact, Finite, DistinctKeys;
    match v {
      case Array(items) =>
        ItemsAcceptableIff(items, depth + 1, rules);
        ItemsAcceptableIff(RepairItems(items), depth + 1, rules);
        ItemsAcceptableIff(RepairItems(items), depth + 1, Lenient(rules));
        forall i | 0 <= i < |items|
          ensures Acceptable(RepairItems(items)[i], depth + 1, Lenient(rules))
          ensures rules.strict ==> UniqueKeys(items[i])
          ensures UniqueKeys(RepairItems(items)[i]) ==> Acceptable(RepairItems(items)[i], depth + 1, rules)
        {
          RepairItemAt(items, i);
          AcceptableRepaired(items[i], depth + 1, rules);
        }
      case Object(members) =>
        MembersAcceptableIff(members, depth + 1, rules);
        MembersAcceptableIff(RepairMembers(members), depth + 1, rules);
        MembersAcceptableIff(RepairMembers(members), depth + 1, Lenient(rules));
        forall i | 0 <= i < |members|
          ensures Acceptable(RepairMembers(members)[i].value, depth + 1, Lenient(rules))
          ensures rules.strict ==> UniqueKeys(members[i].value)
          ensures UniqueKeys(RepairMembers(members)[i].value) ==> Acceptable(RepairMembers(members)[i].value, depth + 1, rules)
        {
          RepairMemberAt(members, i);
          AcceptableRepaired(members[i].value, depth + 1, rules);
        }
      case _ =>
    }
  }

  lemma {:induction false} NormalKeeps(v: Value, depth: nat, rules: Rules)
    ensures Acceptable(v, depth, rules) ==> Acceptable(Normal(v), depth, rules)
    ensures TextsValid(v) ==> TextsValid(Normal(v))
    ensures TokensOk(v) ==> TokensOk(Normal(v))
    decreases v
  {
    hide Inexact, Finite, SortMembers, DistinctKeys, IsNumeral, Utf8.Valid, NormalMembers;
    match v {
      case Array(items) =>
        ItemsAcceptableIff(items, depth + 1, rules);
        ItemsAcceptableIff(NormalItems(items), depth + 1, rules);
        forall i | 0 <= i < |items|
          ensures Acceptable(items[i], depth + 1, rules) ==> Acceptable(NormalItems(items)[i], depth + 1, rules)
          ensures TextsValid(items[i]) ==> TextsValid(NormalItems(items)[i])
          ensures TokensOk(items[i]) ==> TokensOk(NormalItems(items)[i])
        {
          NormalKeeps(items[i], depth + 1, rules);
        }
      case Object(members) =>
        var sorted := SortMembers(NormalMembers(members));
        MembersAcceptableIff(members, depth + 1, rules);
        MembersAcceptableIff(sorted, depth + 1, rules);
        SortKeepsDistinct(members);
        forall k | 0 <= k < |sorted|
          ensures Acceptable(v, depth, rules) ==> Acceptable(sorted[k].value, depth + 1, rules)
          ensures TextsValid(v) ==> Utf8.Valid(sorted[k].key) && TextsValid(sorted[k].value)
          ensures TokensOk(v) ==> TokensOk(sorted[k].value)
        {
          SortedMembersOf(members, sorted[k]);
          var i :| 0 <= i < |members| && sorted[k] == Member(members[i].key, Normal(members[i].value));
          NormalKeeps(members[i].value, depth + 1, rules);
        }
      case _ =>
    }
  }

  lemma SortKeepsDistinct(members: seq<Member<Value>>)
    ensures DistinctKeys(members) ==> DistinctKeys(SortMembers(NormalMembers(members)))
  {
    hide Normal, SortMembers;
    var normal := NormalMembers(members);
    assert forall i :: 0 <= i < |members| ==> normal[i].key == members[i].key;
    if DistinctKeys(members) {
      SortPermutes(normal);
      DistinctPermutes(normal, SortMembers(normal));
    }
  }

  // ---------- Reading a canonical text back ----------

  /** Whether every object's members are in strictly ascending key order. */
  predicate KeysAscend(v: Value)
    decreases v
  {
    match v
    case Array(items) => forall i :: 0 <= i < |items| ==> KeysAscend(items[i])
    case Object(members) => StrictlyAscending(members) && forall i :: 0 <= i < |members| ==> KeysAscend(members[i].value)
    case _ => true
  }

  lemma {:induction false} AscendIffNormal(v: Value)
    ensures KeysAscend(v) ==> UniqueKeys(v)
    ensures UniqueKeys(v) ==> (KeysAscend(v) <==> Normal(v) == v)
    decreases v
  {
    hide SortMembers, DistinctKeys, StrictlyAscending;
    match v {
      case Array(items) =>
        forall i | 0 <= i < |items|
          ensures KeysAscend(items[i]) ==> UniqueKeys(items[i])
          ensures UniqueKeys(items[i]) ==> (KeysAscend(items[i]) <==> NormalItems(items)[i] == items[i])
        {
          AscendIffNormal(items[i]);
        }
      case Object(members) =>
        forall i | 0 <= i < |members|
          ensures KeysAscend(members[i].value) ==> UniqueKeys(members[i].value)
          ensures UniqueKeys(members[i].value) ==> (KeysAscend(members[i].value) <==> Normal(members[i].value) == members[i].value)
        {
          AscendIffNormal(members[i].value);
        }
        MembersAscendIffNormal(members);
      case _ =>
    }
  }

  lemma MembersAscendIffNormal(members: seq<Member<Value>>)
    ensures StrictlyAscending(members) ==> DistinctKeys(members)
    ensures DistinctKeys(members) && (forall i :: 0 <= i < |members| ==> Normal(members[i].value) == members[i].value) ==>
              (StrictlyAscending(members) <==> SortMembers(NormalMembers(members)) == members)
    ensures DistinctKeys(members) && SortMembers(NormalMembers(members)) == members && UniqueKeys(Object(members)) ==>
              forall i :: 0 <= i < |members| ==> Normal(members[i].value) == members[i].value
    ensures DistinctKeys(members) && SortMembers(NormalMembers(members)) == members ==> StrictlyAscending(members)
  {
    hide Normal, SortMembers, UniqueKeys;
    if StrictlyAscending(members) {
      SortedStays(members);
    }
    if forall i :: 0 <= i < |members| ==> Normal(members[i].value) == members[i].value {
      assert NormalMembers(members) == members;
    }
    if DistinctKeys(members) {
      NormalAscends(members);
    }
    if DistinctKeys(members) && SortMembers(NormalMembers(members)) == members && UniqueKeys(Object(members)) {
      forall i | 0 <= i < |members| ensures Normal(members[i].value) == members[i].value {
        SortedMembersOf(members, members[i]);
        var k :| 0 <= k < |members| && members[i] == Member(members[k].key, Normal(members[k].value));
        assert k == i;
      }
    }
  }

  /** What a canonical text is read as, when it is read without minding repeated keys. */
  lemma PrintedReads(v: Value, rules: Rules)
    requires TextsValid(v) && TokensOk(v) && Acceptable(v, 0, rules)
    ensures ParseDocument(Print(v), rules) == Parsed(v, [])
  {
    hide TreeText, TreeMeaning, TreeOk, Print, Acceptable, ParseDocument;
    var t := WriteTree(v);
    var d := Document([], t, []);
    assert DocumentText(d) == Print(v);
    DocumentRead(d, rules);
  }

  /** A strict reading is also a lenient one. */
  lemma StrictIsLenient(s: Bytes, v: Value, rules: Rules)
    requires ParseDocument(s, rules) == Parsed(v, [])
    ensures ParseDocument(s, Lenient(rules)) == Parsed(v, [])
    ensures TokensOk(v) && Acceptable(v, 0, rules)
  {
    hide ParseDocument, TreeText, TreeMeaning, TreeOk, Acceptable;
    ReadsTheGrammar(s, v, rules);
    var d: Document :| DocumentOk(d) && DocumentText(d) == s && TreeMeaning(d.tree) == v && Acceptable(v, 0, rules);
    AcceptableLenient(v, 0, rules);
    DocumentRead(d, Lenient(rules));
    MeaningTokens(d.tree);
  }

  lemma {:induction false} AcceptableLenient(v: Value, depth: nat, rules: Rules)
    requires Acceptable(v, depth, rules)
    ensures Acceptable(v, depth, Lenient(rules))
    decreases v
  {
    hide Inexact, Finite, DistinctKeys;
    match v {
      case Array(items) =>
        ItemsAcceptableIff(items, depth + 1, rules);
        ItemsAcceptableIff(items, depth + 1, Lenient(rules));
        forall i | 0 <= i < |items| ensures Acceptable(items[i], depth + 1, Lenient(rules)) {
          AcceptableLenient(items[i], depth + 1, rules);
        }
      case Object(members) =>
        MembersAcceptableIff(members, depth + 1, rules);
        MembersAcceptableIff(members, depth + 1, Lenient(rules));
        forall i | 0 <= i < |members| ensures Acceptable(members[i].value, depth + 1, Lenient(rules)) {
          AcceptableLenient(members[i].value, depth + 1, rules);
        }
      case _ =>
    }
  }

  lemma {:induction false} MeaningTokens(t: Tree)
    requires TreeOk(t)
    ensures TokensOk(TreeMeaning(t))
    decreases t
  {
    hide NumeralOk, NumeralText, CharsOk, CharsMeaning;
    match t {
      case Items(items) => ItemsTokens(items);
      case Fields(fields) => FieldsTokens(fields);
      case Numerals(n) => assert IsNumeral(NumeralText(n));
      case _ =>
    }
  }

  lemma {:induction false} ItemsTokens(items: seq<Item>)
    requires ItemsOk(items)
    ensures forall i :: 0 <= i < |items| ==> TokensOk(ItemsMeaning(items)[i])
    decreases items
  {
    hide TokensOk, TreeMeaning, TreeOk;
    if items != [] {
      MeaningTokens(items[0].tree);
      ItemsTokens(items[1..]);
    }
  }

  lemma {:induction false} FieldsTokens(fields: seq<Field>)
    requires FieldsOk(fields)
    ensures forall i :: 0 <= i < |fields| ==> TokensOk(FieldsMeaning(fields)[i].value)
    decreases fields
  {
    hide TokensOk, TreeMeaning, TreeOk, CharsOk, CharsMeaning;
    if fields != [] {
      MeaningTokens(fields[0].tree);
      FieldsTokens(fields[1..]);
    }
  }

  /** Whether a text is accepted and is its own canonical form. */
  predicate Stable(s: Bytes, rules: Rules) {
    match ParseDocument(s, rules)
    case Parsed(w, _) => Canonical(w) == s
    case Refused(_) => false
  }

  /**
   * The canonical form of any accepted document is accepted and is its own canonical form exactly
   * when replacing the bytes that are not UTF-8 leaves every object's keys in order.
   */
  lemma FixedPointExactly(s: Bytes, v: Value, rules: Rules)
    requires rules.strict && ParseDocument(s, rules) == Parsed(v, [])
    ensures Stable(Canonical(v), rules) <==> KeysAscend(RepairValue(Normal(v)))
  {
    hide ParseDocument, Acceptable, Print, Normal, KeysAscend, TextsValid, TokensOk, UniqueKeys, RepairValue;
    StrictIsLenient(s, v, rules);
    NormalKeeps(v, 0, rules);
    var n := Normal(v);
    var r := RepairValue(n);
    RepairPrintsValue(n);
    RepairedIsValid(n);
    AcceptableRepaired(n, 0, rules);
    PrintedReads(r, Lenient(rules));
    AscendIffNormal(r);
    NormalKeeps(r, 0, Lenient(rules));
    PrintedReads(Normal(r), Lenient(rules));
    var out := Canonical(v);
    assert out == Print(r);
    if KeysAscend(r) {
      PrintedReads(r, rules);
    }
    if Stable(out, rules) {
      var w := ParseDocument(out, rules).value;
      OnlyParsed(out, w, rules);
      StrictIsLenient(out, w, rules);
      AcceptableUnique(w, 0, rules);
    }
  }

  lemma OnlyParsed(s: Bytes, w: Value, rules: Rules)
    requires ParseDocument(s, rules).Parsed? && w == ParseDocument(s, rules).value
    ensures ParseDocument(s, rules) == Parsed(w, [])
  {
    hide ParseValue, SkipSpace;
  }

  lemma AcceptableUnique(v: Value, depth: nat, rules: Rules)
    requires rules.strict && Acceptable(v, depth, rules)
    ensures UniqueKeys(v)
  {
    hide Acceptable, UniqueKeys, RepairValue;
    AcceptableRepaired(v, depth, rules);
  }

  // ---------- Documents that are UTF-8 ----------

  lemma {:induction false} AsciiSkip(a: Bytes, rest: Bytes)
    requires Utf8.Valid(a + rest) && forall i :: 0 <= i < |a| ==> a[i] < 0x80
    ensures Utf8.Valid(rest)
  {
    if a == [] {
      assert a + rest == rest;
    } else {
      assert (a + rest)[1..] == a[1..] + rest;
      AsciiSkip(a[1..], rest);
    }
  }

  lemma {:induction false} RawFront(chars: seq<CharSpelling>, n: nat)
    requires CharsOk(chars) && n <= |CharsText(chars)|
    requires forall i :: 0 <= i < n ==> CharsText(chars)[i] >= 0x80
    ensures n <= |chars|
    ensures CharsText(chars)[n..] == CharsText(chars[n..])
    ensures CharsMeaning(chars) == CharsText(chars)[..n] + CharsMeaning(chars[n..])
  {
    hide CharOk, CharText, CharMeaning;
    var text := CharsText(chars);
    if n == 0 {
      assert text[0..] == text && text[..0] == [] && chars[0..] == chars;
      assert [] + CharsMeaning(chars) == CharsMeaning(chars);
    } else {
      RawHighHead(chars);
      forall i | 0 <= i < n - 1 ensures CharsText(chars[1..])[i] >= 0x80 {
        assert text[i + 1] == text[1..][i];
      }
      RawFront(chars[1..], n - 1);
      assert chars[1..][n - 1..] == chars[n..];
      assert text[1..][n - 1..] == text[n..];
      assert text[..n] == [text[0]] + text[1..][..n - 1];
      Regroup([text[0]], text[1..][..n - 1], CharsMeaning(chars[n..]));
    }
  }

  lemma RawHighHead(chars: seq<CharSpelling>)
    requires CharsOk(chars) && CharsText(chars) != [] && CharsText(chars)[0] >= 0x80
    ensures chars != [] && chars[0].Raw? && chars[0].byte == CharsText(chars)[0]
    ensures CharsText(chars)[1..] == CharsText(chars[1..])
    ensures CharsMeaning(chars) == [CharsText(chars)[0]] + CharsMeaning(chars[1..])
  {
    hide HexQuad, ShortEscape, LowSurrogate, HighSurrogate, Combine, Utf8.Encode, Utf8.Surrogate;
    assert CharsText(chars)[0] == CharText(chars[0])[0];
  }

  lemma CharAscii(c: CharSpelling)
    requires CharOk(c) && !(c.Raw? && c.byte >= 0x80)
    ensures forall i :: 0 <= i < |CharText(c)| ==> CharText(c)[i] < 0x80
    ensures CharText(c) != [] && Utf8.Valid(CharMeaning(c))
  {
    hide Utf8.Valid, HexQuad, Utf8.Encode;
    match c {
      case Unit(quad) =>
        QuadAscii(quad);
        Utf8.ValidEncode(HexQuad(quad).value);
      case Pair(high, low) =>
        QuadAscii(high);
        QuadAscii(low);
        Utf8.ValidEncode(Combine(HexQuad(high).value, HexQuad(low).value));
      case Raw(b) => OneAscii(b);
      case Short(letter) => OneAscii(ShortEscape(letter).value);
    }
  }

  lemma QuadAscii(quad: Bytes)
    requires |quad| == 4 && HexQuad(quad).Some?
    ensures forall i :: 0 <= i < 4 ==> quad[i] < 0x80
  {
  }

  lemma OneAscii(b: Byte)
    requires b < 0x80
    ensures Utf8.Valid([b])
  {
    assert [b][1..] == [];
  }

  /** A valid text spells a valid string. */
  lemma {:induction false} CharsValid(chars: seq<CharSpelling>)
    requires CharsOk(chars) && Utf8.Valid(CharsText(chars))
    ensures Utf8.Valid(CharsMeaning(chars))
  {
    hide CharText, CharMeaning, CharOk;
    if chars != [] {
      var text := CharsText(chars);
      if chars[0].Raw? && chars[0].byte >= 0x80 {
        RawHead(chars);
        var n := Utf8.RuneLength(text);
        forall i | 0 <= i < n ensures text[i] >= 0x80 {
          if i > 0 {
            Utf8.RuneTail(text, i);
          }
        }
        RawFront(chars, n);
        CharsValid(chars[n..]);
        Utf8.RuneLengthLocal(text, []);
        assert text[..n][n..] == [];
        Utf8.ValidConcat(text[..n], CharsMeaning(chars[n..]));
      } else {
        CharAscii(chars[0]);
        AsciiSkip(CharText(chars[0]), CharsText(chars[1..]));
        CharsValid(chars[1..]);
        Utf8.ValidConcat(CharMeaning(chars[0]), CharsMeaning(chars[1..]));
      }
    }
  }

  lemma RawHead(chars: seq<CharSpelling>)
    requires chars != [] && chars[0].Raw?
    ensures CharsText(chars) != [] && CharsText(chars)[0] == chars[0].byte
  {
  }

  lemma StringValid(chars: seq<CharSpelling>)
    requires CharsOk(chars) && Utf8.Valid(StringText(chars))
    ensures Utf8.Valid(CharsMeaning(chars))
  {
    hide CharsText, CharsMeaning, CharsOk;
    Utf8.ValidSplit([QUOTE] + CharsText(chars), [QUOTE]);
    AsciiSkip([QUOTE], CharsText(chars));
    CharsValid(chars);
  }

  /** Valid text holds only valid strings. */
  lemma {:induction false} TreeValid(t: Tree)
    requires TreeOk(t) && Utf8.Valid(TreeText(t))
    ensures TextsValid(TreeMeaning(t))
    decreases t
  {
    hide Utf8.Valid, ItemsText, FieldsText, StringText, CharsMeaning, CharsOk;
    match t {
      case Quoted(chars) =>
        StringValid(chars);
      case Items(items) =>
        AsciiSkip([LBRACKET], ItemsText(items));
        ItemsValid(items);
      case Fields(fields) =>
        AsciiSkip([LBRACE], FieldsText(fields));
        FieldsValid(fields);
      case _ =>
    }
  }

  /** A closing or separating byte ends a valid text. */
  lemma SplitAt(head: Bytes, mark: Byte, tail: Bytes)
    requires Utf8.Valid(head + ([mark] + tail)) && mark < 0x80
    ensures Utf8.Valid(head) && Utf8.Valid(tail)
  {
    Utf8.ValidSplit(head, [mark] + tail);
    AsciiSkip([mark], tail);
  }

  lemma {:induction false} ItemsValid(items: seq<Item>)
    requires items != [] && ItemsOk(items) && Utf8.Valid(ItemsText(items))
    ensures forall i :: 0 <= i < |items| ==> TextsValid(ItemsMeaning(items)[i])
    decreases items
  {
    hide Utf8.Valid, TextsValid, TreeText, TreeMeaning, TreeOk, AllSpace, ItemText;
    var item := items[0];
    var mark, tail: Bytes := if |items| == 1 then RBRACKET else COMMA, if |items| == 1 then [] else ItemsText(items[1..]);
    assert [RBRACKET] + [] == [RBRACKET];
    assert ItemsText(items) == ItemText(item) + ([mark] + tail);
    SplitAt(ItemText(item), mark, tail);
    ItemPartsValid(item);
    TreeValid(item.tree);
    if |items| > 1 {
      ItemsValid(items[1..]);
    }
  }

  lemma ItemPartsValid(item: Item)
    requires AllSpace(item.before) && AllSpace(item.after) && Utf8.Valid(ItemText(item))
    ensures Utf8.Valid(TreeText(item.tree))
  {
    hide Utf8.Valid, TreeText, AllSpace;
    SpaceAscii(item.before);
    AsciiSkip(item.before, TreeText(item.tree) + item.after);
    SpaceAscii(item.after);
    Utf8.ValidSplit(TreeText(item.tree), item.after);
  }

  lemma SpaceAscii(space: Bytes)
    requires AllSpace(space)
    ensures forall i :: 0 <= i < |space| ==> space[i] < 0x80
    ensures space == [] || space[0] < 0x80
  {
    forall i | 0 <= i < |space| ensures space[i] < 0x80 {
      assert space[i] in space;
    }
  }

  lemma {:induction false} FieldsValid(fields: seq<Field>)
    requires fields != [] && FieldsOk(fields) && Utf8.Valid(FieldsText(fields))
    ensures forall i :: 0 <= i < |fields| ==> Utf8.Valid(FieldsMeaning(fields)[i].key) && TextsValid(FieldsMeaning(fields)[i].value)
    decreases fields
  {
    hide Utf8.Valid, TextsValid, TreeText, TreeMeaning, TreeOk, CharsMeaning, CharsOk, FieldText, StringText;
    var f := fields[0];
    var mark, tail: Bytes := if |fields| == 1 then RBRACE else COMMA, if |fields| == 1 then [] else FieldsText(fields[1..]);
    assert [RBRACE] + [] == [RBRACE];
    assert FieldsText(fields) == FieldText(f) + ([mark] + tail);
    SplitAt(FieldText(f), mark, tail);
    FieldPartsValid(f);
    StringValid(f.key);
    TreeValid(f.tree);
    if |fields| > 1 {
      FieldsValid(fields[1..]);
    }
  }

  lemma FieldPartsValid(f: Field)
    requires FieldSpaceOk(f) && Utf8.Valid(FieldText(f))
    ensures Utf8.Valid(StringText(f.key)) && Utf8.Valid(TreeText(f.tree))
  {
    hide Utf8.Valid, TreeText, StringText, AllSpace;
    var value := TreeText(f.tree) + f.after;
    var colon := [COLON] + (f.afterColon + value);
    SpaceAscii(f.before);
    AsciiSkip(f.before, StringText(f.key) + (f.beforeColon + colon));
    SpaceAscii(f.beforeColon);
    assert f.beforeColon + colon != [] && (f.beforeColon + colon)[0] < 0x80;
    Utf8.ValidSplit(StringText(f.key), f.beforeColon + colon);
    AsciiSkip(f.beforeColon, colon);
    AsciiSkip([COLON], f.afterColon + value);
    SpaceAscii(f.afterColon);
    AsciiSkip(f.afterColon, value);
    SpaceAscii(f.after);
    Utf8.ValidSplit(TreeText(f.tree), f.after);
  }

  /** Every string of a document that is valid UTF-8 is valid UTF-8. */
  lemma SourceValid(s: Bytes, v: Value, rules: Rules)
    requires ParseDocument(s, rules) == Parsed(v, []) && Utf8.Valid(s)
    ensures TextsValid(v)
  {
    hide ParseDocument, TreeText, TreeMeaning, TreeOk, Acceptable, Utf8.Valid, AllSpace, TextsValid;
    ReadsTheGrammar(s, v, rules);
    var d: Document :| DocumentOk(d) && DocumentText(d) == s && TreeMeaning(d.tree) == v && Acceptable(v, 0, rules);
    SpaceAscii(d.before);
    AsciiSkip(d.before, TreeText(d.tree) + d.after);
    SpaceAscii(d.after);
    Utf8.ValidSplit(TreeText(d.tree), d.after);
    TreeValid(d.tree);
  }

  /** A document that is valid UTF-8 has a canonical form that is accepted and is its own. */
  lemma FixedPoint(s: Bytes, v: Value, rules: Rules)
    requires rules.strict && ParseDocument(s, rules) == Parsed(v, []) && Utf8.Valid(s)
    ensures ParseDocument(Canonical(v), rules) == Parsed(Normal(v), []) && Stable(Canonical(v), rules)
  {
    hide ParseDocument, Acceptable, Print, Normal, KeysAscend, TextsValid, TokensOk, UniqueKeys, RepairValue, Utf8.Valid;
    SourceValid(s, v, rules);
    StrictIsLenient(s, v, rules);
    AcceptableUnique(v, 0, rules);
    NormalKeeps(v, 0, rules);
    NormalTwice(v);
    PrintedReads(Normal(v), rules);
  }

  /**
   * Two documents that are valid UTF-8 have one canonical form exactly when their values differ in
   * member order alone: not in space, not in how a character is escaped, and not in anything else.
   */
  lemma OneFormPerValue(s: Bytes, v: Value, t: Bytes, w: Value, rules: Rules)
    requires rules.strict && Utf8.Valid(s) && Utf8.Valid(t)
    requires ParseDocument(s, rules) == Parsed(v, []) && ParseDocument(t, rules) == Parsed(w, [])
    ensures Canonical(v) == Canonical(w) <==> Same(v, w)
  {
    hide ParseDocument, Acceptable, Print, Normal, TextsValid, TokensOk, UniqueKeys, Same, Utf8.Valid;
    FixedPoint(s, v, rules);
    FixedPoint(t, w, rules);
    StrictIsLenient(s, v, rules);
    StrictIsLenient(t, w, rules);
    AcceptableUnique(v, 0, rules);
    AcceptableUnique(w, 0, rules);
    SameIffNormal(v, w);
  }

  /** The document {"FF":1,"FE":2}, its keys one byte each and neither of them UTF-8. */
  const BAD_KEYS := Document([], Fields([
    Field([], [Raw(0xFF)], [], [], Numerals(Numeral(false, [0x31], None, None)), []),
    Field([], [Raw(0xFE)], [], [], Numerals(Numeral(false, [0x32], None, None)), [])]), [])

  /** It is accepted, and its canonical form is refused: both keys have become one. */
  lemma NotAlwaysStable(rules: Rules)
    requires rules.strict && rules.limit >= 1
    ensures ParseDocument(DocumentText(BAD_KEYS), rules).Parsed?
    ensures !Stable(Canonical(ParseDocument(DocumentText(BAD_KEYS), rules).value), rules)
  {
    hide ParseDocument, Stable, Canonical, Normal, RepairValue, KeysAscend;
    BadKeysMean(rules);
    DocumentRead(BAD_KEYS, rules);
    BadKeysNormal();
    BadKeysRepaired();
    FixedPointExactly(DocumentText(BAD_KEYS), BAD_VALUE, rules);
  }

  const BAD_VALUE := Object([Member([0xFF], Number([0x31])), Member([0xFE], Number([0x32]))])

  lemma BadKeysMean(rules: Rules)
    requires rules.limit >= 1
    ensures DocumentOk(BAD_KEYS)
    ensures TreeMeaning(BAD_KEYS.tree) == BAD_VALUE
    ensures Acceptable(BAD_VALUE, 0, rules)
  {
    hide Inexact, Finite, FieldSpaceOk, CharsOk, CharsMeaning, TreeMeaning, DistinctKeys;
    var fields := BAD_KEYS.tree.fields;
    BadField(fields[0], 0xFF, 0x31);
    BadField(fields[1], 0xFE, 0x32);
    TwoFields(fields[0], fields[1]);
    assert fields == [fields[0], fields[1]];
    BadTree();
    var members := BAD_VALUE.members;
    assert DistinctMembers(members[0], members[1]);
    MembersAcceptableIff(members, 1, rules);
    TwoKeys(members);
  }

  lemma BadTree()
    ensures TreeOk(BAD_KEYS.tree) <==> FieldsOk(BAD_KEYS.tree.fields)
    ensures TreeOk(BAD_KEYS.tree) ==> TreeMeaning(BAD_KEYS.tree) == Object(FieldsMeaning(BAD_KEYS.tree.fields))
  {
    hide FieldsOk, FieldsMeaning;
  }

  predicate DistinctMembers(a: Member<Value>, b: Member<Value>) {
    a.key != b.key
  }

  lemma TwoKeys(members: seq<Member<Value>>)
    requires |members| == 2 && DistinctMembers(members[0], members[1])
    ensures DistinctKeys(members)
  {
  }

  lemma TwoFields(f: Field, g: Field)
    requires FieldSpaceOk(f) && CharsOk(f.key) && TreeOk(f.tree) && FieldSpaceOk(g) && CharsOk(g.key) && TreeOk(g.tree)
    ensures FieldsOk([f, g])
    ensures FieldsMeaning([f, g]) == [Member(CharsMeaning(f.key), TreeMeaning(f.tree)), Member(CharsMeaning(g.key), TreeMeaning(g.tree))]
  {
    hide FieldSpaceOk, CharsOk, CharsMeaning, TreeMeaning, TreeOk;
    assert [f, g][1..] == [g] && [g][1..] == [];
    assert FieldsOk([g]) && FieldsMeaning([g]) == [Member(CharsMeaning(g.key), TreeMeaning(g.tree))];
  }

  lemma BadField(f: Field, key: Byte, digit: Byte)
    requires key >= 0x80 && 0x31 <= digit <= 0x39
    requires f == Field([], [Raw(key)], [], [], Numerals(Numeral(false, [digit], None, None)), [])
    ensures FieldSpaceOk(f) && CharsOk(f.key) && TreeOk(f.tree)
    ensures CharsMeaning(f.key) == [key] && TreeMeaning(f.tree) == Number([digit])
    ensures !Inexact([digit])
  {
    SpelledOne(Raw(key));
    assert NumeralText(f.tree.numeral) == [digit];
  }

  lemma BadKeysNormal()
    ensures Normal(BAD_VALUE) == Object([Member([0xFE], Number([0x32])), Member([0xFF], Number([0x31]))])
  {
    var members := BAD_VALUE.members;
    var a, b := members[0], members[1];
    assert NormalMembers(members) == [a, b];
    assert [a, b][1..] == [b] && [b][1..] == [];
    assert SortMembers([b]) == [b] by {
      assert SortMembers<Value>([]) == [];
    }
    assert Insert(a, [b]) == [b] + Insert(a, []);
  }

  lemma BadKeysRepaired()
    ensures !KeysAscend(RepairValue(Normal(BAD_VALUE)))
  {
    hide Normal, Repair;
    BadKeysNormal();
    var members := Normal(BAD_VALUE).members;
    RepairMemberAt(members, 0);
    RepairMemberAt(members, 1);
    BadByte(0xFE);
    BadByte(0xFF);
    LessTotal(REPLACEMENT, REPLACEMENT);
    var repaired := RepairMembers(members);
    assert !Less(repaired[0].key, repaired[1].key);
  }

  lemma BadByte(b: Byte)
    requires b >= 0xFE
    ensures Repair([b]) == REPLACEMENT
  {
    assert [b][1..] == [];
  }
}
