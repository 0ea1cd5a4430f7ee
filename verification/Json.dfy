/** JSON values, the single-pass reader's grammar as a function, and the canonical form. */
module Json {
  import opened Bytes
  import opened JsonText
  import opened KeyOrder
  import Utf8

  datatype Value =
    | Null
    | True
    | False
    | Number(token: Bytes)
    | Text(text: Bytes)
    | Array(items: seq<Value>)
    | Object(members: seq<Member<Value>>)

  const COMMA: Byte := 0x2C
  const COLON: Byte := 0x3A
  const LBRACKET: Byte := 0x5B
  const RBRACKET: Byte := 0x5D
  const LBRACE: Byte := 0x7B
  const RBRACE: Byte := 0x7D

  const TRUE_WORD: Bytes := [0x74, 0x72, 0x75, 0x65]
  const FALSE_WORD: Bytes := [0x66, 0x61, 0x6C, 0x73, 0x65]
  const NULL_WORD: Bytes := [0x6E, 0x75, 0x6C, 0x6C]

  /** How deep a value may be nested, and whether repeated keys and numbers past the float range are refused. */
  datatype Rules = Rules(limit: nat, strict: bool)

  /** The deepest a value may be nested for the single pass. */
  const MAX_DEPTH: nat := 512

  const SINGLE_PASS := Rules(MAX_DEPTH, true)

  // ---------- Reading ----------

  /** Why a document is refused. */
  datatype Reason = Syntax | Surrogates | Duplicate | Depth | NonFinite

  datatype Parse<+T> =
    | Parsed(value: T, rest: Bytes)
    | Refused(why: Reason)
  {
    predicate IsFailure() {
      Refused?
    }

    function PropagateFailure<U>(): Parse<U>
      requires Refused?
    {
      Refused(why)
    }

    function Extract(): (T, Bytes)
      requires Parsed?
    {
      (value, rest)
    }
  }

  predicate Space(b: Byte) {
    b == 0x20 || b == 0x09 || b == 0x0D || b == 0x0A
  }

  function SkipSpace(s: Bytes): (rest: Bytes)
    ensures |rest| <= |s| && rest == s[|s| - |rest|..]
    ensures rest != [] ==> !Space(rest[0])
    ensures forall i :: 0 <= i < |s| - |rest| ==> Space(s[i])
  {
    if s != [] && Space(s[0]) then SkipSpace(s[1..]) else s
  }

  /** Consumes one byte after any space. */
  predicate Next(s: Bytes, b: Byte) {
    s != [] && s[0] == b
  }

  function ParseWord(s: Bytes, word: Bytes, value: Value): (parse: Parse<Value>)
    requires word != []
    ensures parse.Parsed? ==> |parse.rest| < |s| && parse.value == value
  {
    if word <= s then Parsed(value, s[|word|..]) else Refused(Syntax)
  }

  function ParseNumber(s: Bytes, rules: Rules): (parse: Parse<Value>)
    ensures parse.Parsed? ==> |parse.rest| < |s| && parse.value.Number?
  {
    match NumberEnd(s)
    case None => Refused(Syntax)
    case Some(end) =>
      if rules.strict && Inexact(s[..end]) && !Finite(s[..end]) then Refused(NonFinite)
      else Parsed(Number(s[..end]), s[end..])
  }

  /** A string's text, from its opening quote. */
  function ParseText(s: Bytes): (parse: Parse<Bytes>)
    requires Next(s, QUOTE)
    ensures parse.Parsed? ==> |parse.rest| < |s|
  {
    match DecodeChars(s[1..])
    case Decoded(text, rest) => Parsed(text, rest)
    case Malformed => Refused(Syntax)
    case LoneSurrogate => Refused(Surrogates)
  }

  function ParseValue(s: Bytes, depth: nat, rules: Rules): (parse: Parse<Value>)
    ensures parse.Parsed? ==> |parse.rest| < |s|
    decreases |s|, 2
  {
    if depth > rules.limit then Refused(Depth)
    else if s == [] then Refused(Syntax)
    else if s[0] == LBRACE then ParseObject(s, depth, rules)
    else if s[0] == LBRACKET then ParseArray(s, depth, rules)
    else if s[0] == QUOTE then
      var (text, rest) :- ParseText(s);
      Parsed(Text(text), rest)
    else if s[0] == 0x74 then ParseWord(s, TRUE_WORD, True)
    else if s[0] == 0x66 then ParseWord(s, FALSE_WORD, False)
    else if s[0] == 0x6E then ParseWord(s, NULL_WORD, Null)
    else ParseNumber(s, rules)
  }

  function ParseArray(s: Bytes, depth: nat, rules: Rules): (parse: Parse<Value>)
    requires Next(s, LBRACKET)
    ensures parse.Parsed? ==> |parse.rest| < |s|
    decreases |s|, 1
  {
    var inside := SkipSpace(s[1..]);
    if Next(inside, RBRACKET) then Parsed(Array([]), inside[1..])
    else
      var (items, rest) :- ParseItems(inside, depth, rules);
      Parsed(Array(items), rest)
  }

  /** The items of an array from one of them to the closing bracket. */
  function ParseItems(s: Bytes, depth: nat, rules: Rules): (parse: Parse<seq<Value>>)
    ensures parse.Parsed? ==> |parse.rest| < |s| && parse.value != []
    decreases |s|, 3
  {
    var (item, rest) :- ParseValue(SkipSpace(s), depth + 1, rules);
    var after := SkipSpace(rest);
    if Next(after, COMMA) then
      var (items, end) :- ParseItems(after[1..], depth, rules);
      Parsed([item] + items, end)
    else if Next(after, RBRACKET) then Parsed([item], after[1..])
    else Refused(Syntax)
  }

  function ParseObject(s: Bytes, depth: nat, rules: Rules): (parse: Parse<Value>)
    requires Next(s, LBRACE)
    ensures parse.Parsed? ==> |parse.rest| < |s|
    decreases |s|, 1
  {
    var inside := SkipSpace(s[1..]);
    if Next(inside, RBRACE) then Parsed(Object([]), inside[1..])
    else
      var (members, rest) :- ParseMembers(inside, depth, rules);
      if !rules.strict || DistinctKeys(members) then Parsed(Object(members), rest) else Refused(Duplicate)
  }

  /** The members of an object from one of them to the closing brace. */
  function ParseMembers(s: Bytes, depth: nat, rules: Rules): (parse: Parse<seq<Member<Value>>>)
    ensures parse.Parsed? ==> |parse.rest| < |s| && parse.value != []
    decreases |s|, 3
  {
    var (member, rest) :- ParseMember(SkipSpace(s), depth, rules);
    var after := SkipSpace(rest);
    if Next(after, COMMA) then
      var (members, end) :- ParseMembers(after[1..], depth, rules);
      Parsed([member] + members, end)
    else if Next(after, RBRACE) then Parsed([member], after[1..])
    else Refused(Syntax)
  }

  function ParseMember(s: Bytes, depth: nat, rules: Rules): (parse: Parse<Member<Value>>)
    ensures parse.Parsed? ==> |parse.rest| < |s|
    decreases |s|, 1
  {
    if !Next(s, QUOTE) then Refused(Syntax)
    else
      var (key, rest) :- ParseText(s);
      var colon := SkipSpace(rest);
      if !Next(colon, COLON) then Refused(Syntax)
      else
        var (value, end) :- ParseValue(SkipSpace(colon[1..]), depth + 1, rules);
        Parsed(Member(key, value), end)
  }

  /** A whole document: one value and nothing but space around it. */
  function ParseDocument(s: Bytes, rules: Rules): Parse<Value> {
    var (value, rest) :- ParseValue(SkipSpace(s), 0, rules);
    if SkipSpace(rest) == [] then Parsed(value, []) else Refused(Syntax)
  }

  // ---------- Printing ----------

  function Print(v: Value): Bytes
    decreases v
  {
    match v
    case Null => NULL_WORD
    case True => TRUE_WORD
    case False => FALSE_WORD
    case Number(token) => token
    case Text(text) => CanonicalString(text)
    case Array(items) => if items == [] then [LBRACKET, RBRACKET] else [LBRACKET] + PrintItems(items)
    case Object(members) => if members == [] then [LBRACE, RBRACE] else [LBRACE] + PrintMembers(members)
  }

  function PrintItems(items: seq<Value>): Bytes
    requires items != []
    decreases items
  {
    Print(items[0]) + if |items| == 1 then [RBRACKET] else [COMMA] + PrintItems(items[1..])
  }

  function PrintMembers(members: seq<Member<Value>>): Bytes
    requires members != []
    decreases members
  {
    PrintMember(members[0]) + if |members| == 1 then [RBRACE] else [COMMA] + PrintMembers(members[1..])
  }

  function PrintMember(m: Member<Value>): Bytes
    decreases m
  {
    CanonicalString(m.key) + [COLON] + Print(m.value)
  }

  // ---------- The canonical form ----------

  /** The value with every object's members in key order. */
  function Normal(v: Value): Value
    decreases v
  {
    match v
    case Array(items) => Array(NormalItems(items))
    case Object(members) => Object(SortMembers(NormalMembers(members)))
    case _ => v
  }

  function NormalItems(items: seq<Value>): (normal: seq<Value>)
    ensures |normal| == |items|
    decreases items
  {
    seq(|items|, i requires 0 <= i < |items| => Normal(items[i]))
  }

  function NormalMembers(members: seq<Member<Value>>): (normal: seq<Member<Value>>)
    ensures |normal| == |members|
    decreases members
  {
    seq(|members|, i requires 0 <= i < |members| => Member(members[i].key, Normal(members[i].value)))
  }

  /** The bytes the digests are taken of. */
  function Canonical(v: Value): Bytes {
    Print(Normal(v))
  }
}
