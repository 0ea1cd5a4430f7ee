/**
 * The grammar of RFC 8259 as concrete syntax: how a document was written beside what it means.
 * It is an account of JSON texts that owes nothing to how the reader works.
 */
module Grammar {
  import opened Bytes
  import opened JsonText
  import opened KeyOrder
  import opened Json
  import Utf8

  // ---------- Strings: section 7 ----------

  /** One character as written: itself, a two-byte escape, a \u escape or a surrogate pair of them. */
  datatype CharSpelling =
    | Raw(byte: Byte)
    | Short(letter: Byte)
    | Unit(quad: Bytes)
    | Pair(high: Bytes, low: Bytes)

  predicate CharOk(c: CharSpelling) {
    match c
    case Raw(b) => b >= 0x20 && b != QUOTE && b != BACKSLASH
    case Short(letter) => ShortEscape(letter).Some?
    case Unit(quad) => |quad| == 4 && HexQuad(quad).Some? && !Utf8.Surrogate(HexQuad(quad).value)
    case Pair(high, low) =>
      && |high| == 4 && HexQuad(high).Some? && HighSurrogate(HexQuad(high).value)
      && |low| == 4 && HexQuad(low).Some? && LowSurrogate(HexQuad(low).value)
  }

  function CharText(c: CharSpelling): Bytes {
    match c
    case Raw(b) => [b]
    case Short(letter) => [BACKSLASH, letter]
    case Unit(quad) => [BACKSLASH, LETTER_U] + quad
    case Pair(high, low) => [BACKSLASH, LETTER_U] + high + ([BACKSLASH, LETTER_U] + low)
  }

  function CharMeaning(c: CharSpelling): Bytes
    requires CharOk(c)
  {
    match c
    case Raw(b) => [b]
    case Short(letter) => [ShortEscape(letter).value]
    case Unit(quad) => Utf8.Encode(HexQuad(quad).value)
    case Pair(high, low) => Utf8.Encode(Combine(HexQuad(high).value, HexQuad(low).value))
  }

  predicate CharsOk(chars: seq<CharSpelling>) {
    forall c <- chars :: CharOk(c)
  }

  function CharsText(chars: seq<CharSpelling>): Bytes {
    if chars == [] then [] else CharText(chars[0]) + CharsText(chars[1..])
  }

  function CharsMeaning(chars: seq<CharSpelling>): Bytes
    requires CharsOk(chars)
  {
    if chars == [] then [] else CharMeaning(chars[0]) + CharsMeaning(chars[1..])
  }

  // ---------- Numbers: section 6 ----------

  datatype Exponent = Exponent(letter: Byte, sign: Option<Byte>, digits: Bytes)

  datatype Numeral = Numeral(negative: bool, integer: Bytes, fraction: Option<Bytes>, exponent: Option<Exponent>)

  predicate AllDigits(s: Bytes) {
    s != [] && forall b <- s :: Digit(b)
  }

  predicate NumeralOk(n: Numeral) {
    && AllDigits(n.integer) && (n.integer[0] == 0x30 ==> |n.integer| == 1)
    && (n.fraction.Some? ==> AllDigits(n.fraction.value))
    && (n.exponent.Some? ==> ExponentOk(n.exponent.value))
  }

  predicate ExponentOk(e: Exponent) {
    && (e.letter == 0x65 || e.letter == 0x45)
    && (e.sign.Some? ==> e.sign.value == 0x2B || e.sign.value == 0x2D)
    && AllDigits(e.digits)
  }

  function IntegerText(n: Numeral): Bytes {
    (if n.negative then [0x2D] else []) + n.integer
  }

  function FractionText(fraction: Option<Bytes>): Bytes {
    match fraction
    case None => []
    case Some(digits) => [0x2E] + digits
  }

  function ExponentText(exponent: Option<Exponent>): Bytes {
    match exponent
    case None => []
    case Some(e) => [e.letter] + (if e.sign.Some? then [e.sign.value] else []) + e.digits
  }

  function NumeralText(n: Numeral): Bytes {
    IntegerText(n) + (FractionText(n.fraction) + ExponentText(n.exponent))
  }

  // ---------- Values: sections 3, 4 and 5 ----------

  datatype Tree =
    | Word(value: Value)
    | Numerals(numeral: Numeral)
    | Quoted(chars: seq<CharSpelling>)
    | NoItems(space: Bytes)
    | Items(items: seq<Item>)
    | NoFields(space: Bytes)
    | Fields(fields: seq<Field>)

  /** An array's item with the space around it. */
  datatype Item = Item(before: Bytes, tree: Tree, after: Bytes)

  /** An object's member with the space around its key, its colon and its value. */
  datatype Field = Field(before: Bytes, key: seq<CharSpelling>, beforeColon: Bytes, afterColon: Bytes, tree: Tree, after: Bytes)

  predicate AllSpace(s: Bytes) {
    forall b <- s :: Space(b)
  }

  predicate TreeOk(t: Tree)
    decreases t
  {
    match t
    case Word(v) => v == Null || v == True || v == False
    case Numerals(n) => NumeralOk(n)
    case Quoted(chars) => CharsOk(chars)
    case NoItems(space) => AllSpace(space)
    case Items(items) => items != [] && ItemsOk(items)
    case NoFields(space) => AllSpace(space)
    case Fields(fields) => fields != [] && FieldsOk(fields)
  }

  predicate ItemsOk(items: seq<Item>)
    decreases items
  {
    || items == []
    || (AllSpace(items[0].before) && TreeOk(items[0].tree) && AllSpace(items[0].after) && ItemsOk(items[1..]))
  }

  predicate FieldsOk(fields: seq<Field>)
    decreases fields
  {
    || fields == []
    || (FieldSpaceOk(fields[0]) && CharsOk(fields[0].key) && TreeOk(fields[0].tree) && FieldsOk(fields[1..]))
  }

  predicate FieldSpaceOk(f: Field) {
    AllSpace(f.before) && AllSpace(f.beforeColon) && AllSpace(f.afterColon) && AllSpace(f.after)
  }

  function StringText(chars: seq<CharSpelling>): Bytes {
    [QUOTE] + CharsText(chars) + [QUOTE]
  }

  function TreeText(t: Tree): Bytes
    decreases t
  {
    match t
    case Word(v) => if v == True then TRUE_WORD else if v == False then FALSE_WORD else NULL_WORD
    case Numerals(n) => NumeralText(n)
    case Quoted(chars) => StringText(chars)
    case NoItems(space) => [LBRACKET] + space + [RBRACKET]
    case Items(items) => [LBRACKET] + ItemsText(items)
    case NoFields(space) => [LBRACE] + space + [RBRACE]
    case Fields(fields) => [LBRACE] + FieldsText(fields)
  }

  function ItemText(i: Item): Bytes
    decreases i
  {
    i.before + (TreeText(i.tree) + i.after)
  }

  function ItemsText(items: seq<Item>): Bytes
    decreases items
  {
    if items == [] then []
    else ItemText(items[0]) + if |items| == 1 then [RBRACKET] else [COMMA] + ItemsText(items[1..])
  }

  function FieldText(f: Field): Bytes
    decreases f
  {
    f.before + (StringText(f.key) + (f.beforeColon + ([COLON] + (f.afterColon + (TreeText(f.tree) + f.after)))))
  }

  function FieldsText(fields: seq<Field>): Bytes
    decreases fields
  {
    if fields == [] then []
    else FieldText(fields[0]) + if |fields| == 1 then [RBRACE] else [COMMA] + FieldsText(fields[1..])
  }

  function TreeMeaning(t: Tree): Value
    requires TreeOk(t)
    decreases t
  {
    match t
    case Word(v) => v
    case Numerals(n) => Number(NumeralText(n))
    case Quoted(chars) => Text(CharsMeaning(chars))
    case NoItems(_) => Array([])
    case Items(items) => Array(ItemsMeaning(items))
    case NoFields(_) => Object([])
    case Fields(fields) => Object(FieldsMeaning(fields))
  }

  function ItemsMeaning(items: seq<Item>): (values: seq<Value>)
    requires ItemsOk(items)
    ensures |values| == |items|
    decreases items
  {
    if items == [] then [] else [TreeMeaning(items[0].tree)] + ItemsMeaning(items[1..])
  }

  function FieldsMeaning(fields: seq<Field>): (members: seq<Member<Value>>)
    requires FieldsOk(fields)
    ensures |members| == |fields|
    decreases fields
  {
    if fields == [] then []
    else [Member(CharsMeaning(fields[0].key), TreeMeaning(fields[0].tree))] + FieldsMeaning(fields[1..])
  }

  /** A whole text: one value and the space around it. */
  datatype Document = Document(before: Bytes, tree: Tree, after: Bytes)

  predicate DocumentOk(d: Document) {
    AllSpace(d.before) && TreeOk(d.tree) && AllSpace(d.after)
  }

  function DocumentText(d: Document): Bytes {
    d.before + (TreeText(d.tree) + d.after)
  }

  /**
   * What a reader that refuses repeated keys, too deep nesting and numbers past the float range
   * accepts, whatever way it is written.
   */
  predicate Acceptable(v: Value, depth: nat, rules: Rules)
    decreases v
  {
    && depth <= rules.limit
    && match v
       case Number(token) => rules.strict && Inexact(token) ==> Finite(token)
       case Array(items) => ItemsAcceptable(items, depth + 1, rules)
       case Object(members) => (rules.strict ==> DistinctKeys(members)) && MembersAcceptable(members, depth + 1, rules)
       case _ => true
  }

  predicate ItemsAcceptable(items: seq<Value>, depth: nat, rules: Rules)
    decreases items
  {
    items == [] || (Acceptable(items[0], depth, rules) && ItemsAcceptable(items[1..], depth, rules))
  }

  predicate MembersAcceptable(members: seq<Member<Value>>, depth: nat, rules: Rules)
    decreases members
  {
    members == [] || (Acceptable(members[0].value, depth, rules) && MembersAcceptable(members[1..], depth, rules))
  }
}
