/** The digest of a series' records, assembled from the parts its records share, against the one definition of it. */
module RecordsDigest {
  import opened Bytes
  import opened JsonText
  import opened KeyOrder
  import opened Json
  import opened JsonPieces
  import opened Grammar
  import opened CanonicalForm
  import opened CanonicalRoundTrip
  import opened Framing
  import Utf8

  // ---------- What a record encodes as ----------

  /** A list or map that records point at: two records share it when they point at the same one. */
  class Part {
    const value: Value

    constructor (value: Value)
      ensures this.value == value
    {
      this.value := value;
    }
  }

  datatype Record = Record(
    recordId: Bytes,
    sourceTime: int,
    businessId: Bytes,
    fields: Part,
    identityDigest: Bytes,
    values: Value,
    dimensions: Part,
    collectionTime: Option<int>,
    receivedTime: int)

  const BUSINESS_ID := Ascii("business_id")
  const COLLECTION_TIME := Ascii("collection_time")
  const DIGEST := Ascii("digest")
  const DIMENSION_IDENTITY := Ascii("dimension_identity")
  const DIMENSIONS := Ascii("dimensions")
  const FIELDS := Ascii("fields")
  const RECEIVED_TIME := Ascii("received_time")
  const RECORD_ID := Ascii("record_id")
  const SOURCE_TIME := Ascii("source_time")
  const VALUES := Ascii("values")

  function IdentityValue(fields: Value, digest: Bytes): Value {
    Object([Member(FIELDS, fields), Member(DIGEST, Text(digest))])
  }

  /** A record's JSON, members in the order the encoder writes a record's fields. */
  function RecordValue(r: Record): Value {
    Object(
      [Member(RECORD_ID, Text(r.recordId)),
       Member(SOURCE_TIME, Number(Decimal(r.sourceTime))),
       Member(BUSINESS_ID, Text(r.businessId)),
       Member(DIMENSION_IDENTITY, IdentityValue(r.fields.value, r.identityDigest)),
       Member(VALUES, r.values),
       Member(DIMENSIONS, r.dimensions.value)]
      + (if r.collectionTime.Some? then [Member(COLLECTION_TIME, Number(Decimal(r.collectionTime.value)))] else [])
      + [Member(RECEIVED_TIME, Number(Decimal(r.receivedTime)))])
  }

  function ListValue(records: seq<Record>): Value {
    Array(seq(|records|, i requires 0 <= i < |records| => RecordValue(records[i])))
  }

  /** The canonical bytes of a value, which is refused for repeating a key, for a number past the float range, or for its depth. */
  function Encoded(v: Value, limit: nat): Option<Bytes> {
    if Acceptable(v, 0, Rules(limit, true)) then Some(Canonical(v)) else None
  }

  predicate Opaque(domain: Bytes) {
    domain != [] && forall b <- domain :: 0x21 <= b <= 0x7E
  }

  /** The definition: what the digest of a list of records is taken over, unless it has none. */
  function Generic(domain: Bytes, records: seq<Record>, limit: nat): Option<Bytes> {
    match Encoded(ListValue(records), limit)
    case Some(document) => if Opaque(domain) then Absorbed(domain, [document]) else None
    case None => None
  }

  // ---------- Object members in key order ----------

  lemma {:induction false} ChainAscends(members: seq<Member<Value>>)
    requires forall i :: 0 < i < |members| ==> Less(members[i - 1].key, members[i].key)
    ensures StrictlyAscending(members)
  {
    hide Less;
    if members != [] {
      var front := members[..|members| - 1];
      ChainAscends(front);
      forall i | 0 <= i < |front| ensures Less(members[i].key, members[|members| - 1].key) {
        if i < |front| - 1 {
          assert Less(front[i].key, front[|front| - 1].key);
          LessTransitive(members[i].key, members[|members| - 2].key, members[|members| - 1].key);
        }
      }
      assert forall i :: 0 <= i < |front| ==> front[i] == members[i];
    }
  }

  lemma KeysAscend()
    ensures Less(BUSINESS_ID, DIMENSION_IDENTITY) && Less(DIMENSION_IDENTITY, DIMENSIONS) && Less(DIMENSIONS, RECEIVED_TIME)
    ensures Less(RECEIVED_TIME, RECORD_ID) && Less(RECORD_ID, SOURCE_TIME) && Less(SOURCE_TIME, VALUES)
    ensures Less(DIGEST, FIELDS)
  {
    hide Less;
    LessAtDifference(BUSINESS_ID, DIMENSION_IDENTITY, 0);
    LessAtDifference(DIMENSION_IDENTITY, DIMENSIONS, 9);
    LessAtDifference(DIMENSIONS, RECEIVED_TIME, 0);
    LessAtDifference(RECEIVED_TIME, RECORD_ID, 3) by {
      assert RECEIVED_TIME[..3] == RECORD_ID[..3];
    }
    LessAtDifference(RECORD_ID, SOURCE_TIME, 0);
    LessAtDifference(SOURCE_TIME, VALUES, 0);
    LessAtDifference(DIGEST, FIELDS, 0);
  }

  // ---------- The bytes in pieces ----------

  lemma {:induction false} PlainChars(text: Bytes)
    requires forall i :: 0 <= i < |text| ==> Literal(text[i])
    ensures CanonicalChars(text) == text
  {
    if text != [] {
      PlainChars(text[1..]);
      assert text == [text[0]] + text[1..];
    }
  }

  /** A key as the program's literals write it: quoted, and followed by its colon. */
  function Label(key: Bytes): Bytes {
    [QUOTE] + key + [QUOTE, COLON]
  }

  lemma PrintLabelled(key: Bytes, v: Value)
    requires forall i :: 0 <= i < |key| ==> Literal(key[i])
    ensures PrintMember(Member(key, v)) == Label(key) + Print(v)
  {
    hide Print, CanonicalChars, Literal;
    PlainChars(key);
  }

  /** What every record of a series starts with: its four shared parts and the key of what comes next. */
  function Prefix(business: Bytes, identity: Bytes, dimensions: Bytes, received: Bytes): Bytes {
    [LBRACE] + Label(BUSINESS_ID) + business
    + [COMMA] + Label(DIMENSION_IDENTITY) + identity
    + [COMMA] + Label(DIMENSIONS) + dimensions
    + [COMMA] + Label(RECEIVED_TIME) + received
    + [COMMA] + Label(RECORD_ID)
  }

  /** The rest of a record. */
  function Suffix(id: Bytes, source: Bytes, values: Bytes): Bytes {
    id + [COMMA] + Label(SOURCE_TIME) + source + [COMMA] + Label(VALUES) + values + [RBRACE]
  }

  function IdentityText(digest: Bytes, fields: Bytes): Bytes {
    [LBRACE] + Label(DIGEST) + [QUOTE] + digest + [QUOTE] + [COMMA] + Label(FIELDS) + fields + [RBRACE]
  }

  predicate DigestText(digest: Bytes) {
    |digest| == 64 && forall b <- digest :: 0x30 <= b <= 0x39 || 0x61 <= b <= 0x66
  }

  lemma PrintOne(m: Member<Value>)
    ensures PrintMembers([m]) == PrintMember(m) + [RBRACE]
  {
    hide PrintMember;
  }

  lemma IdentityCanonical(fields: Value, digest: Bytes)
    requires DigestText(digest)
    ensures Canonical(IdentityValue(fields, digest)) == IdentityText(digest, Canonical(fields))
  {
    hide Normal, Print, PrintMember, PrintMembers, CanonicalChars, Less, StrictlyAscending, SortMembers, IdentityText, Label;
    var d, f := Member(DIGEST, Text(digest)), Member(FIELDS, Normal(fields));
    KeysAscend();
    ChainAscends([d, f]);
    NormalIdentity(fields, digest);
    StrictlyIsDistinct([d, f]);
    assert [f, d] == [f] + [d] && [d, f] == [d] + [f];
    AscendingIsSorted([f, d], [d, f]);
    PrintMembersStep(d, [f]);
    PrintOne(f);
    PrintLabelled(DIGEST, Text(digest));
    PrintLabelled(FIELDS, Normal(fields));
    PrintObject([d, f]);
    PlainDigest(digest);
    IdentityPieces(digest, Print(Normal(fields)));
  }

  lemma PlainDigest(digest: Bytes)
    requires DigestText(digest)
    ensures Print(Text(digest)) == [QUOTE] + digest + [QUOTE]
  {
    hide CanonicalChars;
    assert forall i :: 0 <= i < |digest| ==> digest[i] in digest;
    PlainChars(digest);
  }

  lemma NormalIdentity(fields: Value, digest: Bytes)
    ensures Normal(IdentityValue(fields, digest)) == Object(SortMembers([Member(FIELDS, Normal(fields)), Member(DIGEST, Text(digest))]))
  {
    hide SortMembers;
    var members := IdentityValue(fields, digest).members;
    assert Normal(Text(digest)) == Text(digest);
    assert NormalMembers(members) == [Member(FIELDS, Normal(fields)), Member(DIGEST, Text(digest))];
  }

  lemma PrintObject(members: seq<Member<Value>>)
    requires members != []
    ensures Print(Object(members)) == [LBRACE] + PrintMembers(members)
  {
    hide PrintMembers;
  }

  lemma IdentityPieces(digest: Bytes, fields: Bytes)
    ensures [LBRACE] + (Label(DIGEST) + ([QUOTE] + digest + [QUOTE]) + ([COMMA] + (Label(FIELDS) + fields + [RBRACE]))) == IdentityText(digest, fields)
  {
    hide Label;
  }

  lemma StrictlyIsDistinct(members: seq<Member<Value>>)
    requires StrictlyAscending(members)
    ensures Ascending(members) && DistinctKeys(members)
  {
    hide Less;
    forall i, j | 0 <= i < j < |members| ensures !Less(members[j].key, members[i].key) && members[i].key != members[j].key {
      LessTotal(members[i].key, members[j].key);
      LessTotal(members[i].key, members[i].key);
    }
  }

  /** A record's members once each is in canonical form and they are in key order. */
  function Arranged(r: Record): seq<Member<Value>> {
    [Member(BUSINESS_ID, Text(r.businessId)),
     Member(DIMENSION_IDENTITY, Normal(IdentityValue(r.fields.value, r.identityDigest))),
     Member(DIMENSIONS, Normal(r.dimensions.value)),
     Member(RECEIVED_TIME, Number(Decimal(r.receivedTime))),
     Member(RECORD_ID, Text(r.recordId)),
     Member(SOURCE_TIME, Number(Decimal(r.sourceTime))),
     Member(VALUES, Normal(r.values))]
  }

  /** The same members in the order the encoder writes them. */
  function AsWritten<T>(a: seq<T>): seq<T>
    requires |a| == 7
  {
    [a[4], a[5], a[0], a[1], a[6], a[2], a[3]]
  }

  lemma Swapped<T>(p: seq<T>, q: seq<T>, r: seq<T>, t: seq<T>)
    ensures multiset(r + p + (t + q)) == multiset(p + q + (r + t))
  {
  }

  lemma WrittenPermutes<T>(a: seq<T>)
    requires |a| == 7
    ensures multiset(AsWritten(a)) == multiset(a)
  {
    var p, q, r, t := a[..2], a[2..4], a[4..6], a[6..];
    assert a == p + q + (r + t);
    assert AsWritten(a) == r + p + (t + q);
    hide AsWritten;
    Swapped(p, q, r, t);
  }

  lemma NormalWritten(r: Record)
    requires r.collectionTime.None?
    ensures NormalMembers(RecordValue(r).members) == AsWritten(Arranged(r))
  {
    hide IdentityValue, Decimal;
    NormalLeaf(Text(r.recordId));
    NormalLeaf(Text(r.businessId));
    NormalLeaf(Number(Decimal(r.sourceTime)));
    NormalLeaf(Number(Decimal(r.receivedTime)));
    assert RecordValue(r).members ==
      [Member(RECORD_ID, Text(r.recordId)), Member(SOURCE_TIME, Number(Decimal(r.sourceTime))), Member(BUSINESS_ID, Text(r.businessId)),
       Member(DIMENSION_IDENTITY, IdentityValue(r.fields.value, r.identityDigest)), Member(VALUES, r.values),
       Member(DIMENSIONS, r.dimensions.value), Member(RECEIVED_TIME, Number(Decimal(r.receivedTime)))];
  }

  lemma ArrangedAscends(r: Record)
    ensures StrictlyAscending(Arranged(r))
  {
    hide Less, StrictlyAscending, IdentityValue, Normal, Decimal;
    KeysAscend();
    ChainAscends(Arranged(r));
  }

  lemma NormalObject(members: seq<Member<Value>>)
    ensures Normal(Object(members)) == Object(SortMembers(NormalMembers(members)))
  {
    hide SortMembers, NormalMembers;
  }

  lemma NormalRecord(r: Record)
    requires r.collectionTime.None?
    ensures Normal(RecordValue(r)) == Object(Arranged(r))
  {
    hide StrictlyAscending, Ascending, DistinctKeys, SortMembers, NormalMembers, Normal, RecordValue, Arranged, AsWritten;
    ArrangedLength(r);
    ArrangedAscends(r);
    StrictlyIsDistinct(Arranged(r));
    WrittenPermutes(Arranged(r));
    NormalWritten(r);
    AscendingIsSorted(AsWritten(Arranged(r)), Arranged(r));
    NormalObject(RecordValue(r).members);
  }

  lemma ArrangedLength(r: Record)
    ensures |Arranged(r)| == 7 && RecordValue(r).Object?
  {
  }

  lemma PrintSeven(a: seq<Member<Value>>)
    requires |a| == 7
    ensures PrintMembers(a) ==
            PrintMember(a[0]) + ([COMMA] + (PrintMember(a[1]) + ([COMMA] + (PrintMember(a[2]) + ([COMMA] + (PrintMember(a[3])
            + ([COMMA] + (PrintMember(a[4]) + ([COMMA] + (PrintMember(a[5]) + ([COMMA] + (PrintMember(a[6]) + [RBRACE]))))))))))))
  {
    hide PrintMember, PrintMembers;
    PrintOne(a[6]);
    PrintMembersStep(a[5], [a[6]]);
    PrintMembersStep(a[4], [a[5]] + [a[6]]);
    PrintMembersStep(a[3], [a[4]] + ([a[5]] + [a[6]]));
    PrintMembersStep(a[2], [a[3]] + ([a[4]] + ([a[5]] + [a[6]])));
    PrintMembersStep(a[1], [a[2]] + ([a[3]] + ([a[4]] + ([a[5]] + [a[6]]))));
    PrintMembersStep(a[0], [a[1]] + ([a[2]] + ([a[3]] + ([a[4]] + ([a[5]] + [a[6]])))));
    assert a == [a[0]] + ([a[1]] + ([a[2]] + ([a[3]] + ([a[4]] + ([a[5]] + [a[6]])))));
  }

  /** The canonical bytes of a record are its series' prefix and its own suffix. */
  lemma RecordCanonical(r: Record)
    requires r.collectionTime.None?
    ensures Canonical(RecordValue(r)) ==
            Prefix(Canonical(Text(r.businessId)), Canonical(IdentityValue(r.fields.value, r.identityDigest)),
                   Canonical(r.dimensions.value), Decimal(r.receivedTime))
            + Suffix(Canonical(Text(r.recordId)), Decimal(r.sourceTime), Canonical(r.values))
  {
    hide Normal, Print, PrintMember, PrintMembers, CanonicalChars, IdentityValue, Prefix, Suffix, Decimal, Label;
    NormalRecord(r);
    var a := Arranged(r);
    PrintObject(a);
    PrintSeven(a);
    PrintLabelled(BUSINESS_ID, a[0].value);
    PrintLabelled(DIMENSION_IDENTITY, a[1].value);
    PrintLabelled(DIMENSIONS, a[2].value);
    PrintLabelled(RECEIVED_TIME, a[3].value);
    PrintLabelled(RECORD_ID, a[4].value);
    PrintLabelled(SOURCE_TIME, a[5].value);
    PrintLabelled(VALUES, a[6].value);
    NormalLeaf(Text(r.businessId));
    NormalLeaf(Text(r.recordId));
    PrintNumber(Decimal(r.receivedTime));
    PrintNumber(Decimal(r.sourceTime));
    SevenPieces(Print(a[0].value), Print(a[1].value), Print(a[2].value), Print(a[3].value), Print(a[4].value), Print(a[5].value), Print(a[6].value));
  }

  lemma NormalLeaf(v: Value)
    requires v.Text? || v.Number?
    ensures Normal(v) == v
  {
  }

  lemma PrintNumber(token: Bytes)
    ensures Print(Number(token)) == token
  {
  }

  lemma SevenPieces(b: Bytes, i: Bytes, d: Bytes, t: Bytes, id: Bytes, s: Bytes, v: Bytes)
    ensures [LBRACE] + (Label(BUSINESS_ID) + b + ([COMMA] + (Label(DIMENSION_IDENTITY) + i + ([COMMA] + (Label(DIMENSIONS) + d
            + ([COMMA] + (Label(RECEIVED_TIME) + t + ([COMMA] + (Label(RECORD_ID) + id + ([COMMA] + (Label(SOURCE_TIME) + s
            + ([COMMA] + (Label(VALUES) + v + [RBRACE]))))))))))))) == Prefix(b, i, d, t) + Suffix(id, s, v)
  {
    hide Label;
    var tail := Suffix(id, s, v);
    var rest := [COMMA] + (Label(SOURCE_TIME) + s + ([COMMA] + (Label(VALUES) + v + [RBRACE])));
    assert id + rest == tail;
    Regroup3(Label(RECORD_ID), id, rest);
    assert Prefix(b, i, d, t) + tail == [LBRACE] + (Label(BUSINESS_ID) + b + ([COMMA] + (Label(DIMENSION_IDENTITY) + i + ([COMMA] + (Label(DIMENSIONS) + d
            + ([COMMA] + (Label(RECEIVED_TIME) + t + ([COMMA] + (Label(RECORD_ID) + tail)))))))));
  }

  // ---------- A list of texts, written piece by piece ----------

  function Joined(texts: seq<Bytes>): Bytes {
    if texts == [] then []
    else Joined(texts[..|texts| - 1]) + (if |texts| > 1 then [COMMA] else []) + texts[|texts| - 1]
  }

  function Lengths(texts: seq<Bytes>): nat {
    if texts == [] then 0 else Lengths(texts[..|texts| - 1]) + |texts[|texts| - 1]|
  }

  function Flat(texts: seq<Bytes>): (flat: Bytes)
    ensures |flat| == Lengths(texts)
  {
    if texts == [] then [] else Flat(texts[..|texts| - 1]) + texts[|texts| - 1]
  }

  /** Each of the texts after the same prefix. */
  function Prefixed(prefix: Bytes, texts: seq<Bytes>): (full: seq<Bytes>)
    ensures |full| == |texts|
  {
    seq(|texts|, i requires 0 <= i < |texts| => prefix + texts[i])
  }

  lemma {:induction false} JoinedSoFar(texts: seq<Bytes>, items: seq<Value>)
    requires texts != [] && |texts| == |items| && forall i :: 0 <= i < |items| ==> texts[i] == Print(items[i])
    ensures Joined(texts) + [COMMA] == ItemsSoFar(items)
  {
    hide Print;
    var n := |texts| - 1;
    if n > 0 {
      JoinedSoFar(texts[..n], items[..n]);
    }
  }

  lemma JoinedPrints(texts: seq<Bytes>, items: seq<Value>)
    requires texts != [] && |texts| == |items| && forall i :: 0 <= i < |items| ==> texts[i] == Print(items[i])
    ensures Joined(texts) + [RBRACKET] == PrintItems(items)
  {
    hide Print, PrintItems, ItemsSoFar;
    var n := |texts| - 1;
    ItemsContinue(items[..n], [items[n]]);
    assert items == items[..n] + [items[n]];
    PrintLast(items[n]);
    if n > 0 {
      JoinedSoFar(texts[..n], items[..n]);
    } else {
      NothingSoFar();
    }
    Regroup(ItemsSoFar(items[..n]), texts[n], [RBRACKET]);
  }

  lemma NothingSoFar()
    ensures ItemsSoFar([]) == []
  {
  }

  lemma PrintLast(item: Value)
    ensures PrintItems([item]) == Print(item) + [RBRACKET]
  {
    hide Print;
  }

  lemma {:induction false} JoinedLength(prefix: Bytes, texts: seq<Bytes>)
    requires texts != []
    ensures |Joined(Prefixed(prefix, texts))| == |texts| * |prefix| + Lengths(texts) + |texts| - 1
  {
    var n := |texts| - 1;
    var full := Prefixed(prefix, texts);
    assert full[..n] == Prefixed(prefix, texts[..n]);
    assert full[n] == prefix + texts[n];
    if n > 0 {
      JoinedLength(prefix, texts[..n]);
    }
    assert |texts| * |prefix| == n * |prefix| + |prefix|;
  }

  lemma {:induction false} FlatFront(texts: seq<Bytes>, n: nat)
    requires n <= |texts|
    ensures Lengths(texts[..n]) <= Lengths(texts) && Flat(texts)[..Lengths(texts[..n])] == Flat(texts[..n])
  {
    if n < |texts| {
      var front := texts[..|texts| - 1];
      FlatFront(front, n);
      assert front[..n] == texts[..n];
    } else {
      assert texts[..n] == texts;
    }
  }

  /** The text between two ends of the flat buffer. */
  lemma FlatPiece(texts: seq<Bytes>, n: nat)
    requires n < |texts|
    ensures Lengths(texts[..n]) <= Lengths(texts[..n + 1]) <= Lengths(texts)
    ensures Flat(texts)[Lengths(texts[..n])..Lengths(texts[..n + 1])] == texts[n]
  {
    hide Flat, Lengths;
    var front, next, whole := texts[..n], texts[..n + 1], Flat(texts);
    Snoc(texts, n);
    FlatFront(texts, n + 1);
    FlatGrows(front, texts[n]);
    assert |Flat(front)| == Lengths(front) && |Flat(next)| == Lengths(next) && |whole| == Lengths(texts);
    assert whole[..Lengths(next)] == Flat(next);
    Cut(whole, Flat(front), texts[n]);
  }

  lemma Snoc<T>(s: seq<T>, n: nat)
    requires n < |s|
    ensures s[..n + 1] == s[..n] + [s[n]]
  {
  }

  lemma Cut(whole: Bytes, front: Bytes, text: Bytes)
    requires |front| + |text| <= |whole| && whole[..|front| + |text|] == front + text
    ensures whole[|front|..|front| + |text|] == text
  {
    assert whole[|front|..|front| + |text|] == whole[..|front| + |text|][|front|..];
  }

  lemma FlatGrows(texts: seq<Bytes>, text: Bytes)
    ensures Flat(texts + [text]) == Flat(texts) + text && Lengths(texts + [text]) == Lengths(texts) + |text|
  {
    assert (texts + [text])[..|texts|] == texts;
  }

  // ---------- Which lists can be encoded ----------

  lemma {:induction false} AcceptableShallower(v: Value, depth: nat, deeper: nat, rules: Rules)
    requires depth <= deeper && Acceptable(v, deeper, rules)
    ensures Acceptable(v, depth, rules)
    decreases v
  {
    hide Inexact, Finite, DistinctKeys;
    match v {
      case Array(items) =>
        ItemsAcceptableIff(items, depth + 1, rules);
        ItemsAcceptableIff(items, deeper + 1, rules);
        forall i | 0 <= i < |items| ensures Acceptable(items[i], depth + 1, rules) {
          AcceptableShallower(items[i], depth + 1, deeper + 1, rules);
        }
      case Object(members) =>
        MembersAcceptableIff(members, depth + 1, rules);
        MembersAcceptableIff(members, deeper + 1, rules);
        forall i | 0 <= i < |members| ensures Acceptable(members[i].value, depth + 1, rules) {
          AcceptableShallower(members[i].value, depth + 1, deeper + 1, rules);
        }
      case _ =>
    }
  }

  /** Whether each part of a record can be encoded where the record's own encoding puts it. */
  predicate Nests(r: Record, limit: nat) {
    && Acceptable(r.fields.value, 3, Rules(limit, true))
    && Acceptable(r.values, 2, Rules(limit, true))
    && Acceptable(r.dimensions.value, 2, Rules(limit, true))
  }

  lemma IdentityAcceptable(fields: Value, digest: Bytes, depth: nat, rules: Rules)
    requires depth < rules.limit && rules.strict
    ensures Acceptable(IdentityValue(fields, digest), depth, rules) <==> Acceptable(fields, depth + 1, rules)
  {
    KeysAscend();
    LessTotal(DIGEST, FIELDS);
    MembersAcceptableIff(IdentityValue(fields, digest).members, depth + 1, rules);
  }

  lemma {:induction false} DecimalExact(n: int)
    ensures !Inexact(Decimal(n))
  {
    hide Natural;
    var digits := Natural(if n < 0 then -n else n);
    assert forall i :: 0 <= i < |digits| ==> Digit(digits[i]);
  }

  lemma RecordKeysDistinct(r: Record)
    ensures DistinctKeys(RecordValue(r).members)
  {
    hide IdentityValue, Decimal;
    var keys := [RECORD_ID, SOURCE_TIME, BUSINESS_ID, DIMENSION_IDENTITY, VALUES, DIMENSIONS, COLLECTION_TIME, RECEIVED_TIME];
    assert |RECORD_ID| == 9 && |SOURCE_TIME| == 11 && |BUSINESS_ID| == 11 && |DIMENSION_IDENTITY| == 18 && |VALUES| == 6;
    assert |DIMENSIONS| == 10 && |COLLECTION_TIME| == 15 && |RECEIVED_TIME| == 13 && SOURCE_TIME[0] != BUSINESS_ID[0];
  }

  lemma RecordAcceptable(r: Record, limit: nat)
    requires MAX_DEPTH <= limit
    ensures Acceptable(RecordValue(r), 1, Rules(limit, true)) <==> Nests(r, limit)
  {
    hide IdentityValue, Decimal, DistinctKeys, Inexact, Finite;
    var rules := Rules(limit, true);
    var members := RecordValue(r).members;
    RecordKeysDistinct(r);
    MembersAcceptableIff(members, 2, rules);
    IdentityAcceptable(r.fields.value, r.identityDigest, 2, rules);
    DecimalExact(r.sourceTime);
    DecimalExact(r.receivedTime);
    if r.collectionTime.Some? {
      DecimalExact(r.collectionTime.value);
    }
    assert members[3].value == IdentityValue(r.fields.value, r.identityDigest);
    assert members[4].value == r.values && members[5].value == r.dimensions.value;
    if Nests(r, limit) {
      forall i | 0 <= i < |members| ensures Acceptable(members[i].value, 2, rules) {
      }
    }
  }

  lemma ListAcceptable(records: seq<Record>, limit: nat)
    requires MAX_DEPTH <= limit
    ensures Acceptable(ListValue(records), 0, Rules(limit, true)) <==> forall i :: 0 <= i < |records| ==> Nests(records[i], limit)
  {
    hide RecordValue, Nests;
    var items := ListValue(records).items;
    ItemsAcceptableIff(items, 1, Rules(limit, true));
    forall i | 0 <= i < |records| ensures Acceptable(items[i], 1, Rules(limit, true)) <==> Nests(records[i], limit) {
      RecordAcceptable(records[i], limit);
    }
  }

  // ---------- Canonical bytes are UTF-8 ----------

  lemma {:induction false} AsciiValid(s: Bytes)
    requires forall i :: 0 <= i < |s| ==> s[i] < 0x80
    ensures Utf8.Valid(s)
  {
    if s != [] {
      AsciiValid(s[1..]);
    }
  }

  lemma {:induction false} CanonicalCharsValid(text: Bytes)
    requires Utf8.Valid(text)
    ensures Utf8.Valid(CanonicalChars(text))
    decreases |text|
  {
    hide EscapeAscii;
    if text != [] {
      var n := Utf8.RuneLength(text);
      CanonicalCharsValid(text[n..]);
      if text[0] < 0x80 {
        EscapeValid(text[0]);
        Utf8.ValidConcat(EscapeAscii(text[0]), CanonicalChars(text[1..]));
      } else {
        Utf8.RuneLengthLocal(text, []);
        assert text[..n][n..] == [];
        Utf8.ValidConcat(text[..n], CanonicalChars(text[n..]));
      }
    }
  }

  lemma EscapeValid(b: Byte)
    requires b < 0x80
    ensures Utf8.Valid(EscapeAscii(b))
  {
    AsciiValid(EscapeAscii(b));
  }

  lemma StringPrintsValid(text: Bytes)
    requires Utf8.Valid(text)
    ensures Utf8.Valid(CanonicalString(text))
  {
    hide Utf8.Valid, CanonicalChars;
    CanonicalCharsValid(text);
    AsciiValid([QUOTE]);
    Utf8.ValidConcat([QUOTE], CanonicalChars(text));
    Utf8.ValidConcat([QUOTE] + CanonicalChars(text), [QUOTE]);
  }

  lemma TokenValid(token: Bytes)
    requires IsNumeral(token)
    ensures Utf8.Valid(token)
  {
    hide Utf8.Valid, NumeralText, NumeralOk;
    var n: Numeral :| NumeralOk(n) && NumeralText(n) == token;
    NumeralAscii(n);
    assert forall i :: 0 <= i < |token| ==> token[i] in token;
    AsciiValid(token);
  }

  lemma NumeralAscii(n: Numeral)
    requires NumeralOk(n)
    ensures forall b <- NumeralText(n) :: b < 0x80
  {
    DigitsAscii(n.integer);
    if n.fraction.Some? {
      DigitsAscii(n.fraction.value);
    }
    if n.exponent.Some? {
      DigitsAscii(n.exponent.value.digits);
    }
  }

  lemma DigitsAscii(digits: Bytes)
    requires AllDigits(digits)
    ensures forall b <- digits :: b < 0x80
  {
  }

  lemma JoinValid(a: Bytes, b: Bytes, c: Bytes)
    requires Utf8.Valid(a) && Utf8.Valid(b) && Utf8.Valid(c)
    ensures Utf8.Valid(a + b + c) && Utf8.Valid(a + (b + c))
  {
    hide Utf8.Valid;
    Utf8.ValidConcat(a, b);
    Utf8.ValidConcat(a + b, c);
    Utf8.ValidConcat(b, c);
    Utf8.ValidConcat(a, b + c);
  }

  /** A value whose texts are UTF-8 is printed as UTF-8. */
  lemma {:induction false} PrintValid(v: Value)
    requires TextsValid(v) && TokensOk(v)
    ensures Utf8.Valid(Print(v))
    decreases v
  {
    hide Utf8.Valid, CanonicalString, PrintItems, PrintMembers, IsNumeral;
    match v {
      case Number(token) => TokenValid(token);
      case Text(text) => StringPrintsValid(text);
      case Array(items) =>
        AsciiValid([LBRACKET, RBRACKET]);
        AsciiValid([LBRACKET]);
        if items != [] {
          ItemsPrintValid(items);
          Utf8.ValidConcat([LBRACKET], PrintItems(items));
        }
      case Object(members) =>
        AsciiValid([LBRACE, RBRACE]);
        AsciiValid([LBRACE]);
        if members != [] {
          MembersPrintValid(members);
          Utf8.ValidConcat([LBRACE], PrintMembers(members));
        }
      case Null => AsciiValid(NULL_WORD);
      case True => AsciiValid(TRUE_WORD);
      case False => AsciiValid(FALSE_WORD);
    }
  }

  lemma {:induction false} ItemsPrintValid(items: seq<Value>)
    requires items != [] && forall i :: 0 <= i < |items| ==> TextsValid(items[i]) && TokensOk(items[i])
    ensures Utf8.Valid(PrintItems(items))
    decreases items
  {
    hide Utf8.Valid, Print, TextsValid, TokensOk;
    AsciiValid([RBRACKET]);
    AsciiValid([COMMA]);
    PrintValid(items[0]);
    if |items| == 1 {
      Utf8.ValidConcat(Print(items[0]), [RBRACKET]);
    } else {
      ItemsPrintValid(items[1..]);
      JoinValid(Print(items[0]), [COMMA], PrintItems(items[1..]));
    }
  }

  lemma {:induction false} MembersPrintValid(members: seq<Member<Value>>)
    requires members != []
    requires forall i :: 0 <= i < |members| ==> Utf8.Valid(members[i].key) && TextsValid(members[i].value) && TokensOk(members[i].value)
    ensures Utf8.Valid(PrintMembers(members))
    decreases members
  {
    hide Utf8.Valid, Print, TextsValid, TokensOk, CanonicalString;
    AsciiValid([RBRACE]);
    AsciiValid([COMMA]);
    AsciiValid([COLON]);
    PrintValid(members[0].value);
    StringPrintsValid(members[0].key);
    JoinValid(CanonicalString(members[0].key), [COLON], Print(members[0].value));
    if |members| == 1 {
      Utf8.ValidConcat(PrintMember(members[0]), [RBRACE]);
    } else {
      MembersPrintValid(members[1..]);
      JoinValid(PrintMember(members[0]), [COMMA], PrintMembers(members[1..]));
    }
  }

  lemma {:induction false} NaturalNumeral(n: nat)
    ensures AllDigits(Natural(n)) && (Natural(n)[0] == 0x30 ==> |Natural(n)| == 1)
    ensures n > 0 ==> Natural(n)[0] != 0x30
  {
    if n >= 10 {
      NaturalNumeral(n / 10);
    }
  }

  lemma DecimalNumeral(n: int)
    ensures IsNumeral(Decimal(n))
  {
    hide Natural, AllDigits;
    var digits := Natural(if n < 0 then -n else n);
    NaturalNumeral(if n < 0 then -n else n);
    var numeral := Numeral(n < 0, digits, None, None);
    assert NumeralText(numeral) == Decimal(n) && NumeralOk(numeral);
  }

  /** What reads back from a record's JSON: strings that are UTF-8 and numbers of the grammar. */
  ghost predicate Readable(v: Value) {
    TextsValid(v) && TokensOk(v)
  }

  ghost predicate ReadableRecord(r: Record) {
    && Utf8.Valid(r.recordId) && Utf8.Valid(r.businessId) && Utf8.Valid(r.identityDigest)
    && Readable(r.fields.value) && Readable(r.values) && Readable(r.dimensions.value)
  }

  lemma RecordReadable(r: Record)
    requires ReadableRecord(r)
    ensures Readable(RecordValue(r))
  {
    hide IdentityValue, Decimal, IsNumeral, Utf8.Valid, TextsValid, TokensOk;
    var members := RecordValue(r).members;
    DecimalNumeral(r.sourceTime);
    DecimalNumeral(r.receivedTime);
    if r.collectionTime.Some? {
      DecimalNumeral(r.collectionTime.value);
    }
    IdentityReadable(r.fields.value, r.identityDigest);
    KeysValid();
    forall i | 0 <= i < |members| ensures Utf8.Valid(members[i].key) && Readable(members[i].value) {
      LeafReadable(members[i].value);
    }
    ObjectReadable(members);
  }

  lemma KeysValid()
    ensures Utf8.Valid(BUSINESS_ID) && Utf8.Valid(COLLECTION_TIME) && Utf8.Valid(DIGEST) && Utf8.Valid(DIMENSION_IDENTITY)
    ensures Utf8.Valid(DIMENSIONS) && Utf8.Valid(FIELDS) && Utf8.Valid(RECEIVED_TIME) && Utf8.Valid(RECORD_ID)
    ensures Utf8.Valid(SOURCE_TIME) && Utf8.Valid(VALUES)
  {
    hide Utf8.Valid;
    AsciiValid(BUSINESS_ID);
    AsciiValid(COLLECTION_TIME);
    AsciiValid(DIGEST);
    AsciiValid(DIMENSION_IDENTITY);
    AsciiValid(DIMENSIONS);
    AsciiValid(FIELDS);
    AsciiValid(RECEIVED_TIME);
    AsciiValid(RECORD_ID);
    AsciiValid(SOURCE_TIME);
    AsciiValid(VALUES);
  }

  lemma LeafReadable(v: Value)
    ensures v.Text? && Utf8.Valid(v.text) ==> Readable(v)
    ensures v.Number? && IsNumeral(v.token) ==> Readable(v)
  {
  }

  lemma ObjectReadable(members: seq<Member<Value>>)
    requires forall i :: 0 <= i < |members| ==> Utf8.Valid(members[i].key) && Readable(members[i].value)
    ensures Readable(Object(members))
  {
  }

  lemma IdentityReadable(fields: Value, digest: Bytes)
    requires Readable(fields) && Utf8.Valid(digest)
    ensures Readable(IdentityValue(fields, digest))
  {
    hide Utf8.Valid, TextsValid, TokensOk;
    KeysValid();
    LeafReadable(Text(digest));
    ObjectReadable(IdentityValue(fields, digest).members);
  }

  lemma ListCanonicalValid(records: seq<Record>)
    requires forall r <- records :: ReadableRecord(r)
    ensures Utf8.Valid(Canonical(ListValue(records)))
  {
    hide Utf8.Valid, ReadableRecord, RecordValue, Normal, Print;
    var items := ListValue(records).items;
    forall i | 0 <= i < |records| ensures Readable(items[i]) {
      assert records[i] in records;
      RecordReadable(records[i]);
    }
    assert Readable(ListValue(records));
    NormalKeeps(ListValue(records), 0, SINGLE_PASS);
    PrintValid(Normal(ListValue(records)));
  }

  // ---------- The fast form ----------

  function PrefixOf(r: Record): Bytes {
    Prefix(Canonical(Text(r.businessId)), Canonical(IdentityValue(r.fields.value, r.identityDigest)),
           Canonical(r.dimensions.value), Decimal(r.receivedTime))
  }

  function SuffixOf(r: Record): Bytes {
    Suffix(Canonical(Text(r.recordId)), Decimal(r.sourceTime), Canonical(r.values))
  }

  function SuffixesOf(records: seq<Record>): (suffixes: seq<Bytes>)
    ensures |suffixes| == |records|
  {
    seq(|records|, i requires 0 <= i < |records| => SuffixOf(records[i]))
  }

  /** Whether a record says nothing of when it was collected and points at what the first one points at. */
  predicate SameSeries(r: Record, first: Record) {
    && r.collectionTime.None? && r.businessId == first.businessId && r.receivedTime == first.receivedTime
    && r.identityDigest == first.identityDigest && r.fields == first.fields && r.dimensions == first.dimensions
  }

  predicate Shares(records: seq<Record>) {
    records != [] && forall i :: 0 <= i < |records| ==> SameSeries(records[i], records[0])
  }

  /** A series' identity with its fields already encoded, and which list they are. */
  datatype Encoding = NoEncoding | Encoding(digest: Bytes, fields: Part, canonical: Bytes)

  predicate Faithful(encoded: Encoding, limit: nat) {
    encoded.Encoding? ==> Encoded(encoded.fields.value, limit) == Some(encoded.canonical)
  }

  predicate Answers(encoded: Encoding, r: Record) {
    encoded.Encoding? && encoded.digest == r.identityDigest && DigestText(r.identityDigest) && encoded.fields == r.fields
  }

  /** Whether every part can be encoded on its own. */
  predicate PartsEncode(records: seq<Record>, encoded: Encoding, limit: nat)
    requires records != []
  {
    var rules := Rules(limit, true);
    && (Answers(encoded, records[0]) || Acceptable(IdentityValue(records[0].fields.value, records[0].identityDigest), 0, rules))
    && Acceptable(records[0].dimensions.value, 0, rules)
    && forall i :: 0 <= i < |records| ==> Acceptable(records[i].values, 0, rules)
  }

  /** The document of a series is its brackets around its prefix and each record's suffix. */
  lemma DocumentInPieces(records: seq<Record>)
    requires Shares(records)
    ensures Canonical(ListValue(records)) == [LBRACKET] + Joined(Prefixed(PrefixOf(records[0]), SuffixesOf(records))) + [RBRACKET]
  {
    hide RecordValue, Normal, PrintItems, Prefix, Suffix, Joined;
    var items := NormalItems(ListValue(records).items);
    var texts := Prefixed(PrefixOf(records[0]), SuffixesOf(records));
    forall i | 0 <= i < |records| ensures texts[i] == Print(items[i]) {
      RecordCanonical(records[i]);
    }
    JoinedPrints(texts, items);
    ListNormal(records);
  }

  lemma ListNormal(records: seq<Record>)
    requires records != []
    ensures Canonical(ListValue(records)) == [LBRACKET] + PrintItems(NormalItems(ListValue(records).items))
  {
    hide PrintItems, RecordValue;
  }

  method DimensionIdentityPart(r: Record, encoded: Encoding, limit: nat) returns (part: Option<Bytes>)
    requires Faithful(encoded, limit)
    ensures part == if Answers(encoded, r) || Acceptable(IdentityValue(r.fields.value, r.identityDigest), 0, Rules(limit, true))
                    then Some(Canonical(IdentityValue(r.fields.value, r.identityDigest))) else None
  {
    hide Acceptable, Canonical, IdentityValue, IdentityText, Label;
    if !Answers(encoded, r) {
      return Encoded(IdentityValue(r.fields.value, r.identityDigest), limit);
    }
    IdentityCanonical(r.fields.value, r.identityDigest);
    var text := [LBRACE] + Label(DIGEST) + [QUOTE] + r.identityDigest + [QUOTE] + [COMMA] + Label(FIELDS) + encoded.canonical + [RBRACE];
    IdentityTextUnfold(r.identityDigest, encoded.canonical);
    part := Some(text);
  }

  lemma IdentityTextUnfold(digest: Bytes, fields: Bytes)
    ensures IdentityText(digest, fields) == [LBRACE] + Label(DIGEST) + [QUOTE] + digest + [QUOTE] + [COMMA] + Label(FIELDS) + fields + [RBRACE]
  {
  }

  /** Both fields of a series' digest behind their lengths: what the fast form feeds the hash. */
  function SeriesBytes(domain: Bytes, document: Bytes): Bytes {
    BigEndian32(|domain|) + domain + BigEndian32(|document|) + document
  }

  /**
   * The digest assembled from the series' parts. It is fed the very bytes of the whole list's canonical
   * encoding, behind their right length, whenever the list is one series, its parts can be encoded and
   * the whole fits its 32-bit length; otherwise it has no answer.
   */
  method DeriveSharedRecordsDigest(domain: Bytes, records: seq<Record>, encoded: Encoding, limit: nat) returns (absorbed: Option<Bytes>)
    requires Faithful(encoded, limit)
    ensures absorbed ==
            if Shares(records) && PartsEncode(records, encoded, limit) && |Canonical(ListValue(records))| < UINT32
            then Some(SeriesBytes(domain, Canonical(ListValue(records))))
            else None
  {
    hide Acceptable, Canonical, IdentityValue, Label, Suffix, Prefix, Answers, ListValue, Faithful, Decimal, BigEndian32;
    hide Flat, Lengths, Joined, Prefixed, SuffixesOf, Shares, SeriesBytes;
    var shared := OneSeries(records);
    if !shared {
      return None;
    }
    var first := records[0];
    var identity := DimensionIdentityPart(first, encoded, limit);
    var dimensions := Encoded(first.dimensions.value, limit);
    if identity.None? || dimensions.None? {
      return None;
    }
    var prefix := Prefix(Canonical(Text(first.businessId)), identity.value, dimensions.value, Decimal(first.receivedTime));
    var varying, ends := WriteVarying(records, limit);
    if varying.None? {
      return None;
    }
    ghost var suffixes := SuffixesOf(records);
    DocumentInPieces(records);
    JoinedLength(prefix, suffixes);
    var total := 2 + |records| * |prefix| + |varying.value| + |records| - 1;
    assert total == |Canonical(ListValue(records))|;
    if total >= UINT32 {
      return None;
    }
    var fed := FeedSeries(domain, total, prefix, varying.value, ends, suffixes);
    SeriesBytesUnfold(domain, Canonical(ListValue(records)));
    absorbed := Some(fed);
  }

  lemma SeriesBytesUnfold(domain: Bytes, document: Bytes)
    ensures SeriesBytes(domain, document) == BigEndian32(|domain|) + domain + BigEndian32(|document|) + document
  {
  }

  method OneSeries(records: seq<Record>) returns (shared: bool)
    ensures shared == Shares(records)
    ensures shared ==> records != []
  {
    if |records| == 0 {
      return false;
    }
    var index := 0;
    while index < |records|
      invariant 0 <= index <= |records|
      invariant forall k :: 0 <= k < index ==> SameSeries(records[k], records[0])
    {
      if !SameSeries(records[index], records[0]) {
        return false;
      }
      index := index + 1;
    }
    shared := true;
  }

  method FeedSeries(domain: Bytes, total: nat, prefix: Bytes, varying: Bytes, ends: array<nat>, ghost suffixes: seq<Bytes>) returns (absorbed: Bytes)
    requires varying == Flat(suffixes) && ends.Length == |suffixes|
    requires forall i :: 0 <= i < |suffixes| ==> ends[i] == Lengths(suffixes[..i + 1])
    ensures absorbed == BigEndian32(|domain|) + domain + BigEndian32(total) + ([LBRACKET] + Joined(Prefixed(prefix, suffixes)) + [RBRACKET])
  {
    hide BigEndian32, Joined, Prefixed, Flat, Lengths;
    var hash := new RunningHash();
    hash.Write(BigEndian32(|domain|));
    hash.Write(domain);
    hash.Write(BigEndian32(total));
    hash.Write([LBRACKET]);
    FeedRecords(hash, prefix, varying, ends, suffixes);
    hash.Write([RBRACKET]);
    absorbed := hash.absorbed;
    SeriesPieces(BigEndian32(|domain|), domain, BigEndian32(total), Joined(Prefixed(prefix, suffixes)));
  }

  lemma SeriesPieces(a: Bytes, domain: Bytes, b: Bytes, joined: Bytes)
    ensures [] + a + domain + b + [LBRACKET] + joined + [RBRACKET] == a + domain + b + ([LBRACKET] + joined + [RBRACKET])
  {
  }

  /** What each record adds, one after another in one buffer, and where each ends. */
  method WriteVarying(records: seq<Record>, limit: nat) returns (varying: Option<Bytes>, ends: array<nat>)
    ensures fresh(ends) && ends.Length == |records|
    ensures varying == if forall i :: 0 <= i < |records| ==> Acceptable(records[i].values, 0, Rules(limit, true))
                       then Some(Flat(SuffixesOf(records))) else None
    ensures varying.Some? ==> forall i :: 0 <= i < |records| ==> ends[i] == Lengths(SuffixesOf(records)[..i + 1])
  {
    ghost var suffixes := SuffixesOf(records);
    NoTexts(suffixes);
    hide Acceptable, Canonical, Flat, Lengths, SuffixOf, SuffixesOf;
    ends := new nat[|records|];
    var buffer: Bytes := [];
    var index := 0;
    while index < |records|
      invariant 0 <= index <= |records|
      invariant buffer == Flat(suffixes[..index])
      invariant forall i :: 0 <= i < index ==> ends[i] == Lengths(suffixes[..i + 1])
      invariant forall i :: 0 <= i < index ==> Acceptable(records[i].values, 0, Rules(limit, true))
    {
      var r := records[index];
      var values := Encoded(r.values, limit);
      if values.None? {
        return None, ends;
      }
      SnocFlat(suffixes, index);
      SuffixAt(records, index);
      buffer := AppendSuffix(buffer, r, values.value);
      ends[index] := |buffer|;
      index := index + 1;
    }
    assert suffixes[..index] == suffixes;
    varying := Some(buffer);
  }

  method AppendSuffix(buffer: Bytes, r: Record, values: Bytes) returns (longer: Bytes)
    requires values == Canonical(r.values)
    ensures longer == buffer + SuffixOf(r)
  {
    hide Canonical, Decimal, Label, Suffix;
    longer := buffer + Canonical(Text(r.recordId));
    longer := longer + ([COMMA] + Label(SOURCE_TIME));
    longer := longer + Decimal(r.sourceTime);
    longer := longer + ([COMMA] + Label(VALUES));
    longer := longer + values;
    longer := longer + [RBRACE];
    SuffixPieces(buffer, Canonical(Text(r.recordId)), Decimal(r.sourceTime), values);
  }

  lemma NoTexts(texts: seq<Bytes>)
    ensures Flat(texts[..0]) == []
  {
  }

  lemma SuffixAt(records: seq<Record>, i: nat)
    requires i < |records|
    ensures SuffixesOf(records)[i] == SuffixOf(records[i])
  {
    hide SuffixOf;
  }

  lemma SnocFlat(texts: seq<Bytes>, n: nat)
    requires n < |texts|
    ensures Flat(texts[..n + 1]) == Flat(texts[..n]) + texts[n] && Lengths(texts[..n + 1]) == |Flat(texts[..n + 1])|
  {
    Snoc(texts, n);
    FlatGrows(texts[..n], texts[n]);
  }

  lemma SuffixPieces(front: Bytes, id: Bytes, source: Bytes, values: Bytes)
    ensures front + id + ([COMMA] + Label(SOURCE_TIME)) + source + ([COMMA] + Label(VALUES)) + values + [RBRACE] == front + Suffix(id, source, values)
  {
    hide Label;
  }

  /** Feeds the prefix and one record's own bytes in turn, a comma between each two. */
  method FeedRecords(hash: RunningHash, prefix: Bytes, varying: Bytes, ends: array<nat>, ghost suffixes: seq<Bytes>)
    requires varying == Flat(suffixes) && ends.Length == |suffixes|
    requires forall i :: 0 <= i < |suffixes| ==> ends[i] == Lengths(suffixes[..i + 1])
    modifies hash
    ensures hash.absorbed == old(hash.absorbed) + Joined(Prefixed(prefix, suffixes))
  {
    hide Flat;
    var index, start := 0, 0;
    ghost var full := Prefixed(prefix, suffixes);
    ghost var head := hash.absorbed;
    assert full[..0] == [] && suffixes[..0] == [];
    while index < ends.Length
      invariant 0 <= index <= ends.Length
      invariant start == Lengths(suffixes[..index])
      invariant hash.absorbed == head + Joined(full[..index])
    {
      FlatPiece(suffixes, index);
      ghost var front := full[..index];
      Snoc(full, index);
      JoinedSnoc(front, full[index]);
      if index > 0 {
        hash.Write([COMMA]);
      }
      hash.Write(prefix);
      hash.Write(varying[start..ends[index]]);
      FeedPieces(head, Joined(front), if index > 0 then [COMMA] else [], prefix, suffixes[index]);
      assert if index > 0 then true else head + Joined(front) + [] == head + Joined(front);
      start := ends[index];
      index := index + 1;
    }
    assert full[..index] == full;
  }

  lemma JoinedSnoc(texts: seq<Bytes>, text: Bytes)
    ensures Joined(texts + [text]) == Joined(texts) + (if texts != [] then [COMMA] else []) + text
  {
    assert (texts + [text])[..|texts|] == texts;
  }

  lemma FeedPieces(head: Bytes, joined: Bytes, comma: Bytes, prefix: Bytes, suffix: Bytes)
    ensures head + joined + comma + prefix + suffix == head + (joined + comma + (prefix + suffix))
  {
  }

  // ---------- The fast form against the definition ----------

  lemma FrameTwo(a: Bytes, b: Bytes)
    ensures Frame([a] + [b]) == SeriesBytes(a, b)
  {
    hide BigEndian32;
    assert ([a] + [b])[1..] == [b] && [b][1..] == [];
    assert Frame([b]) == FrameOne(b) + [] == FrameOne(b);
    assert FrameOne(a) + FrameOne(b) == BigEndian32(|a|) + a + BigEndian32(|b|) + b;
  }

  /** Exactly which lists of readable records the definition has a digest for, and over which bytes. */
  lemma GenericExactly(domain: Bytes, records: seq<Record>, limit: nat)
    requires MAX_DEPTH <= limit && forall r <- records :: ReadableRecord(r)
    ensures var document := Canonical(ListValue(records));
            Generic(domain, records, limit) ==
            if Opaque(domain) && |domain| < UINT32 && |document| < UINT32 && forall i :: 0 <= i < |records| ==> Nests(records[i], limit)
            then Some(SeriesBytes(domain, document)) else None
  {
    hide Acceptable, Canonical, ListValue, Nests, ReadableRecord, SeriesBytes, Frame, Utf8.Valid;
    var document := Canonical(ListValue(records));
    ListAcceptable(records, limit);
    ListCanonicalValid(records);
    if Opaque(domain) {
      forall i | 0 <= i < |domain| ensures domain[i] < 0x80 {
        assert domain[i] in domain;
      }
      AsciiValid(domain);
      FrameTwo(domain, document);
      var fields := [domain] + [document];
      assert fields[0] == domain && fields[1] == document;
      assert (forall f <- fields :: Utf8.Valid(f) && |f| < UINT32) <==> |domain| < UINT32 && |document| < UINT32;
    }
  }

  /** A list the whole of which nests within the limit has parts that do. */
  lemma NestedPartsEncode(records: seq<Record>, encoded: Encoding, limit: nat)
    requires MAX_DEPTH <= limit && records != [] && forall i :: 0 <= i < |records| ==> Nests(records[i], limit)
    ensures PartsEncode(records, encoded, limit)
  {
    hide Acceptable, IdentityValue, Answers;
    var rules := Rules(limit, true);
    forall i | 0 <= i < |records| ensures Acceptable(records[i].values, 0, rules) {
      AcceptableShallower(records[i].values, 0, 2, rules);
    }
    AcceptableShallower(records[0].dimensions.value, 0, 2, rules);
    AcceptableShallower(records[0].fields.value, 1, 3, rules);
    IdentityAcceptable(records[0].fields.value, records[0].identityDigest, 0, rules);
  }

  /** What a series' digest is taken over by the fast form when the definition refuses the series. */
  predicate OnlyShared(domain: Bytes, records: seq<Record>, encoded: Encoding, limit: nat) {
    && Shares(records) && PartsEncode(records, encoded, limit) && Opaque(domain) && |Canonical(ListValue(records))| < UINT32
    && (|domain| >= UINT32 || exists i :: 0 <= i < |records| && !Nests(records[i], limit))
  }

  function Digest(sum: Bytes -> Bytes, absorbed: Option<Bytes>): Option<Bytes> {
    match absorbed
    case Some(bytes) => Some(sum(bytes))
    case None => None
  }

  /**
   * The digest of a series' records, checked against the definition when this call is sampled. It is
   * the definition's digest whenever there is one; a sampled call differs, and an unsampled one answers
   * in its place, exactly for a series the definition refuses for its depth or its domain's length alone.
   */
  method DeriveSeriesRecordsDigestV2(domain: Bytes, records: seq<Record>, encoded: Encoding, sampled: bool,
                                     sum: Bytes -> Bytes, limit: nat)
    returns (digest: Option<Bytes>, differed: bool)
    requires Faithful(encoded, limit) && MAX_DEPTH <= limit && forall r <- records :: ReadableRecord(r)
    ensures Generic(domain, records, limit).Some? || sampled ==> digest == Digest(sum, Generic(domain, records, limit))
    ensures differed <==> sampled && OnlyShared(domain, records, encoded, limit)
    ensures Generic(domain, records, limit).None? ==> (digest.Some? <==> !sampled && OnlyShared(domain, records, encoded, limit))
  {
    hide Acceptable, Canonical, ListValue, PartsEncode, Shares, Nests, SeriesBytes, ReadableRecord, Generic, Opaque;
    differed := false;
    GenericExactly(domain, records, limit);
    if !Opaque(domain) {
      return None, false;
    }
    SharedHasRecords(records);
    if Shares(records) && forall i :: 0 <= i < |records| ==> Nests(records[i], limit) {
      NestedPartsEncode(records, encoded, limit);
    }
    var shared := DeriveSharedRecordsDigest(domain, records, encoded, limit);
    var established := Digest(sum, Generic(domain, records, limit));
    if shared.None? {
      return established, false;
    }
    if !sampled {
      return Digest(sum, shared), false;
    }
    digest := established;
    differed := !(established.Some? && established == Digest(sum, shared));
  }

  lemma SharedHasRecords(records: seq<Record>)
    ensures Shares(records) ==> records != []
  {
  }

  // ---------- A series only the fast form answers ----------

  /** Brackets within brackets, n of them around nothing. */
  function Brackets(n: nat): Value {
    if n == 0 then Null else Array([Brackets(n - 1)])
  }

  lemma {:induction false} BracketsNest(n: nat, depth: nat, rules: Rules)
    ensures Acceptable(Brackets(n), depth, rules) <==> depth + n <= rules.limit
    ensures Readable(Brackets(n))
  {
    if n > 0 {
      BracketsNest(n - 1, depth + 1, rules);
      ItemsAcceptableIff([Brackets(n - 1)], depth + 1, rules);
    }
  }

  lemma {:induction false} BracketsLength(n: nat)
    ensures |Canonical(Brackets(n))| == 2 * n + 4
  {
    if n > 0 {
      BracketsLength(n - 1);
      BracketsPrint(Brackets(n - 1));
    }
  }

  lemma BracketsPrint(v: Value)
    ensures Canonical(Array([v])) == [LBRACKET] + (Canonical(v) + [RBRACKET])
  {
    hide Print, PrintItems;
    assert NormalItems([v]) == [Normal(v)];
    PrintLast(Normal(v));
    PrintArray([Normal(v)]);
  }

  lemma PrintArray(items: seq<Value>)
    requires items != []
    ensures Print(Array(items)) == [LBRACKET] + PrintItems(items)
  {
    hide PrintItems;
  }

  const SIXTEEN_ZEROS: Bytes := [0x30, 0x30, 0x30, 0x30, 0x30, 0x30, 0x30, 0x30, 0x30, 0x30, 0x30, 0x30, 0x30, 0x30, 0x30, 0x30]
  const ZEROS: Bytes := SIXTEEN_ZEROS + SIXTEEN_ZEROS + SIXTEEN_ZEROS + SIXTEEN_ZEROS

  lemma ZerosDigest()
    ensures DigestText(ZEROS) && Utf8.Valid(ZEROS)
  {
    assert forall b <- SIXTEEN_ZEROS :: b == 0x30;
    AsciiValid(ZEROS);
  }

  /** A record whose values nest to the limit on their own and so past it inside the record. */
  function DeepRecord(part: Part, limit: nat): Record {
    Record([], 0, [], part, ZEROS, Brackets(limit), part, None, 0)
  }

  lemma DeepLength(part: Part, limit: nat)
    requires part.value == Null
    ensures |Canonical(ListValue([DeepRecord(part, limit)]))| < 2 * limit + 1000
  {
    hide Canonical, IdentityValue, Joined, Flat, Brackets, Decimal;
    var r := DeepRecord(part, limit);
    var prefix, suffixes := PrefixOf(r), SuffixesOf([r]);
    DocumentInPieces([r]);
    JoinedLength(prefix, suffixes);
    assert suffixes == [SuffixOf(r)] && suffixes[..0] == [];
    assert Lengths(suffixes) == |SuffixOf(r)|;
    BracketsLength(limit);
    ZerosDigest();
    IdentityCanonical(Null, ZEROS);
    SmallLengths();
  }

  lemma SmallLengths()
    ensures |Canonical(Text([]))| == 2 && |Canonical(Null)| == 4 && |Decimal(0)| == 1
  {
  }

  /** The definition refuses it, and the fast form gives it a digest. */
  lemma DeepSeriesDiffers(domain: Bytes, part: Part, limit: nat)
    requires MAX_DEPTH <= limit < 1_000_000_000 && part.value == Null && Opaque(domain)
    ensures forall r <- [DeepRecord(part, limit)] :: ReadableRecord(r)
    ensures Generic(domain, [DeepRecord(part, limit)], limit).None?
    ensures OnlyShared(domain, [DeepRecord(part, limit)], NoEncoding, limit)
  {
    hide IdentityValue, Generic, Canonical, ListValue, Brackets, Readable, Nests, ReadableRecord, Acceptable, DeepRecord, PartsEncode, Shares;
    var r := DeepRecord(part, limit);
    DeepParts(part, limit);
    assert [r][0] == r;
    GenericExactly(domain, [r], limit);
    DeepLength(part, limit);
  }

  lemma DeepParts(part: Part, limit: nat)
    requires MAX_DEPTH <= limit && part.value == Null
    ensures ReadableRecord(DeepRecord(part, limit)) && !Nests(DeepRecord(part, limit), limit)
    ensures Shares([DeepRecord(part, limit)]) && PartsEncode([DeepRecord(part, limit)], NoEncoding, limit)
  {
    assert Readable(Null);
    hide IdentityValue, Canonical, Brackets, TextsValid, TokensOk, Utf8.Valid;
    var rules := Rules(limit, true);
    assert Utf8.Valid([]) by {
      AsciiValid([]);
    }
    ZerosDigest();
    BracketsNest(limit, 0, rules);
    BracketsNest(limit, 2, rules);
    IdentityAcceptable(Null, ZEROS, 0, rules);
  }
}
