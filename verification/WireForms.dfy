/** The bytes digests and delivery proofs are taken over, written out. */
module WireForms {
  import opened Bytes
  import opened JsonText
  import opened KeyOrder
  import opened Json
  import opened Framing
  import opened RecordsDigest
  import opened RecordId
  import opened SeriesDelivery
  import opened CodePoints
  import opened FloatRange
  import Utf8

  // ---------- Numbers ----------

  /** The number some bytes are, the most significant first. */
  function NumberOf(b: Bytes): nat {
    if b == [] then 0 else NumberOf(b[..|b| - 1]) * 0x100 + b[|b| - 1]
  }

  lemma {:induction false} BigEndianReads(n: nat, size: nat)
    requires n < Power(0x100, size)
    ensures NumberOf(BigEndian(n, size)) == n
  {
    hide Power;
    if size == 0 {
      PowerZero();
    } else {
      var b := BigEndian(n, size);
      Quotient(n, size);
      assert b[..size - 1] == BigEndian(n / 0x100, size - 1);
      BigEndianReads(n / 0x100, size - 1);
    }
  }

  lemma PowerZero()
    ensures Power(0x100, 0) == 1
  {
  }

  lemma Quotient(n: nat, size: nat)
    requires size > 0 && n < Power(0x100, size)
    ensures n / 0x100 < Power(0x100, size - 1)
  {
  }

  /** A length is four bytes, the most significant first. */
  lemma LengthReads(n: nat)
    requires n < UINT32
    ensures var b := BigEndian32(n); b[0] as int * 0x100_0000 + b[1] as int * 0x1_0000 + b[2] as int * 0x100 + b[3] as int == n
  {
    assert Power(0x100, 4) == 0x100 * Power(0x100, 3) == 0x10000 * Power(0x100, 2) == UINT32;
    BigEndianReads(n, 4);
    var b := BigEndian(n, 4);
    assert b[..3][..2][..1][..0] == [];
    assert NumberOf(b[..3][..2][..1]) == b[0] && NumberOf(b[..3][..2]) == b[0] as int * 0x100 + b[1] as int;
    assert NumberOf(b[..3]) == NumberOf(b[..3][..2]) * 0x100 + b[2] as int;
  }

  /** An integer's text is its sign and its digits, the first of them no zero unless it is the only one. */
  lemma DecimalReads(n: int)
    ensures n >= 0 ==> DigitsValue(Decimal(n)) == n && (n > 0 ==> Decimal(n)[0] != 0x30)
    ensures n < 0 ==> Decimal(n)[0] == 0x2D && DigitsValue(Decimal(n)[1..]) == -n && Decimal(n)[1] != 0x30
  {
    hide Natural, DigitsValue;
    if n >= 0 {
      NaturalReads(n);
    } else {
      NaturalReads(-n);
      assert Decimal(n)[1..] == Natural(-n);
    }
  }

  // ---------- Digests ----------

  predicate LowerHex(b: Byte) {
    exists n :: 0 <= n < 16 && b == LOWER[n]
  }

  /** A digest is sixty-four hexadecimal digits in lower case. */
  lemma DigestTextIs(digest: Bytes)
    ensures DigestText(digest) <==> |digest| == 64 && forall b <- digest :: LowerHex(b)
  {
    forall b <- digest ensures (0x30 <= b <= 0x39 || 0x61 <= b <= 0x66) <==> LowerHex(b) {
      LowerHexIs(b);
    }
  }

  lemma LowerHexIs(b: Byte)
    ensures LowerHex(b) <==> 0x30 <= b <= 0x39 || 0x61 <= b <= 0x66
  {
    if n :| 0 <= n < 16 && b == LOWER[n] {
      DigitPlaces(n);
    }
    if 0x30 <= b <= 0x39 {
      DigitPlaces(b - 0x30);
      assert b == LOWER[b - 0x30];
    }
    if 0x61 <= b <= 0x66 {
      DigitPlaces(b - 0x57);
      assert b == LOWER[b - 0x57];
    }
  }

  /** A domain is printable ASCII without the space, and not empty. */
  lemma OpaqueIs(domain: Bytes)
    ensures Opaque(domain) <==> domain != [] && forall b <- domain :: '!' as int <= b <= '~' as int
  {
  }

  /** A byte's two digits. */
  predicate Digits2(m: Byte, n: Byte, b: Byte) {
    m == LOWER[b / 16] && n == LOWER[b % 16]
  }

  /** A byte is written as two digits in lower case, the higher one first. */
  lemma {:induction false} HexReads(b: Bytes, i: nat)
    requires i < |b|
    ensures Digits2(Hex(b)[2 * i], Hex(b)[2 * i + 1], b[i])
  {
    hide Digits2;
    if i == 0 {
      FirstHex(b);
    } else {
      HexReads(b[1..], i - 1);
      RestHex(b);
      assert Hex(b)[2 * i] == Hex(b)[2..][2 * i - 2] && Hex(b)[2 * i + 1] == Hex(b)[2..][2 * i - 1];
      assert b[1..][i - 1] == b[i];
    }
  }

  lemma FirstHex(b: Bytes)
    requires b != []
    ensures Digits2(Hex(b)[0], Hex(b)[1], b[0])
  {
    assert HEX_DIGITS == LOWER;
  }

  lemma RestHex(b: Bytes)
    requires b != []
    ensures Hex(b)[2..] == Hex(b[1..])
  {
  }

  // ---------- Records ----------

  /** A key as it is spelled, after the mark before it: quoted, and followed by its colon. */
  function Keyed(mark: char, name: string): Bytes {
    Chars([mark] + "\"" + name + "\":")
  }

  function Chars(text: string): Bytes {
    seq(|text|, i requires 0 <= i < |text| => if text[i] < 128 as char then text[i] as int else 0)
  }

  lemma KeyedIs(name: string)
    requires forall i :: 0 <= i < |name| ==> name[i] < 128 as char
    ensures Keyed('{', name) == [LBRACE] + Label(Ascii(name)) && Keyed(',', name) == [COMMA] + Label(Ascii(name))
  {
  }

  /** The canonical bytes of a record, its keys as they are spelled. */
  lemma RecordIs(r: Record)
    requires r.collectionTime.None? && DigestText(r.identityDigest)
    ensures Canonical(RecordValue(r)) ==
            Keyed('{', "business_id") + Canonical(Text(r.businessId))
            + Keyed(',', "dimension_identity") + IdentityBytes(r.identityDigest, Canonical(r.fields.value))
            + Keyed(',', "dimensions") + Canonical(r.dimensions.value)
            + Keyed(',', "received_time") + Decimal(r.receivedTime)
            + Keyed(',', "record_id") + (Canonical(Text(r.recordId))
            + Keyed(',', "source_time") + Decimal(r.sourceTime)
            + Keyed(',', "values") + Canonical(r.values) + [RBRACE])
  {
    hide Canonical, Decimal, Prefix, Suffix, IdentityText, IdentityBytes, DigestText, IdentityValue, RecordValue, Keyed;
    RecordCanonical(r);
    IdentityCanonical(r.fields.value, r.identityDigest);
    IdentityIs(r.identityDigest, Canonical(r.fields.value));
    PrefixIs(Canonical(Text(r.businessId)), IdentityText(r.identityDigest, Canonical(r.fields.value)), Canonical(r.dimensions.value), Decimal(r.receivedTime));
    SuffixIs(Canonical(Text(r.recordId)), Decimal(r.sourceTime), Canonical(r.values));
  }

  function IdentityBytes(digest: Bytes, fields: Bytes): Bytes {
    Keyed('{', "digest") + ([QUOTE] + digest + [QUOTE]) + Keyed(',', "fields") + fields + [RBRACE]
  }

  lemma IdentityIs(digest: Bytes, fields: Bytes)
    ensures IdentityText(digest, fields) == IdentityBytes(digest, fields)
  {
    hide Label, Keyed;
    KeyedIs("digest");
    KeyedIs("fields");
    FourParts([LBRACE], Label(DIGEST), [QUOTE], digest, [COMMA], Label(FIELDS), fields, [RBRACE]);
  }

  lemma FourParts(a: Bytes, b: Bytes, c: Bytes, d: Bytes, e: Bytes, f: Bytes, g: Bytes, h: Bytes)
    ensures a + b + c + d + c + e + f + g + h == (a + b) + (c + d + c) + (e + f) + g + h
  {
  }

  lemma PrefixIs(business: Bytes, identity: Bytes, dimensions: Bytes, received: Bytes)
    ensures Prefix(business, identity, dimensions, received) ==
            Keyed('{', "business_id") + business + Keyed(',', "dimension_identity") + identity + Keyed(',', "dimensions") + dimensions
            + Keyed(',', "received_time") + received + Keyed(',', "record_id")
  {
    hide Label, Keyed;
    KeyedIs("business_id");
    KeyedIs("dimension_identity");
    KeyedIs("dimensions");
    KeyedIs("received_time");
    KeyedIs("record_id");
    FiveParts([LBRACE], [COMMA], Label(BUSINESS_ID), business, Label(DIMENSION_IDENTITY), identity, Label(DIMENSIONS), dimensions,
              Label(RECEIVED_TIME), received, Label(RECORD_ID));
  }

  lemma FiveParts(brace: Bytes, comma: Bytes, a: Bytes, b: Bytes, c: Bytes, d: Bytes, e: Bytes, f: Bytes, g: Bytes, h: Bytes, i: Bytes)
    ensures brace + a + b + comma + c + d + comma + e + f + comma + g + h + comma + i
            == (brace + a) + b + (comma + c) + d + (comma + e) + f + (comma + g) + h + (comma + i)
  {
    Regrouped(brace + a + b, comma, c, d);
    var one := brace + a + b + (comma + c) + d;
    Regrouped(one, comma, e, f);
    var two := one + (comma + e) + f;
    Regrouped(two, comma, g, h);
    var three := two + (comma + g) + h;
    Regrouped(three, comma, i, []);
  }

  lemma Regrouped(front: Bytes, comma: Bytes, name: Bytes, part: Bytes)
    ensures front + comma + name + part == front + (comma + name) + part
    ensures front + comma + name == front + (comma + name)
  {
  }

  lemma SuffixIs(id: Bytes, source: Bytes, values: Bytes)
    ensures Suffix(id, source, values) == id + Keyed(',', "source_time") + source + Keyed(',', "values") + values + [RBRACE]
  {
    hide Label, Keyed;
    KeyedIs("source_time");
    KeyedIs("values");
    Regrouped(id, [COMMA], Label(SOURCE_TIME), source);
    Regrouped(id + ([COMMA] + Label(SOURCE_TIME)) + source, [COMMA], Label(VALUES), values);
  }

  /** A record's members: seven, and the time it was collected where there is one. */
  lemma RecordMembersAre(r: Record, m: Member<Value>)
    ensures RecordValue(r).Object?
    ensures m in RecordValue(r).members <==>
              || m == Member(Ascii("record_id"), Text(r.recordId)) || m == Member(Ascii("source_time"), Number(Decimal(r.sourceTime)))
              || m == Member(Ascii("business_id"), Text(r.businessId)) || m == Member(Ascii("values"), r.values)
              || m == Member(Ascii("dimensions"), r.dimensions.value) || m == Member(Ascii("received_time"), Number(Decimal(r.receivedTime)))
              || m == Member(Ascii("dimension_identity"), IdentityValue(r.fields.value, r.identityDigest))
              || (r.collectionTime.Some? && m == Member(Ascii("collection_time"), Number(Decimal(r.collectionTime.value))))
  {
    hide Decimal, IdentityValue, Ascii;
  }

  /** What a record's id is taken over, byte by byte. */
  lemma RecordBytesAre(series: Bytes, sourceTime: int)
    requires DigestText(series) && 0 <= sourceTime <= MAX_INT64
    ensures |Decimal(sourceTime)| <= 19
    ensures RecordBytes(series, sourceTime) ==
            Some([0, 0, 0, 12] + Ascii("record-id-v2") + [0, 0, 0, 64] + series + [0, 0, 0, |Decimal(sourceTime)|] + Decimal(sourceTime))
  {
    hide Decimal, Frame, DigestText, BigEndian32, RecordBytes, Utf8.Valid;
    RecordBytesExactly(series, sourceTime);
    TimeFits(sourceTime);
    DigestLength(series);
    SmallLength(12);
    SmallLength(64);
    SmallLength(|Decimal(sourceTime)|);
    FrameTwo(RECORD_ID_VERSION, series);
    assert [RECORD_ID_VERSION] + [series] == [RECORD_ID_VERSION, series] && |RECORD_ID_VERSION| == 12;
    FourFields(BigEndian32(12), RECORD_ID_VERSION, BigEndian32(64), series, BigEndian32(|Decimal(sourceTime)|), Decimal(sourceTime));
  }

  lemma DigestLength(digest: Bytes)
    requires DigestText(digest)
    ensures |digest| == 64
  {
  }

  lemma FourFields(a: Bytes, b: Bytes, c: Bytes, d: Bytes, e: Bytes, f: Bytes)
    ensures a + b + c + d + (e + f) == a + b + c + d + e + f
    ensures (a + b) + (c + d) == a + b + c + d
    ensures a + (b + (c + d)) == a + b + c + d
  {
  }

  lemma SmallLength(n: nat)
    requires n < 0x100
    ensures BigEndian32(n) == [0, 0, 0, n]
  {
    assert n / 0x100 == 0;
    assert BigEndian(0, 1) == [0] && BigEndian(0, 2) == [0, 0] && BigEndian(0, 3) == [0, 0, 0];
  }

  // ---------- Deliveries ----------

  function SeriesIn(batches: seq<Batch>): nat {
    if batches == [] then 0 else SeriesIn(batches[..|batches| - 1]) + batches[|batches| - 1].delivery.series
  }

  function RecordsIn(batches: seq<Batch>): nat {
    if batches == [] then 0 else RecordsIn(batches[..|batches| - 1]) + batches[|batches| - 1].delivery.records
  }

  function BytesIn(batches: seq<Batch>): nat {
    if batches == [] then 0 else BytesIn(batches[..|batches| - 1]) + batches[|batches| - 1].delivery.bytes
  }

  /** A stream's proof counts all its series, records and bytes. */
  lemma {:induction false} FoldCounts(hash: Hash, batches: seq<Batch>)
    requires Fold(hash, batches).Some?
    ensures var proof := Fold(hash, batches).value;
            proof.series == SeriesIn(batches) && proof.records == RecordsIn(batches) && proof.bytes == BytesIn(batches)
  {
    if batches != [] {
      FoldCounts(hash, batches[..|batches| - 1]);
      FoldNames(hash, batches[..|batches| - 1]);
    }
  }

  /** Deliveries belong together when each is whole and all are of one query and revision. */
  predicate Together(batches: seq<Batch>) {
    forall i :: 0 <= i < |batches| ==>
      var d := batches[i].delivery;
      && d.query != [] && d.revision != [] && d.series != 0 && d.digest != []
      && d.query == batches[0].delivery.query && d.revision == batches[0].delivery.revision
  }

  /** A stream has a proof exactly when its deliveries belong together, and the proof is of their query and revision. */
  lemma {:induction false} FoldExactly(hash: Hash, batches: seq<Batch>)
    ensures Fold(hash, batches).Some? <==> Together(batches)
    ensures Fold(hash, batches).Some? && batches != [] ==>
              var proof := Fold(hash, batches).value;
              proof.query == batches[0].delivery.query && proof.revision == batches[0].delivery.revision
  {
    if batches != [] {
      var n := |batches| - 1;
      var front := batches[..n];
      FoldExactly(hash, front);
      if Fold(hash, front).Some? {
        FoldNames(hash, front);
      }
      assert forall i :: 0 <= i < n ==> front[i] == batches[i];
      if Together(batches) {
        assert batches[n].delivery.query == batches[0].delivery.query;
      }
      if Together(front) && Fold(hash, batches).Some? {
        assert n > 0 ==> Fold(hash, front).value.query == batches[0].delivery.query;
      }
    }
  }

  /** One delivery keeps its own digest, and every later one is chained to what came before under the version's name. */
  lemma ChainIs(hash: Hash, batches: seq<Batch>, next: Batch)
    requires Fold(hash, batches + [next]).Some?
    ensures Fold(hash, batches).Some?
    ensures var digest := Fold(hash, batches + [next]).value.digest;
            digest == if batches == [] then next.delivery.digest
                      else Hex(hash(Ascii("alarmd-series-delivery-v1") + [0] + Fold(hash, batches).value.digest + [0] + next.delivery.digest))
  {
    hide Hex;
    FoldSnoc(hash, batches, next);
    FoldNames(hash, batches);
  }
}
