/** Record ids, one at a time and continued from a hash that has absorbed their series. */
module RecordId {
  import opened Bytes
  import opened JsonText
  import opened Framing
  import opened RecordsDigest
  import Utf8

  const RECORD_ID_VERSION := Ascii("record-id-v2")

  /** What a record's id is taken over: nothing for a series that is not a digest or a time before zero. */
  function RecordBytes(series: Bytes, sourceTime: int): Option<Bytes> {
    if DigestText(series) && sourceTime >= 0 then Absorbed(RECORD_ID_VERSION, [series, Decimal(sourceTime)]) else None
  }

  lemma DigestFits(series: Bytes)
    requires DigestText(series)
    ensures Utf8.Valid(series) && Utf8.Valid(RECORD_ID_VERSION)
  {
    assert forall i :: 0 <= i < |series| ==> series[i] in series;
    AsciiValid(series);
    AsciiValid(RECORD_ID_VERSION);
  }

  lemma TimeFits(sourceTime: nat)
    requires sourceTime <= MAX_INT64
    ensures |Decimal(sourceTime)| <= 19 && Utf8.Valid(Decimal(sourceTime))
  {
    hide Natural;
    assert Power(10, 4) == 10000 && Power(10, 19) == 10000000000000000000 by {
      TenPower();
    }
    NaturalLength(sourceTime, 19);
    AsciiValid(Decimal(sourceTime));
  }

  lemma TenPower()
    ensures Power(10, 4) == 10000 && Power(10, 19) == 10000000000000000000
  {
    assert Power(10, 4) == 10 * Power(10, 3) == 100 * Power(10, 2) == 1000 * Power(10, 1) == 10000 * Power(10, 0);
    assert Power(10, 8) == 10 * Power(10, 7) == 100 * Power(10, 6) == 1000 * Power(10, 5) == 10000 * Power(10, 4);
    assert Power(10, 12) == 10 * Power(10, 11) == 100 * Power(10, 10) == 1000 * Power(10, 9) == 10000 * Power(10, 8);
    assert Power(10, 16) == 10 * Power(10, 15) == 100 * Power(10, 14) == 1000 * Power(10, 13) == 10000 * Power(10, 12);
    assert Power(10, 19) == 10 * Power(10, 18) == 100 * Power(10, 17) == 1000 * Power(10, 16);
  }

  /** Every series that is a digest has an id for every time, taken over three framed fields. */
  lemma RecordBytesExactly(series: Bytes, sourceTime: int)
    requires sourceTime <= MAX_INT64
    ensures RecordBytes(series, sourceTime) ==
            if DigestText(series) && sourceTime >= 0 then Some(Frame([RECORD_ID_VERSION, series]) + FrameOne(Decimal(sourceTime))) else None
  {
    hide Decimal, Frame, FrameOne, Utf8.Valid;
    if DigestText(series) && sourceTime >= 0 {
      DigestFits(series);
      TimeFits(sourceTime);
      assert [RECORD_ID_VERSION] + [series, Decimal(sourceTime)] == [RECORD_ID_VERSION, series] + [Decimal(sourceTime)];
      FrameConcat([RECORD_ID_VERSION, series], [Decimal(sourceTime)]);
      FrameSingle(Decimal(sourceTime));
    }
  }

  lemma FrameSingle(field: Bytes)
    ensures Frame([field]) == FrameOne(field)
  {
    hide FrameOne;
    assert [field][1..] == [] && FrameOne(field) + [] == FrameOne(field);
  }

  /** No two records of any two series have their ids taken over the same bytes. */
  lemma RecordBytesInjective(a: Bytes, s: int, b: Bytes, t: int)
    requires RecordBytes(a, s).Some? && RecordBytes(a, s) == RecordBytes(b, t)
    ensures a == b && s == t
  {
    hide Decimal, Frame, Utf8.Valid, DigestText;
    var left, right := [RECORD_ID_VERSION] + [a, Decimal(s)], [RECORD_ID_VERSION] + [b, Decimal(t)];
    FrameInjective(left, right);
    assert left[1] == a && right[1] == b && left[2] == Decimal(s) && right[2] == Decimal(t);
    DecimalInjective(s, t);
  }

  /** The ids of one series: a hash that goes back to having absorbed the series before each point. */
  class RecordIDDeriverV2 {
    const series: Bytes
    const prefix: Bytes
    const digest: RunningHash
    const length: array<Byte>

    ghost predicate Valid() {
      DigestText(series) && prefix == Frame([RECORD_ID_VERSION, series]) && length.Length == 24
    }

    constructor (series: Bytes)
      requires DigestText(series)
      ensures Valid() && this.series == series && fresh(digest) && fresh(length)
    {
      hide BigEndian32;
      var hash := new RunningHash();
      hash.Write(BigEndian32(|RECORD_ID_VERSION|));
      hash.Write(RECORD_ID_VERSION);
      hash.Write(BigEndian32(|series|));
      hash.Write(series);
      FrameTwo(RECORD_ID_VERSION, series);
      assert [RECORD_ID_VERSION] + [series] == [RECORD_ID_VERSION, series];
      assert [] + BigEndian32(|RECORD_ID_VERSION|) == BigEndian32(|RECORD_ID_VERSION|);
      this.series := series;
      prefix := hash.absorbed;
      digest := hash;
      length := new Byte[24];
    }

    /** The id of the series' point at a time: what deriving it from nothing gives, whatever was derived before. */
    method Derive(sourceTime: int, sum: Bytes -> Bytes) returns (id: Option<Bytes>)
      requires Valid() && sourceTime <= MAX_INT64
      modifies digest, length
      ensures id == Digest(sum, RecordBytes(series, sourceTime))
    {
      hide Decimal, Frame, BigEndian32, DigestText, Utf8.Valid, RecordBytes;
      RecordBytesExactly(series, sourceTime);
      if sourceTime < 0 {
        return None;
      }
      digest.Restore(prefix);
      var text := Decimal(sourceTime);
      TimeFits(sourceTime);
      forall i | 0 <= i < |text| {
        length[4 + i] := text[i];
      }
      var size := BigEndian32(|text|);
      forall i | 0 <= i < 4 {
        length[i] := size[i];
      }
      assert length[..4 + |text|] == size + text;
      digest.Write(length[..4 + |text|]);
      id := Some(sum(digest.absorbed));
    }
  }
}
