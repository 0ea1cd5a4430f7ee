/** Byte strings and the bytewise order that object keys, tenants and strategy ids are sorted in. */
module Bytes {

  type Byte = x: int | 0 <= x < 256

  type Bytes = seq<Byte>

  datatype Option<+T> = None | Some(value: T)

  /** The bytes of an ASCII literal. */
  function Ascii(text: string): (b: Bytes)
    requires forall i :: 0 <= i < |text| ==> text[i] < 128 as char
    ensures |b| == |text|
    ensures forall i :: 0 <= i < |text| ==> b[i] == text[i] as int
  {
    seq(|text|, i requires 0 <= i < |text| => text[i] as Byte)
  }

  /** Strict lexicographic order on bytes, a proper prefix first. */
  predicate Less(a: Bytes, b: Bytes) {
    if b == [] then false
    else if a == [] then true
    else if a[0] != b[0] then a[0] < b[0]
    else Less(a[1..], b[1..])
  }

  lemma {:induction false} LessTransitive(a: Bytes, b: Bytes, c: Bytes)
    requires Less(a, b) && Less(b, c)
    ensures Less(a, c)
  {
    if a != [] && a[0] == b[0] == c[0] {
      LessTransitive(a[1..], b[1..], c[1..]);
    }
  }

  lemma {:induction false} LessTotal(a: Bytes, b: Bytes)
    ensures a == b || Less(a, b) || Less(b, a)
    ensures !(Less(a, b) && Less(b, a))
    ensures !Less(a, a)
  {
    if a != [] {
      LessTotal(a[1..], a[1..]);
    }
    if a != [] && b != [] && a[0] == b[0] {
      LessTotal(a[1..], b[1..]);
      if a[1..] == b[1..] {
        assert a == [a[0]] + a[1..] == b;
      }
    }
  }

  /** The first byte at which two strings differ decides their order. */
  lemma {:induction false} LessAtDifference(a: Bytes, b: Bytes, k: nat)
    requires k < |a| && k < |b| && a[..k] == b[..k] && a[k] < b[k]
    ensures Less(a, b)
  {
    if k > 0 {
      assert a[0] == a[..k][0] == b[..k][0] == b[0];
      assert a[1..][..k - 1] == a[..k][1..] == b[..k][1..] == b[1..][..k - 1];
      LessAtDifference(a[1..], b[1..], k - 1);
    }
  }
}
