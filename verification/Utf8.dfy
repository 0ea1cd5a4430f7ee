/** UTF-8 as the program reads and writes it, one scalar value at a time. */
module Utf8 {
  import opened Bytes

  predicate Continuation(b: Byte) {
    0x80 <= b <= 0xBF
  }

  predicate Surrogate(r: nat) {
    0xD800 <= r <= 0xDFFF
  }

  predicate Scalar(r: nat) {
    r <= 0x10FFFF && !Surrogate(r)
  }

  /** Length of the well-formed scalar encoding at the front of s, 0 when there is none. */
  function RuneLength(s: Bytes): (n: nat)
    ensures n <= |s| && n <= 4
    ensures n > 0 && s[0] >= 0x80 ==> n >= 2
  {
    if s == [] then 0
    else if s[0] < 0x80 then 1
    else if 0xC2 <= s[0] <= 0xDF then
      if |s| >= 2 && Continuation(s[1]) then 2 else 0
    else if 0xE0 <= s[0] <= 0xEF then
      if |s| >= 3 && SecondOfThree(s[0], s[1]) && Continuation(s[2]) then 3 else 0
    else if 0xF0 <= s[0] <= 0xF4 then
      if |s| >= 4 && SecondOfFour(s[0], s[1]) && Continuation(s[2]) && Continuation(s[3]) then 4 else 0
    else 0
  }

  predicate SecondOfThree(first: Byte, second: Byte) {
    (if first == 0xE0 then 0xA0 else 0x80) <= second <= (if first == 0xED then 0x9F else 0xBF)
  }

  predicate SecondOfFour(first: Byte, second: Byte) {
    (if first == 0xF0 then 0x90 else 0x80) <= second <= (if first == 0xF4 then 0x8F else 0xBF)
  }

  /** The encoding AppendRune appends for a scalar value. */
  function Encode(r: nat): (e: Bytes)
    requires Scalar(r)
    ensures 1 <= |e| <= 4
    ensures RuneLength(e) == |e|
    ensures r >= 0x80 ==> forall b <- e :: b >= 0x80
  {
    if r < 0x80 then [r]
    else if r < 0x800 then [0xC0 + r / 64, 0x80 + r % 64]
    else if r < 0x10000 then [0xE0 + r / 4096, 0x80 + r / 64 % 64, 0x80 + r % 64]
    else [0xF0 + r / 262144, 0x80 + r / 4096 % 64, 0x80 + r / 64 % 64, 0x80 + r % 64]
  }

  predicate Valid(s: Bytes)
    decreases |s|
  {
    s == [] || (RuneLength(s) > 0 && Valid(s[RuneLength(s)..]))
  }

  /** A well-formed front is read the same whatever follows it. */
  lemma RuneLengthLocal(s: Bytes, t: Bytes)
    requires RuneLength(s) > 0
    ensures RuneLength(s + t) == RuneLength(s)
    ensures RuneLength(s[..RuneLength(s)]) == RuneLength(s)
    ensures (s + t)[RuneLength(s)..] == s[RuneLength(s)..] + t
  {
  }

  lemma {:induction false} ValidConcat(a: Bytes, b: Bytes)
    requires Valid(a) && Valid(b)
    ensures Valid(a + b)
    decreases |a|
  {
    if a == [] {
      assert a + b == b;
    } else {
      RuneLengthLocal(a, b);
      ValidConcat(a[RuneLength(a)..], b);
    }
  }

  lemma ValidEncode(r: nat)
    requires Scalar(r)
    ensures Valid(Encode(r))
  {
    assert Encode(r)[|Encode(r)|..] == [];
  }

  lemma RuneTail(s: Bytes, i: nat)
    requires 0 < i < RuneLength(s)
    ensures s[i] >= 0x80
  {
  }

  /** Valid text splits into valid texts before any ASCII byte. */
  lemma {:induction false} ValidSplit(a: Bytes, b: Bytes)
    requires Valid(a + b)
    requires b == [] || b[0] < 0x80
    ensures Valid(a) && Valid(b)
    decreases |a|
  {
    if a == [] {
      assert a + b == b;
    } else {
      var n := RuneLength(a + b);
      if n > |a| {
        RuneTail(a + b, |a|);
      }
      assert RuneLength(a) == n;
      assert (a + b)[n..] == a[n..] + b;
      ValidSplit(a[n..], b);
    }
  }
}
