/** The length-prefixed framing digests are taken over, and decimal integers. */
module Framing {
  import opened Bytes
  import opened JsonText
  import Utf8

  const UINT32: nat := 0x1_0000_0000
  const MAX_INT64: int := 0x7FFF_FFFF_FFFF_FFFF

  /** The low `size` bytes of a number, most significant first: a longer number loses its high bytes. */
  function BigEndian(n: nat, size: nat): (b: Bytes)
    ensures |b| == size
  {
    if size == 0 then [] else BigEndian(n / 0x100, size - 1) + [n % 0x100]
  }

  lemma {:induction false} BigEndianInjective(m: nat, n: nat, size: nat)
    requires m < Power(0x100, size) && n < Power(0x100, size) && BigEndian(m, size) == BigEndian(n, size)
    ensures m == n
  {
    if size > 0 {
      var a, b := BigEndian(m, size), BigEndian(n, size);
      assert a[size - 1] == b[size - 1];
      assert a[..size - 1] == BigEndian(m / 0x100, size - 1) && b[..size - 1] == BigEndian(n / 0x100, size - 1);
      BigEndianInjective(m / 0x100, n / 0x100, size - 1);
    }
  }

  /** The 32-bit length every framed field starts with. */
  function BigEndian32(n: nat): (b: Bytes)
    ensures |b| == 4
  {
    BigEndian(n, 4)
  }

  lemma BigEndian32Injective(m: nat, n: nat)
    requires m < UINT32 && n < UINT32 && BigEndian32(m) == BigEndian32(n)
    ensures m == n
  {
    assert Power(0x100, 4) == 0x100 * Power(0x100, 3) == 0x10000 * Power(0x100, 2) == UINT32;
    BigEndianInjective(m, n, 4);
  }

  function FrameOne(field: Bytes): Bytes {
    BigEndian32(|field|) + field
  }

  /** Every field after its length. */
  function Frame(fields: seq<Bytes>): Bytes {
    if fields == [] then [] else FrameOne(fields[0]) + Frame(fields[1..])
  }

  lemma {:induction false} FrameConcat(a: seq<Bytes>, b: seq<Bytes>)
    ensures Frame(a + b) == Frame(a) + Frame(b)
  {
    hide FrameOne;
    if a == [] {
      assert a + b == b;
    } else {
      assert (a + b)[1..] == a[1..] + b;
      FrameConcat(a[1..], b);
    }
  }

  /** No two lists of fields, each within the 32-bit length, are framed alike. */
  lemma {:induction false} FrameInjective(a: seq<Bytes>, b: seq<Bytes>)
    requires forall f <- a :: |f| < UINT32
    requires forall f <- b :: |f| < UINT32
    requires Frame(a) == Frame(b)
    ensures a == b
  {
    hide BigEndian32;
    if a != [] && b != [] {
      assert |a[0]| < UINT32 && |b[0]| < UINT32;
      FrameSplit(a[0], Frame(a[1..]));
      FrameSplit(b[0], Frame(b[1..]));
      BigEndian32Injective(|a[0]|, |b[0]|);
      FrameInjective(a[1..], b[1..]);
      assert a == [a[0]] + a[1..] && b == [b[0]] + b[1..];
    }
  }

  lemma FrameSplit(field: Bytes, rest: Bytes)
    ensures var s := FrameOne(field) + rest;
            s[..4] == BigEndian32(|field|) && s[4..][..|field|] == field && s[4..][|field|..] == rest
  {
    hide BigEndian32;
    var s := FrameOne(field) + rest;
    assert s == BigEndian32(|field|) + (field + rest);
    assert s[4..] == field + rest;
  }

  /** The bytes a digest of a version and its values is taken over, unless a field cannot be framed. */
  function Absorbed(version: Bytes, values: seq<Bytes>): Option<Bytes> {
    if forall f <- [version] + values :: Utf8.Valid(f) && |f| < UINT32 then Some(Frame([version] + values)) else None
  }

  /** A hash being fed: its state is what it has absorbed, and its sum is some function of that. */
  class RunningHash {
    var absorbed: Bytes

    constructor ()
      ensures absorbed == []
    {
      absorbed := [];
    }

    method Write(more: Bytes)
      modifies this
      ensures absorbed == old(absorbed) + more
    {
      absorbed := absorbed + more;
    }

    /** Goes back to a state saved before. */
    method Restore(saved: Bytes)
      modifies this
      ensures absorbed == saved
    {
      absorbed := saved;
    }
  }

  // ---------- Decimal text ----------

  function Natural(n: nat): (text: Bytes)
    ensures text != [] && forall i :: 0 <= i < |text| ==> Digit(text[i])
  {
    if n < 10 then [0x30 + n] else Natural(n / 10) + [0x30 + n % 10]
  }

  function Decimal(n: int): Bytes {
    if n < 0 then [0x2D] + Natural(-n) else Natural(n)
  }

  lemma {:induction false} NaturalInjective(m: nat, n: nat)
    requires Natural(m) == Natural(n)
    ensures m == n
    decreases m
  {
    var a, b := Natural(m), Natural(n);
    assert a[|a| - 1] == b[|b| - 1];
    if m >= 10 && n >= 10 {
      assert a[..|a| - 1] == Natural(m / 10) && b[..|b| - 1] == Natural(n / 10);
      NaturalInjective(m / 10, n / 10);
    }
  }

  lemma DecimalInjective(m: int, n: int)
    requires Decimal(m) == Decimal(n)
    ensures m == n
  {
    DecimalSign(m);
    DecimalSign(n);
    if m < 0 {
      assert Natural(-m) == Decimal(m)[1..] == Decimal(n)[1..] == Natural(-n);
      NaturalInjective(-m, -n);
    } else {
      NaturalInjective(m, n);
    }
  }

  lemma DecimalSign(n: int)
    ensures Decimal(n) != [] && (n < 0 <==> Decimal(n)[0] == 0x2D)
  {
    hide Natural;
  }

  lemma {:induction false} NaturalLength(n: nat, digits: nat)
    requires digits > 0 && n < Power(10, digits)
    ensures |Natural(n)| <= digits
    decreases digits
  {
    if n >= 10 {
      assert digits > 1 by {
        assert Power(10, 1) == 10 * Power(10, 0);
      }
      NaturalLength(n / 10, digits - 1);
    }
  }
}
