/** Which number tokens are past the range of a 64-bit float, by the number they write. */
module FloatRange {
  import opened Bytes
  import opened JsonText
  import opened Grammar
  import opened Framing

  // ---------- Digits ----------

  lemma {:induction false} DigitsSkip(a: Bytes, x: Byte, b: Bytes)
    requires !Digit(x)
    ensures DigitsValue(a + [x] + b) == DigitsValue(a + b)
  {
    var with, without := a + [x] + b, a + b;
    if b == [] {
      assert with[..|with| - 1] == a && without == a;
    } else {
      assert with[..|with| - 1] == a + [x] + b[..|b| - 1] && without[..|without| - 1] == a + b[..|b| - 1];
      DigitsSkip(a, x, b[..|b| - 1]);
    }
  }

  lemma {:induction false} ExponentSkip(x: Byte, b: Bytes)
    requires !Digit(x)
    ensures ExponentValue([x] + b) == ExponentValue(b)
  {
    var with := [x] + b;
    if b == [] {
      assert with[..0] == [];
    } else {
      assert with[..|with| - 1] == [x] + b[..|b| - 1];
      ExponentSkip(x, b[..|b| - 1]);
    }
  }

  /** A number's decimal text is read as that number, so digits count from the most significant. */
  lemma {:induction false} NaturalReads(n: nat)
    ensures DigitsValue(Natural(n)) == n
    ensures n > 0 ==> Natural(n)[0] != 0x30
  {
    if n < 10 {
      assert [0x30 + n][..0] == [];
    } else {
      NaturalReads(n / 10);
      assert Natural(n)[..|Natural(n)| - 1] == Natural(n / 10);
    }
  }

  /** The exponent is read whole below a hundred thousand, and past that is still past ten thousand. */
  lemma {:induction false} ExponentReads(digits: Bytes)
    requires forall b <- digits :: Digit(b)
    ensures DigitsValue(digits) < 100000 ==> ExponentValue(digits) == DigitsValue(digits)
    ensures DigitsValue(digits) >= 100000 ==> 10000 <= ExponentValue(digits) < 100000
  {
    if digits != [] {
      var front := digits[..|digits| - 1];
      assert forall b <- front :: b in digits;
      assert digits[|digits| - 1] in digits;
      ExponentReads(front);
    }
  }

  lemma {:induction false} FirstOf(a: Bytes, b: Bytes, wanted: set<Byte>)
    requires (forall x <- a :: x !in wanted) && (b != [] ==> b[0] in wanted)
    ensures IndexOf(a + b, wanted) == |a|
  {
    if a == [] {
      assert a + b == b;
    } else {
      assert (a + b)[1..] == a[1..] + b && a[0] in a && forall x <- a[1..] :: x in a;
      FirstOf(a[1..], b, wanted);
    }
  }

  // ---------- The parts of a numeral ----------

  function FractionDigits(n: Numeral): Bytes {
    if n.fraction.Some? then n.fraction.value else []
  }

  /** The digits of a numeral as one whole number. */
  function Mantissa(n: Numeral): nat {
    DigitsValue(n.integer + FractionDigits(n))
  }

  /** How many tens the whole number is to be taken times, its fraction's places taken off. */
  function Scale(n: Numeral): int {
    (match n.exponent
     case None => 0
     case Some(e) => (if e.sign == Some(0x2D) then -1 else 1) * ExponentValue(e.digits))
    - |FractionDigits(n)|
  }

  /** Whether a number and its tens stay below a bound. */
  predicate Below(mantissa: nat, scale: int, bound: nat) {
    if scale >= 0 then mantissa * Power(10, scale) < bound else mantissa < bound * Power(10, -scale)
  }

  lemma MantissaText(n: Numeral)
    requires NumeralOk(n)
    ensures var text := IntegerText(n) + FractionText(n.fraction);
            && (forall b <- text :: b != 0x65 && b != 0x45)
            && IndexOf(text, {0x2E}) == |IntegerText(n)|
            && DigitsValue(text) == Mantissa(n)
  {
    hide DigitsValue, IndexOf;
    assert (forall b <- n.integer :: Digit(b)) && forall b <- FractionDigits(n) :: Digit(b);
    FirstOf(IntegerText(n), FractionText(n.fraction), {0x2E});
    SignSkipped(n, FractionText(n.fraction));
    PointSkipped(n);
  }

  lemma SignSkipped(n: Numeral, more: Bytes)
    ensures DigitsValue(IntegerText(n) + more) == DigitsValue(n.integer + more)
  {
    hide DigitsValue;
    var rest := n.integer + more;
    if n.negative {
      assert IntegerText(n) + more == [] + [0x2D] + rest;
      DigitsSkip([], 0x2D, rest);
      assert [] + rest == rest;
    } else {
      assert IntegerText(n) + more == rest;
    }
  }

  lemma PointSkipped(n: Numeral)
    ensures DigitsValue(n.integer + FractionText(n.fraction)) == Mantissa(n)
  {
    hide DigitsValue;
    var digits := FractionDigits(n);
    if n.fraction.Some? {
      assert n.integer + FractionText(n.fraction) == n.integer + [0x2E] + digits;
      DigitsSkip(n.integer, 0x2E, digits);
    } else {
      assert n.integer + FractionText(n.fraction) == n.integer == n.integer + digits;
    }
  }

  lemma ExponentPart(n: Numeral)
    requires NumeralOk(n) && n.exponent.Some?
    ensures var text, e := ExponentText(n.exponent), n.exponent.value;
            && text != [] && text[0] in {0x65, 0x45}
            && (|text| > 1 && text[1] == 0x2D <==> e.sign == Some(0x2D))
            && ExponentValue(text) == ExponentValue(e.digits)
  {
    var text, e := ExponentText(n.exponent), n.exponent.value;
    assert e.digits[0] in e.digits;
    if e.sign.Some? {
      assert text == [e.letter] + ([e.sign.value] + e.digits);
      ExponentSkip(e.letter, [e.sign.value] + e.digits);
      ExponentSkip(e.sign.value, e.digits);
    } else {
      assert text == [e.letter] + e.digits;
      ExponentSkip(e.letter, e.digits);
    }
  }

  /** A numeral's text cut where its exponent starts. */
  lemma TokenCut(n: Numeral)
    requires NumeralOk(n)
    ensures var token, mantissa := NumeralText(n), IntegerText(n) + FractionText(n.fraction);
            && IndexOf(token, {0x65, 0x45}) == |mantissa| <= |token|
            && token[..|mantissa|] == mantissa && token[|mantissa|..] == ExponentText(n.exponent)
  {
    hide DigitsValue, IndexOf, IntegerText, FractionText, ExponentText;
    var mantissa, exponent := IntegerText(n) + FractionText(n.fraction), ExponentText(n.exponent);
    assert NumeralText(n) == mantissa + exponent;
    MantissaText(n);
    if n.exponent.Some? {
      ExponentPart(n);
    } else {
      NoExponent();
    }
    FirstOf(mantissa, exponent, {0x65, 0x45});
  }

  /** The exponent as a token says it. */
  function Signed(token: Bytes, mark: nat): int
    requires mark <= |token|
  {
    (if mark + 1 < |token| && token[mark + 1] == 0x2D then -1 else 1) * ExponentValue(token[mark..])
  }

  lemma SignedExponent(n: Numeral, token: Bytes, mark: nat)
    requires NumeralOk(n) && mark <= |token| && token[mark..] == ExponentText(n.exponent)
    ensures Signed(token, mark) - |FractionDigits(n)| == Scale(n)
  {
    hide ExponentValue;
    var exponent := token[mark..];
    assert mark + 1 < |token| ==> token[mark + 1] == exponent[1];
    if n.exponent.Some? {
      ExponentPart(n);
    } else {
      NoExponent();
    }
  }

  /** A token is finite exactly when the number it writes, its sign aside, is below the bound. */
  lemma FiniteExactly(n: Numeral)
    requires NumeralOk(n)
    ensures Finite(NumeralText(n)) <==> Below(Mantissa(n), Scale(n), OVERFLOW)
  {
    hide DigitsValue, ExponentValue, Power, IndexOf, Mantissa, Scale, NumeralText, NumeralOk, IntegerText, ExponentText;
    var token, mantissa := NumeralText(n), IntegerText(n) + FractionText(n.fraction);
    TokenCut(n);
    MantissaText(n);
    SignedExponent(n, token, |mantissa|);
    var point := IndexOf(mantissa, {0x2E});
    assert (if point == |mantissa| then 0 else |mantissa| - point - 1) == |FractionDigits(n)|;
  }

  lemma NoExponent()
    ensures ExponentText(None) == [] && ExponentValue([]) == 0
  {
  }

  // ---------- The bound ----------

  lemma {:induction false} PowerAdds(a: nat, b: nat)
    ensures Power(2, a + b) == Power(2, a) * Power(2, b)
  {
    if a > 0 {
      PowerAdds(a - 1, b);
      assert Power(2, a + b) == 2 * Power(2, a - 1 + b);
    }
  }

  lemma SmallPowers()
    ensures Power(2, 10) == 1024 && Power(2, 54) == 0x40_0000_0000_0000
    ensures Power(2, 64) == 0x1_0000_0000_0000_0000 && Power(2, 74) == 1024 * Power(2, 64)
  {
    assert Power(2, 1) == 2 && Power(2, 2) == 4 && Power(2, 4) == 16;
    PowerAdds(4, 4);
    PowerAdds(8, 2);
    PowerAdds(8, 8);
    PowerAdds(16, 16);
    PowerAdds(32, 32);
    PowerAdds(64, 10);
    assert Power(2, 6) == 64;
    PowerAdds(16, 6);
    PowerAdds(32, 22);
  }

  /** A number in hexadecimal with this many zeros after it. */
  lemma {:induction false} Shifted(n: nat)
    ensures Power(2, 64 * n) == Power(Power(2, 64), n)
  {
    hide Power;
    if n == 0 {
      NoPower();
    } else {
      Shifted(n - 1);
      PowerAdds(64, 64 * (n - 1));
      OnePower(Power(2, 64), n);
    }
  }

  lemma NoPower()
    ensures Power(2, 0) == 1 && forall base: nat :: Power(base, 0) == 1
  {
  }

  lemma OnePower(base: nat, n: nat)
    requires n > 0
    ensures Power(base, n) == base * Power(base, n - 1)
  {
  }

  const WORD: nat := 0x1_0000_0000_0000_0000

  /** 2^960 is fifteen words of zeros after a one. */
  lemma FifteenWords()
    ensures Power(2, 960) == WORD * WORD * WORD * WORD * WORD * WORD * WORD * WORD * WORD * WORD * WORD * WORD * WORD * WORD * WORD
  {
    hide Power;
    SmallPowers();
    Shifted(15);
    NoPower();
    OnePower(WORD, 1);
    OnePower(WORD, 2);
    OnePower(WORD, 3);
    OnePower(WORD, 4);
    OnePower(WORD, 5);
    OnePower(WORD, 6);
    OnePower(WORD, 7);
    OnePower(WORD, 8);
    OnePower(WORD, 9);
    OnePower(WORD, 10);
    OnePower(WORD, 11);
    OnePower(WORD, 12);
    OnePower(WORD, 13);
    OnePower(WORD, 14);
    OnePower(WORD, 15);
  }

  /** The bound is 2^1024 less half of the last place of the largest float: what is nearer to it than to that float is past the range. */
  lemma OverflowIs()
    ensures OVERFLOW == Power(2, 1024) - Power(2, 970)
  {
    hide Power;
    SmallPowers();
    FifteenWords();
    PowerAdds(960, 10);
    PowerAdds(970, 54);
    assert Power(2, 1024) == Power(2, 970) * 0x40_0000_0000_0000;
    assert OVERFLOW == Power(2, 960) * 1024 * (0x40_0000_0000_0000 - 1);
  }
}
