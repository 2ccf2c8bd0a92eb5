// Doubles in JSON texts: which numbers have no double and are refused.

module JsonNumbers {
  import opened Arith
  import opened JsonSpec
  import PowerEstimate
  import PowerSteps

  /** The bound is half a unit of its last place above the largest double, or as much below
      the next power of two, where rounding to even goes up. */
  lemma DoubleEnd()
    ensures DOUBLE_END == 0x1F_FFFF_FFFF_FFFF * (2 * TWO970) + TWO970
    ensures TWO970 == Pow(2, 970) && DOUBLE_END + TWO970 == Pow(2, 1024)
  {
    hide Pow;
    PowerSteps.Pow2_16();
    TenBits();
    PowAdd(2, 64, 64);
    PowAdd(2, 128, 128);
    PowAdd(2, 256, 256);
    PowAdd(2, 128, 64);
    PowAdd(2, 192, 10);
    PowAdd(2, 256, 202);
    PowAdd(2, 512, 458);
    PowerEstimate.HiddenPower();
    PowerSteps.Pow2_4();
    PowAdd(2, 52, 2);
    TwoBits();
    PowAdd(2, 970, 54);
  }

  lemma TwoBits()
    ensures Pow(2, 2) == 4
  {
  }

  lemma TenBits()
    ensures Pow(2, 10) == 0x400
  {
  }

  /** A number is what it denotes, however many of its zeros are written. */
  lemma SameNumber(m: nat, k: int)
    ensures TooBig(10 * m, k - 1) <==> TooBig(m, k)
  {
    hide Pow;
    PowerEstimate.PowOne(10);
    PowerEstimate.PowNone(10);
    if k > 0 {
      PowAdd(10, 1, k - 1);
      MulAssoc(m, 10, Pow(10, k - 1));
    } else {
      PowAdd(10, -k, 1);
      MulAssoc(DOUBLE_END, Pow(10, -k), 10);
    }
  }

  /** 10^309 is the first power of ten without a double. */
  lemma TenPowers(k: nat)
    ensures TooBig(1, k) <==> k >= 309
  {
    hide Pow;
    DoubleEnd();
    PowerEstimate.LogBounds();
    PowerEstimate.PowerRatio(2, 10, 485, 146, 1024, 309);
    PowerEstimate.PowerRatio(10, 2, 205, 681, 307, 1020);
    PowAdd(10, 307, 1);
    PowerEstimate.PowOne(10);
    PowAdd(2, 1020, 4);
    PowerSteps.Pow2_4();
    if k >= 309 {
      PowMono(10, 309, k);
    } else {
      PowMono(10, k, 308);
    }
  }

  /** So of the texts 1e300 to 1e309 the last is refused, and the others are numbers. */
  lemma HugeNumber(t: string)
    requires |t| == 6 && t[..4] == "1e30" && IsDigit(t[4]) && t[5] == '\0'
    ensures ParseValue(t, 0) == if t[4] == '9' then Err(NUMBER_TOO_BIG, 0) else Ok(Number(t[..5]), 5)
  {
    hide TooBig, IntegralEnd, FractionEnd, ExponentEnd, NatOf, IntOf, Pow, ParseLiteral;
    HugeEnds(t);
    var tens := 300 + (t[4] as int - '0' as int);
    HugeExponent(t[4]);
    IntOfDigits(t[2..5]);
    assert t[0..1] + [] == ['1'] && t[2..5] == ['3', '0', t[4]] && t[0..5] == t[..5];
    TenPowers(tens);
  }

  lemma HugeEnds(t: string)
    requires |t| == 6 && t[..4] == "1e30" && IsDigit(t[4]) && t[5] == '\0'
    ensures Ended(t) && t[0] == '1' && t[2] == '3' && t[3] == '0'
    ensures IntegralEnd(t, 0) == Ok(true, 1) && FractionEnd(t, 1) == Ok(true, 1) && ExponentEnd(t, 1) == Ok(false, 5)
  {
    assert t[0] == t[..4][0] && t[1] == t[..4][1] && t[2] == t[..4][2] && t[3] == t[..4][3];
    assert DigitsEnd(t, 1) == 1 && DigitsEnd(t, 4) == 5 && DigitsEnd(t, 3) == 5;
  }

  lemma HugeExponent(c: char)
    ensures NatOf(['1']) == 1 && NatOf(['3', '0', c]) == 300 + (c as int - '0' as int)
  {
    hide NatOf;
    OneMore([], '1');
    OneMore([], '3');
    OneMore(['3'], '0');
    OneMore(['3', '0'], c);
    assert [] + ['3'] == ['3'] && ['3'] + ['0'] == ['3', '0'] && ['3', '0'] + [c] == ['3', '0', c];
    assert [] + ['1'] == ['1'];
  }

  lemma IntOfDigits(s: string)
    ensures s == [] || s[0] != '-' ==> IntOf(s) == NatOf(s)
  {
  }

  lemma OneMore(s: string, c: char)
    ensures NatOf(s + [c]) == 10 * NatOf(s) + (c as int - '0' as int) && NatOf([]) == 0
  {
    assert (s + [c])[..|s|] == s;
  }
}
