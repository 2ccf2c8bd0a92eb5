// The floating-point estimate of a decimal exponent: whatever its rounding, as long as it
// stays within the guard the source takes off, it is the exact one of the power of two
// below the double.

module PowerEstimate {
  import opened Arith
  import PowerSteps
  import opened Rounding

  const HIDDEN_BIT: nat := 0x10_0000_0000_0000
  const SIGNIFICAND_SIZE: nat := 53
  const ONE_LOG10: real := 0.30102999566398114
  const GUARD: real := 0.0000000001

  // The numerator of that constant over 10^17, and what the guard is there.
  const LOG_DIGITS: nat := 30102999566398114
  const LOG_SCALE: nat := 100_000_000_000_000_000

  function Ceil(z: real): (k: int)
    ensures k as real - 1.0 < z <= k as real
  {
    -((-z).Floor)
  }

  /** The exponent of a significand that is moved up to the place of the hidden bit. */
  function NormalExponent(f: nat, e: int): int
    requires 0 < f < 2 * HIDDEN_BIT
    decreases 2 * HIDDEN_BIT - f
  {
    if f >= HIDDEN_BIT then e else NormalExponent(2 * f, e - 1)
  }

  /** The estimate for a normal exponent; rounding is what the arithmetic adds to it. */
  function Estimate(exponent: int, rounding: real): int {
    Ceil((exponent + SIGNIFICAND_SIZE - 1) as real * ONE_LOG10 - GUARD + rounding)
  }

  /** 10^(k - 1) < 2^x <= 10^k */
  predicate CeilLog(x: int, k: int) {
    Lower(x, k) < 10 * Upper(x, k) && Upper(x, k) <= Lower(x, k)
  }

  // Two fractions next to each other on both sides of the logarithm: 205/681 and 146/485.

  lemma FivePowers()
    ensures Pow(5, 205) < Pow(2, 476) && Pow(2, 339) < Pow(5, 146)
  {
    hide Pow;
    SmallPowers();
    SmallPowersOfTwo();
    PowerSteps.Pow2_16();
    PowAdd(5, 8, 8);
    PowAdd(5, 16, 16);
    PowAdd(5, 32, 32);
    PowAdd(5, 64, 64);
    var five := 390625 * 390625;
    var five64 := (five * five) * (five * five);
    assert Pow(5, 64) == five64 && Pow(5, 128) == five64 * five64;
    PowAdd(5, 64, 13);
    PowAdd(5, 128, 77);
    PowAdd(5, 16, 2);
    PowAdd(5, 128, 18);
    PowAdd(2, 64, 64);
    PowAdd(2, 128, 128);
    PowAdd(2, 64, 28);
    PowAdd(2, 128, 92);
    PowAdd(2, 256, 220);
    PowAdd(2, 64, 19);
    PowAdd(2, 256, 83);
  }

  lemma SmallPowers()
    ensures Pow(5, 2) == 25 && Pow(5, 8) == 390625 && Pow(5, 13) == 1220703125
  {
  }

  lemma SmallPowersOfTwo()
    ensures Pow(2, 19) == 0x8_0000 && Pow(2, 28) == 0x1000_0000
  {
    hide Pow;
    PowerSteps.Pow2_4();
    PowerSteps.Pow2_16();
    EightIsPower();
    PowAdd(2, 16, 3);
    PowAdd(2, 4, 4);
    PowAdd(2, 8, 4);
    PowAdd(2, 16, 12);
  }

  lemma EightIsPower()
    ensures Pow(2, 3) == 8
  {
  }

  lemma LogBounds()
    ensures Pow(10, 205) < Pow(2, 681) && Pow(2, 485) < Pow(10, 146)
  {
    hide Pow;
    FivePowers();
    PowBase(2, 5, 205);
    PowBase(2, 5, 146);
    PowAdd(2, 205, 476);
    PowAdd(2, 146, 339);
    MulStrict(Pow(5, 205), Pow(2, 476), Pow(2, 205));
    MulStrict(Pow(2, 339), Pow(5, 146), Pow(2, 146));
  }

  /** A comparison of two powers gives one for every quotient of exponents on its side. */
  lemma PowerRatio(a: nat, b: nat, p: nat, q: nat, m: nat, x: nat)
    requires a > 1 && b > 1 && Pow(a, p) < Pow(b, q) && q * m <= p * x && q > 0
    ensures Pow(a, m) <= Pow(b, x) && (x > 0 ==> Pow(a, m) < Pow(b, x))
  {
    hide Pow;
    if x == 0 {
      assert q * m <= 0;
      NoFactor(q, m);
      PowNone(a);
      PowNone(b);
    } else {
      PowMul(a, m, q);
      PowMul(a, p, x);
      PowMul(b, q, x);
      PowMul(b, x, q);
      assert m * q <= p * x && x * q == q * x;
      PowMono(a, m * q, p * x);
      PowerSteps.PowStrictBase(Pow(a, p), Pow(b, q), x);
      if Pow(b, x) <= Pow(a, m) {
        PowOrder(Pow(b, x), Pow(a, m), q);
      }
    }
  }

  lemma NoFactor(q: nat, m: nat)
    requires q > 0 && q * m <= 0
    ensures m == 0
  {
    if m > 0 {
      MulPos(q, m);
    }
  }

  lemma PowNone(a: nat)
    ensures Pow(a, 0) == 1
  {
  }

  lemma PowOrder(a: nat, b: nat, e: nat)
    requires a <= b && e > 0
    ensures Pow(a, e) <= Pow(b, e)
  {
    hide Pow;
    if a < b {
      PowerSteps.PowStrictBase(a, b, e);
    }
  }

  /** No fraction with a denominator below 681 + 485 lies between the two. */
  lemma NoneBetween(m: int, x: int)
    requires 0 < x < 1166 && 485 * m < 146 * x
    ensures 681 * m <= 205 * x
  {
    assert 485 * (681 * m) < 485 * (205 * x + 1);
  }

  /** The estimate in integers: k - 1 < x * log and k > x * log - 2 * guard. */
  predicate Near(x: int, k: int) {
    (k - 1) * LOG_SCALE < x * LOG_DIGITS < k * LOG_SCALE + 20_000_000
  }

  lemma EstimateNear(exponent: int, rounding: real)
    requires -GUARD < rounding < GUARD
    ensures Near(exponent + SIGNIFICAND_SIZE - 1, Estimate(exponent, rounding))
  {
    var x, k := exponent + SIGNIFICAND_SIZE - 1, Estimate(exponent, rounding);
    var z := x as real * ONE_LOG10;
    assert (k - 1) as real < z < k as real + 2.0 * GUARD;
    assert z * LOG_SCALE as real == (x * LOG_DIGITS) as real;
    assert ((k - 1) * LOG_SCALE) as real < (x * LOG_DIGITS) as real;
    assert (x * LOG_DIGITS) as real < (k * LOG_SCALE + 20_000_000) as real;
  }

  lemma NearFractions(x: int, k: int)
    requires -1166 < x < 1166 && Near(x, k)
    ensures if x >= 0 then 0 <= k && 146 * x <= 485 * k && (k > 0 ==> 681 * (k - 1) <= 205 * x)
            else k <= 0 && 681 * -k <= 205 * -x && 146 * -x <= 485 * (1 - k)
    ensures (x == 0 ==> k == 0) && (-1074 <= x <= 1023 ==> -324 <= k <= 309)
  {
    if x > 0 {
      NoneBetween(k - 1, x);
    } else if x < 0 {
      NoneBetween(-k, -x);
    }
  }

  lemma NearIsCeil(x: int, k: int)
    requires -1166 < x < 1166 && Near(x, k)
    ensures CeilLog(x, k)
  {
    hide Pow, Near;
    NearFractions(x, k);
    LogBounds();
    PowNone(2);
    PowNone(10);
    if x < 0 {
      PowerRatio(10, 2, 205, 681, -k, -x);
      PowerRatio(2, 10, 485, 146, -x, 1 - k);
      PowAdd(10, -k, 1);
      PowOne(10);
    } else {
      PowerRatio(2, 10, 485, 146, x, k);
      if k > 0 {
        PowerRatio(10, 2, 205, 681, k - 1, x);
        PowAdd(10, k - 1, 1);
        PowOne(10);
      }
    }
  }

  lemma PowOne(b: nat)
    ensures Pow(b, 1) == b
  {
    assert Pow(b, 1) == b * Pow(b, 0);
  }

  // There is one such power only.

  lemma NextPower(x: int, k: int)
    ensures Lower(x, k + 1) * Upper(x, k) == 10 * (Lower(x, k) * Upper(x, k + 1))
  {
    hide Pow;
    PowOne(10);
    PowNone(10);
    var p, q := Pow(2, Positive(x)), Pow(2, Positive(-x));
    if k >= 0 {
      PowAdd(10, k, 1);
      TenTimes(q, Pow(10, k), p * Pow(10, 0));
    } else {
      PowAdd(10, -k - 1, 1);
      TenTimes(p, Pow(10, -k - 1), q * Pow(10, 0));
    }
  }

  lemma TenTimes(q: int, ten: int, u: int)
    ensures (q * (ten * 10)) * u == 10 * ((q * ten) * u)
    ensures u * (q * (ten * 10)) == 10 * (u * (q * ten))
  {
    assert q * (ten * 10) == 10 * (q * ten);
    MulAssoc(10, q * ten, u);
  }

  lemma {:induction false} StaysBelow(x: int, k: int, j: int)
    requires k <= j && Upper(x, k) <= Lower(x, k)
    ensures Upper(x, j) <= Lower(x, j) && 10 * Upper(x, j + 1) <= Lower(x, j + 1)
    decreases j - k
  {
    hide Upper, Lower;
    if k < j {
      StaysBelow(x, k, j - 1);
    }
    NextPower(x, j);
    var u, l, u', l' := Upper(x, j), Lower(x, j), Upper(x, j + 1), Lower(x, j + 1);
    MulMono(u, l, u');
    assert (10 * u') * u == 10 * (u' * u);
    MulCancelLeq(10 * u', l', u);
  }

  lemma OneCeil(x: int, j: int, k: int)
    requires CeilLog(x, j) && CeilLog(x, k)
    ensures j == k
  {
    hide Upper, Lower;
    if j < k {
      StaysBelow(x, j, k - 1);
    } else if k < j {
      StaysBelow(x, k, j - 1);
    }
  }

  /** The estimate is exact, whatever the rounding: it is the one k with
      10^(k - 1) < 2^x <= 10^k, where 2^x is the power of two at or below the double. */
  lemma EstimateExact(exponent: int, rounding: real, k: int)
    requires -1126 <= exponent <= 971 && -GUARD < rounding < GUARD
    ensures k == Estimate(exponent, rounding) <==> CeilLog(exponent + SIGNIFICAND_SIZE - 1, k)
  {
    hide CeilLog, Near;
    var x, j := exponent + SIGNIFICAND_SIZE - 1, Estimate(exponent, rounding);
    EstimateNear(exponent, rounding);
    NearIsCeil(x, j);
    if CeilLog(x, k) {
      OneCeil(x, j, k);
    }
  }

  // From the power of two to the double.

  /** The bits below the highest bit of a significand. */
  lemma {:induction false} NormalBits(f: nat, e: int) returns (n: nat)
    requires 0 < f < 2 * HIDDEN_BIT
    ensures Pow(2, n) <= f < 2 * Pow(2, n) && n < SIGNIFICAND_SIZE
    ensures NormalExponent(f, e) + SIGNIFICAND_SIZE - 1 == e + n
    decreases 2 * HIDDEN_BIT - f
  {
    if f >= HIDDEN_BIT {
      n := 52;
      HiddenPower();
    } else {
      var m := NormalBits(2 * f, e - 1);
      PowNone(2);
      n := m - 1;
      assert Pow(2, m) == 2 * Pow(2, n);
    }
  }

  lemma HiddenPower()
    ensures Pow(2, 52) == HIDDEN_BIT
  {
    hide Pow;
    PowerSteps.Pow2_4();
    PowerSteps.Pow2_16();
    PowAdd(2, 16, 32);
    PowAdd(2, 48, 4);
  }

  /** Moving n factors of two from the exponent to the significand. */
  lemma MoveBits(e: int, n: nat, k: int)
    ensures Upper(e + n, k) * Lower(e, k) == (Pow(2, n) * Upper(e, k)) * Lower(e + n, k)
  {
    hide Pow, Positive;
    MoveTwos(e, n);
    SameProducts(Pow(2, Positive(e + n)), Pow(2, Positive(-e)), Pow(2, n), Pow(2, Positive(e)),
                 Pow(2, Positive(-(e + n))), Pow(10, Positive(-k)), Pow(10, Positive(k)));
  }

  lemma MoveTwos(e: int, n: nat)
    ensures Pow(2, Positive(e + n)) * Pow(2, Positive(-e))
            == (Pow(2, n) * Pow(2, Positive(e))) * Pow(2, Positive(-(e + n)))
  {
    hide Pow;
    var p, q, x, y := Positive(e), Positive(-e), Positive(e + n), Positive(-(e + n));
    assert x + q == n + p + y;
    PowAdd(2, x, q);
    PowAdd(2, n, p);
    PowAdd(2, n + p, y);
  }

  lemma SameProducts(x: int, q: int, n: int, p: int, y: int, t: int, b: int)
    requires x * q == (n * p) * y
    ensures (x * t) * (q * b) == (n * (p * t)) * (y * b)
  {
    Swap(x, t, q, b);
    Swap(n * p, t, y, b);
    MulAssoc(n, p, t);
  }

  lemma Swap(a: int, t: int, c: int, b: int)
    ensures (a * t) * (c * b) == (a * c) * (t * b)
  {
    MulAssoc(a, t, c * b);
    MulAssoc(t, c, b);
    MulAssoc(c, t, b);
    MulAssoc(a, c, t * b);
  }

  /** The exact estimate for the power of two is at most one too small for the double, and
      for the upper end of what reads back as it. */
  lemma EstimateFits(f: nat, e: int, n: nat, k: int)
    requires Pow(2, n) <= f < 2 * Pow(2, n) && CeilLog(e + n, k)
    ensures EstimatedPower(f, e, k)
  {
    hide Upper, Lower, Pow;
    MoveBits(e, n, k);
    var u, l, x, y, two := Upper(e, k), Lower(e, k), Upper(e + n, k), Lower(e + n, k), Pow(2, n);
    MulMono(two, f, u);
    // y <= 10 x and x l == (two u) y
    MulMono(y, 10 * x, two * u);
    assert (10 * x) * (two * u) == (10 * (two * u)) * x;
    assert l * x <= (10 * (two * u)) * x;
    MulCancelLeq(l, 10 * (two * u), x);
    // x <= y
    MulMono(x, y, l);
    MulCancelLeq(two * u, l, y);
    MulMono(2 * f + 1, 4 * two, u);
    MulAssoc(4, two, u);
  }

  /** What the digit generation asks of the estimate. */
  lemma EstimateServes(f: nat, e: int, rounding: real)
    requires 0 < f < 2 * HIDDEN_BIT && -1074 <= e <= 971 && -GUARD < rounding < GUARD
    ensures var k := Estimate(NormalExponent(f, e), rounding);
            EstimatedPower(f, e, k) && -324 <= k <= 309 && (e >= 0 ==> k >= 0)
    ensures -1126 <= NormalExponent(f, e) <= 971
  {
    hide CeilLog, EstimatedPower, Near, Estimate;
    var n := NormalBits(f, e);
    var x, k := e + n, Estimate(NormalExponent(f, e), rounding);
    EstimateExact(x - 52, rounding, k);
    EstimateFits(f, e, n, k);
    EstimateNear(x - 52, rounding);
    NearFractions(x, k);
  }

  method NormalizedExponent(significand: nat, exponent: int) returns (r: int)
    requires 0 < significand < 2 * HIDDEN_BIT
    ensures r == NormalExponent(significand, exponent)
    ensures exists n: nat :: Pow(2, n) <= significand < 2 * Pow(2, n) && r + SIGNIFICAND_SIZE - 1 == exponent + n
  {
    ghost var n := NormalBits(significand, exponent);
    var f := significand;
    r := exponent;
    while (f / HIDDEN_BIT) % 2 == 0
      invariant 0 < f < 2 * HIDDEN_BIT && NormalExponent(f, r) == NormalExponent(significand, exponent)
      decreases 2 * HIDDEN_BIT - f
    {
      f := f * 2;
      r := r - 1;
    }
  }

  method EstimatePower(exponent: int, rounding: real) returns (k: int)
    requires -1126 <= exponent <= 971 && -GUARD < rounding < GUARD
    ensures k == Estimate(exponent, rounding) && CeilLog(exponent + SIGNIFICAND_SIZE - 1, k)
  {
    EstimateExact(exponent, rounding, Estimate(exponent, rounding));
    var estimate := (exponent + SIGNIFICAND_SIZE - 1) as real * ONE_LOG10 - GUARD + rounding;
    k := Ceil(estimate);
  }
}
