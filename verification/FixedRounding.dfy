// A double rounded half upwards to a given number of decimals, and the powers of ten
// that no double with an odd significand hits.

module FixedRounding {
  import opened Arith
  import opened Decimal
  import opened Digits
  import PowerSteps
  import opened Rounding
  import opened Shortest

  /** f * 2^e in units of 10^k, rounded half upwards. */
  function RoundedAt(f: nat, e: int, k: int): nat {
    RoundHalfUp(f * Upper(e, k), Lower(e, k))
  }

  /** s, with the decimal point after its first point digits, is f * 2^e rounded half
      upwards to the given number of decimals. */
  ghost predicate FixedDecimal(s: seq<char>, point: int, decimals: int, f: nat, e: int) {
    && AllDecimal(s) && point - |s| >= -decimals
    && DecimalValue(s) * Pow(10, point - |s| + decimals) == RoundedAt(f, e, -decimals)
  }

  /** s, with the decimal point after its first point digits, is f * 2^e rounded half
      upwards to |s| significant digits. */
  ghost predicate PreciseDecimal(s: seq<char>, point: int, f: nat, e: int) {
    && |s| > 0 && AllDecimal(s) && s[0] != '0'
    && (DecimalValue(s) == RoundedAt(f, e, point - |s|)
        || (DecimalValue(s) == Pow(10, |s| - 1) && 10 * DecimalValue(s) == RoundedAt(f, e, point - 1 - |s|)))
  }

  /** The quotient decides the rounding, not how it is written. */
  lemma SameRatio(a: nat, d: nat, b: nat, g: nat)
    requires d > 0 && g > 0 && a * g == d * b
    ensures RoundHalfUp(a, d) == RoundHalfUp(b, g)
  {
    var q := RoundHalfUp(b, g);
    RoundHalfUpNearest(b, g);
    assert (2 * a + d) * g == d * (2 * b + g);
    assert (2 * q * d) * g == d * (2 * q * g);
    assert (2 * q * d + 2 * d) * g == d * (2 * q * g + 2 * g);
    ScaleCompare(2 * q * d, 2 * a + d, g, d, 2 * q * g, 2 * b + g);
    ScaleCompare(2 * a + d, 2 * q * d + 2 * d, g, d, 2 * b + g, 2 * q * g + 2 * g);
    assert q * (2 * d) == 2 * q * d;
    DivUnique(2 * a + d, 2 * d, q, 2 * a + d - 2 * q * d);
  }

  /** The ratio the digit generation works on, with j digits shifted out, is the double
      in units of 10^k. */
  lemma RatioMeaning(j: nat, t: nat, f: nat, e: int, power: int, k: int)
    requires (t == 1 && k == power - j) || (t == 10 && k == power - 1 - j)
    ensures RoundHalfUp(Scaled(j, t * (f * Upper(e, power))), Lower(e, power)) == RoundedAt(f, e, k)
  {
    var u, v, l, w, s := Upper(e, power), Lower(e, power), Lower(e, k), Upper(e, k), Pow(10, j);
    Balance(j, t, e, power, k);
    CrossProduct(s, t, f, u, l, v, w);
    SameRatio(Scaled(j, t * (f * u)), v, f * w, l);
  }

  lemma CrossProduct(s: int, t: int, f: int, u: int, l: int, v: int, w: int)
    requires (s * t) * u * l == v * w
    ensures (s * (t * (f * u))) * l == v * (f * w)
  {
    calc {
      (s * (t * (f * u))) * l;
      f * ((s * t) * u * l);
      f * (v * w);
      v * (f * w);
    }
  }

  /** A ratio below one half rounds to zero, and from one half on but below 3/2 to one. */
  lemma SmallRounds(a: nat, d: nat)
    requires d > 0
    ensures 2 * a < d ==> RoundHalfUp(a, d) == 0
    ensures d <= 2 * a < 3 * d ==> RoundHalfUp(a, d) == 1
  {
    if 2 * a < d {
      DivUnique(2 * a + d, 2 * d, 0, 2 * a + d);
    } else if 2 * a < 3 * d {
      DivUnique(2 * a + d, 2 * d, 1, 2 * a - d);
    }
  }

  /** A double below 10^power rounds to zero from the second place above it on. */
  lemma FarBelow(f: nat, e: int, power: int, k: int)
    requires f * Upper(e, power) < Lower(e, power) && k > power
    ensures RoundedAt(f, e, k) == 0
  {
    var u, v, w, l, s := Upper(e, power), Lower(e, power), Upper(e, k), Lower(e, k), Pow(10, k - power);
    Balance(k - power, 1, e, k, power);
    TenAtLeast(k - power);
    CrossProduct(s, 1, f, w, v, l, u);
    ScaleStep(s, f * w, v, l, f * u);
    SmallRounds(f * w, l);
  }

  lemma TenAtLeast(n: nat)
    requires n > 0
    ensures Pow(10, n) >= 10
  {
    PowMono(10, 1, n);
    assert Pow(10, 1) == 10 * Pow(10, 0);
  }

  lemma ScaleStep(s: int, x: nat, v: int, l: int, y: int)
    requires s >= 10 && v > 0 && l > 0 && (s * (1 * x)) * v == l * y && y < v
    ensures 10 * x < l
  {
    MulStrict(y, v, l);
    MulCancelLess(s * x, l, v);
    MulMono(10, s, x);
  }

  // A double with an odd significand is never a power of ten, so the strict comparison
  // that the fixup makes for odd significands does not matter outside the shortest mode.

  /** The significand fills its 53 bits, or the double is denormal. */
  predicate Significand(f: nat, e: int) {
    0 < f < 0x20_0000_0000_0000 && (f >= 0x10_0000_0000_0000 || e == -1074)
  }

  lemma {:induction false} TwosNotFive(n: nat)
    ensures Pow(2, n) % 5 != 0
  {
    if n > 0 {
      TwosNotFive(n - 1);
    }
  }

  lemma {:induction false} FivesOdd(n: nat)
    ensures Pow(5, n) % 2 == 1
  {
    if n > 0 {
      FivesOdd(n - 1);
    }
  }

  /** Odd parts are unique. */
  lemma {:induction false} OddUnique(a: nat, i: nat, b: nat, j: nat)
    requires a % 2 == 1 && b % 2 == 1 && a * Pow(2, i) == b * Pow(2, j)
    ensures a == b && i == j
  {
    if i > 0 && j > 0 {
      HalfBoth(a, Pow(2, i - 1), b, Pow(2, j - 1));
      OddUnique(a, i - 1, b, j - 1);
    } else if i > 0 {
      EvenProduct(a, Pow(2, i - 1));
    } else if j > 0 {
      EvenProduct(b, Pow(2, j - 1));
    }
  }

  lemma HalfBoth(a: int, x: int, b: int, y: int)
    requires a * (2 * x) == b * (2 * y)
    ensures a * x == b * y
  {
    assert a * (2 * x) == 2 * (a * x) && b * (2 * y) == 2 * (b * y);
  }

  lemma EvenProduct(a: int, x: int)
    ensures (a * (2 * x)) % 2 == 0
  {
    assert a * (2 * x) == 2 * (a * x);
  }

  lemma OddNotPowerOfTen(f: nat, e: int, power: int)
    requires Significand(f, e) && f % 2 == 1
    ensures f * Upper(e, power) != Lower(e, power)
  {
    if f * Upper(e, power) == Lower(e, power) {
      var up, down := Pow(2, Positive(e)), Pow(2, Positive(-e));
      assert Pow(2, 0) == 1 && Pow(10, 0) == 1;
      if power < 0 {
        TwosNotFive(Positive(-e));
        FiveDivides(f, up, Pow(10, -power - 1));
      } else {
        PowBase(2, 5, power);
        FivesOdd(power);
        PowAdd(2, Positive(-e), power);
        assert Pow(2 * 5, power) == Pow(10, power);
        Regroup(down, Pow(2, power), Pow(5, power));
        OddUnique(f, Positive(e), Pow(5, power), Positive(-e) + power);
        FiveRange(power);
      }
    }
  }

  lemma Regroup(a: int, b: int, c: int)
    ensures a * (b * c) == c * (a * b)
  {
  }

  lemma FiveDivides(f: int, a: int, b: int)
    ensures (f * (a * (10 * b))) % 5 == 0
  {
    assert f * (a * (10 * b)) == 5 * (f * (a * (2 * b)));
  }

  /** No power of 5 fills exactly 53 bits. */
  lemma FiveRange(n: nat)
    ensures !(0x10_0000_0000_0000 <= Pow(5, n) < 0x20_0000_0000_0000)
  {
    assert Pow(5, 5) == 3125;
    PowAdd(5, 5, 5);
    PowAdd(5, 10, 10);
    assert Pow(5, 2) == 25;
    PowAdd(5, 20, 2);
    assert Pow(5, 22) == 2384185791015625;
    assert Pow(5, 23) == 5 * Pow(5, 22);
    if n <= 22 {
      PowMono(5, n, 22);
    } else {
      PowMono(5, 23, n);
    }
  }

  // What the digit generation leaves, in terms of the double.

  /** The start values without interval ends, after the fixup by t. */
  ghost predicate PlainUp(t: nat, n: nat, d: nat, f: nat, e: int, power: int) {
    && n == t * (f * Upper(e, power)) && d == Lower(e, power)
    && t == (if RoomPlus(f * Upper(e, power), 0, d, f % 2 == 0) then 1 else 10)
  }

  function PointOf(t: nat, power: int): int {
    if t == 1 then power + 1 else power
  }

  /** The ratio's first digit is in front of the decimal point, and is not zero. */
  lemma PlainInRange(t: nat, n: nat, d: nat, f: nat, e: int, power: int)
    requires Significand(f, e) && EstimatedPower(f, e, power) && PlainUp(t, n, d, f, e, power)
    ensures 0 < d <= n < 10 * d
  {
    var u := Upper(e, power);
    TwiceAndOne(f, u);
    if f % 2 == 1 {
      OddNotPowerOfTen(f, e, power);
    }
  }

  /** The ratio is ten times the double in units of 10^point. */
  lemma PointRatio(t: nat, n: nat, f: nat, e: int, power: int)
    requires (t == 1 || t == 10) && n == t * (f * Upper(e, power))
    ensures n * Lower(e, PointOf(t, power)) == (10 * Lower(e, power)) * (f * Upper(e, PointOf(t, power)))
  {
    var u, v, w, l := Upper(e, power), Lower(e, power), Upper(e, PointOf(t, power)), Lower(e, PointOf(t, power));
    if t == 1 {
      Balance(1, 1, e, power + 1, power);
      assert Pow(10, 1) == 10 * Pow(10, 0) && Pow(10, 0) == 1;
      CrossProduct(10, 1, f, w, v, l, u);
      Turn(f, u, v, w, l);
    } else {
      TurnTen(f, u, v);
    }
  }

  lemma Turn(f: int, u: int, v: int, w: int, l: int)
    requires (10 * (1 * (f * w))) * v == l * (f * u)
    ensures (1 * (f * u)) * l == (10 * v) * (f * w)
  {
    assert (10 * (1 * (f * w))) * v == (10 * v) * (f * w);
  }

  lemma TurnTen(f: int, u: int, v: int)
    ensures (10 * (f * u)) * v == (10 * v) * (f * u)
  {
  }

  /** A ratio below 10 belongs to a double below 10^point. */
  lemma BelowPoint(t: nat, n: nat, f: nat, e: int, power: int)
    requires (t == 1 || t == 10) && n == t * (f * Upper(e, power)) && n < 10 * Lower(e, power)
    ensures f * Upper(e, PointOf(t, power)) < Lower(e, PointOf(t, power))
  {
    var v, x, l := Lower(e, power), f * Upper(e, PointOf(t, power)), Lower(e, PointOf(t, power));
    PointRatio(t, n, f, e, power);
    MulStrict(n, 10 * v, l);
    MulCancelLess2(x, l, 10 * v);
  }

  /** No digits are asked for anywhere near the double's first digit. */
  lemma NoDigits(t: nat, n: nat, decimals: int, f: nat, e: int, power: int)
    requires (t == 1 || t == 10) && n == t * (f * Upper(e, power)) && n < 10 * Lower(e, power)
    requires -decimals > PointOf(t, power)
    ensures FixedDecimal([], -decimals, decimals, f, e)
  {
    BelowPoint(t, n, f, e, power);
    FarBelow(f, e, PointOf(t, power), -decimals);
    assert DecimalValue([]) == 0;
    MulZero(Pow(10, 0), 0);
  }

  /** The double's first digit is one place below the last digit that is asked for. */
  lemma HalfPlace(t: nat, n: nat, decimals: int, f: nat, e: int, power: int)
    requires (t == 1 || t == 10) && n == t * (f * Upper(e, power)) && n < 10 * Lower(e, power)
    requires -decimals == PointOf(t, power)
    ensures 2 * n >= 10 * Lower(e, power) ==> FixedDecimal(['1'], 1 - decimals, decimals, f, e)
    ensures 2 * n < 10 * Lower(e, power) ==> FixedDecimal([], -decimals, decimals, f, e)
  {
    PointRatio(t, n, f, e, power);
    SameRatio(n, 10 * Lower(e, power), f * Upper(e, -decimals), Lower(e, -decimals));
    SmallRounds(n, 10 * Lower(e, power));
    assert DecimalValue(['1'][..0]) == 0;
    assert Pow(10, 0) == 1;
  }

  /** Counted digits that end at the last decimal place. */
  lemma CountedFixed(s: seq<char>, t: nat, n: nat, point: int, decimals: int, f: nat, e: int, power: int)
    requires (t == 1 || t == 10) && n == t * (f * Upper(e, power))
    requires |s| == PointOf(t, power) + decimals > 0
    requires CountedResult(s, PointOf(t, power), point, Scaled(|s| - 1, n), Lower(e, power))
    ensures FixedDecimal(s, point, decimals, f, e)
  {
    RatioMeaning(|s| - 1, t, f, e, power, -decimals);
    assert Pow(10, 0) == 1 && Pow(10, 1) == 10 * Pow(10, 0);
    var x := DecimalValue(s);
    if point == PointOf(t, power) {
      assert x * Pow(10, 0) == x;
    } else {
      assert x * Pow(10, 1) == 10 * x;
    }
  }

  /** Counted digits of a ratio that starts with a digit other than zero. */
  lemma CountedPrecise(s: seq<char>, t: nat, n: nat, point: int, f: nat, e: int, power: int)
    requires (t == 1 || t == 10) && n == t * (f * Upper(e, power)) && n >= Lower(e, power)
    requires |s| > 0 && CountedResult(s, PointOf(t, power), point, Scaled(|s| - 1, n), Lower(e, power))
    ensures PreciseDecimal(s, point, f, e)
  {
    var k, v := |s| - 1, Lower(e, power);
    RatioMeaning(k, t, f, e, power, PointOf(t, power) - |s|);
    MulMono(v, n, Pow(10, k));
    RoundsAtLeast(Scaled(k, n), v, Pow(10, k));
    if s[0] == '0' {
      DropZero(s);
    }
  }

  lemma RoundsAtLeast(a: nat, d: nat, q: nat)
    requires d > 0 && q * d <= a
    ensures RoundHalfUp(a, d) >= q
  {
    RoundHalfUpNearest(a, d);
    var r := RoundHalfUp(a, d);
    assert 2 * r * d + 2 * d == 2 * ((r + 1) * d);
    if r < q {
      MulMono(r + 1, q, d);
    }
  }

  // Without zeros at its ends a fixed decimal is unique.

  ghost predicate NoZeroEnds(t: seq<char>) {
    |t| > 0 ==> t[0] != '0' && t[|t| - 1] != '0'
  }

  /** The powers of ten in a product with a number not divisible by ten are determined. */
  lemma {:induction false} TensUnique(x: nat, a: nat, y: nat, b: nat)
    requires x % 10 != 0 && y % 10 != 0 && x * Pow(10, a) == y * Pow(10, b)
    ensures x == y && a == b
  {
    if a > 0 && b > 0 {
      TenthBoth(x, Pow(10, a - 1), y, Pow(10, b - 1));
      TensUnique(x, a - 1, y, b - 1);
    } else if a > 0 {
      TenDivides(x, Pow(10, a - 1));
    } else if b > 0 {
      TenDivides(y, Pow(10, b - 1));
    }
  }

  lemma TenDivides(a: int, x: int)
    ensures (a * (10 * x)) % 10 == 0
  {
    assert a * (10 * x) == 10 * (a * x);
  }

  lemma TenthBoth(a: int, x: int, b: int, y: int)
    requires a * (10 * x) == b * (10 * y)
    ensures a * x == b * y
  {
    assert a * (10 * x) == 10 * (a * x) && b * (10 * y) == 10 * (b * y);
  }

  /** Strings of the same number of digits and the same value are the same. */
  lemma {:induction false} DigitsUnique(s: seq<char>, t: seq<char>)
    requires AllDecimal(s) && AllDecimal(t) && |s| == |t| && DecimalValue(s) == DecimalValue(t)
    ensures s == t
    decreases |s|
  {
    if |s| > 0 {
      var n := |s| - 1;
      DigitsUnique(s[..n], t[..n]);
      assert s == s[..n] + [s[n]] && t == t[..n] + [t[n]];
    }
  }

  /** A first digit other than zero tells the number of digits. */
  lemma LeadingDigit(s: seq<char>)
    requires |s| > 0 && AllDecimal(s) && s[0] != '0'
    ensures Pow(10, |s| - 1) <= DecimalValue(s) < Pow(10, |s|)
  {
    DecimalBound(s);
    DecimalBound(s[1..]);
    DecimalAppend(s[..1], s[1..]);
    assert s[..1] + s[1..] == s && s[..1] == [] + [s[0]];
    DecimalPush([], s[0]);
    MulMono(1, DecimalValue(s[..1]), Pow(10, |s| - 1));
  }

  lemma SameLength(s: seq<char>, t: seq<char>)
    requires |s| > 0 && AllDecimal(s) && s[0] != '0'
    requires |t| > 0 && AllDecimal(t) && t[0] != '0'
    requires DecimalValue(s) == DecimalValue(t)
    ensures |s| == |t|
  {
    LeadingDigit(s);
    LeadingDigit(t);
    PowLess(10, |s| - 1, |t|);
    PowLess(10, |t| - 1, |s|);
  }

  /** Two ways to print the same double with the same number of decimals give the same
      digits and the same decimal point, once zeros at the ends are removed. */
  lemma FixedUnique(s: seq<char>, p: int, t: seq<char>, q: int, decimals: int, f: nat, e: int)
    requires FixedDecimal(s, p, decimals, f, e) && NoZeroEnds(s)
    requires FixedDecimal(t, q, decimals, f, e) && NoZeroEnds(t)
    ensures s == t && (|s| > 0 ==> p == q)
  {
    hide Pow;
    var a, b := p - |s| + decimals, q - |t| + decimals;
    ZeroOnlyEmpty(s, a);
    ZeroOnlyEmpty(t, b);
    if |s| > 0 && |t| > 0 {
      TensUnique(DecimalValue(s), a, DecimalValue(t), b);
      SameLength(s, t);
      DigitsUnique(s, t);
    }
  }

  lemma ZeroOnlyEmpty(s: seq<char>, a: nat)
    requires AllDecimal(s) && NoZeroEnds(s)
    ensures DecimalValue(s) >= 0 && (DecimalValue(s) * Pow(10, a) == 0 <==> |s| == 0)
    ensures |s| > 0 ==> DecimalValue(s) % 10 != 0
  {
    hide Pow;
    if |s| > 0 {
      LeadingDigit(s);
      MulPos(DecimalValue(s), Pow(10, a));
    } else {
      MulZero(Pow(10, a), DecimalValue(s));
    }
  }
}
