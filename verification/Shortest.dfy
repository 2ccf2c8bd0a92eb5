// When a decimal prefix lies in a rounding interval, and why the first prefix that
// does is shortest and closest. All facts are about integers: a value n / d with the
// interval from (n - m) / d to (n + p) / d, and decimals x / scale.

module Shortest {
  import opened Arith
  import opened Decimal

  /** x / scale lies in the rounding interval; its ends belong to it when even. */
  ghost predicate InInterval(x: int, scale: nat, n: int, m: int, p: int, d: int, even: bool) {
    if even then scale * n - scale * m <= x * d <= scale * n + scale * p
    else scale * n - scale * m < x * d < scale * n + scale * p
  }

  /** No decimal with the given scale lies in the interval. */
  ghost predicate NoneInInterval(scale: nat, n: int, m: int, p: int, d: int, even: bool) {
    forall x: int :: !InInterval(x, scale, n, m, p, d, even)
  }

  /** No decimal with fewer than k + 1 digits, that is with a scale below 10^k, lies in
      the interval. */
  ghost predicate NoneShorter(k: nat, n: int, m: int, p: int, d: int, even: bool) {
    forall j: nat :: j < k ==> NoneInInterval(Pow(10, j), n, m, p, d, even)
  }

  function Distance(a: int, b: int): nat {
    if a < b then b - a else a - b
  }

  /** x / scale is at least as close to n / d as every decimal of that scale in the
      interval, and of two that are as close it is the even one. */
  ghost predicate Closest(x: int, scale: nat, n: int, m: int, p: int, d: int, even: bool) {
    forall y: int :: InInterval(y, scale, n, m, p, d, even) ==>
      && Distance(x * d, scale * n) <= Distance(y * d, scale * n)
      && (y != x && Distance(x * d, scale * n) == Distance(y * d, scale * n) ==> x % 2 == 0)
  }

  /** The remainder is within reach of the lower end: the prefix may be rounded down. */
  ghost predicate RoomMinus(rem: int, sm: int, even: bool) {
    if even then rem <= sm else rem < sm
  }

  /** The remainder is within reach of the upper end: the prefix may be rounded up. */
  ghost predicate RoomPlus(rem: int, sp: int, d: int, even: bool) {
    if even then rem + sp >= d else rem + sp > d
  }

  lemma BelowPrefix(x: int, prefix: int, d: int)
    requires d > 0
    ensures x <= prefix ==> x * d <= prefix * d
    ensures x > prefix ==> prefix * d + d <= x * d
    ensures x < prefix ==> x * d + d <= prefix * d
    ensures x > prefix + 1 ==> prefix * d + 2 * d <= x * d
  {
    Distribute(prefix, 1, d);
    Distribute(x, 1, d);
    Distribute(prefix, 2, d);
    if x <= prefix {
      MulMono(x, prefix, d);
    } else {
      MulMono(prefix + 1, x, d);
    }
    if x < prefix {
      MulMono(x + 1, prefix, d);
    }
    if x > prefix + 1 {
      MulMono(prefix + 2, x, d);
    }
  }

  /** With room on neither side no decimal of this scale lies in the interval. */
  lemma NoRoom(scale: nat, prefix: int, rem: int, n: int, m: int, p: int, d: int, even: bool)
    requires d > 0 && scale * n == prefix * d + rem && 0 <= rem < d
    requires !RoomMinus(rem, scale * m, even) && !RoomPlus(rem, scale * p, d, even)
    ensures NoneInInterval(scale, n, m, p, d, even)
  {
    forall x: int
      ensures !InInterval(x, scale, n, m, p, d, even)
    {
      BelowPrefix(x, prefix, d);
    }
  }

  /** Room below: the prefix itself lies in the interval. */
  lemma RoundDown(scale: nat, prefix: int, rem: int, n: int, m: int, p: int, d: int, even: bool)
    requires scale * n == prefix * d + rem && 0 <= rem
    requires RoomMinus(rem, scale * m, even) && scale * p > 0
    ensures InInterval(prefix, scale, n, m, p, d, even)
  {
  }

  /** Room above: the next decimal lies in the interval. */
  lemma RoundUp(scale: nat, prefix: int, rem: int, n: int, m: int, p: int, d: int, even: bool)
    requires scale * n == prefix * d + rem && rem < d
    requires RoomPlus(rem, scale * p, d, even) && scale * m > 0
    ensures InInterval(prefix + 1, scale, n, m, p, d, even)
  {
    Distribute(prefix, 1, d);
  }

  /** Rounding to the nearer side, or to the only side in the interval, is closest. */
  lemma ChosenIsClosest(scale: nat, prefix: int, rem: int, up: bool, n: int, m: int, p: int, d: int, even: bool)
    requires d > 0 && scale * n == prefix * d + rem && 0 <= rem < d
    requires var minus, plus := RoomMinus(rem, scale * m, even), RoomPlus(rem, scale * p, d, even);
             && (up ==> plus && (!minus || 2 * rem >= d))
             && (!up ==> minus && (!plus || 2 * rem <= d))
             && (minus && plus && 2 * rem == d ==> (up <==> prefix % 2 == 1))
    ensures Closest(if up then prefix + 1 else prefix, scale, n, m, p, d, even)
  {
    Distribute(prefix, 1, d);
    var r := if up then prefix + 1 else prefix;
    forall y: int | InInterval(y, scale, n, m, p, d, even)
      ensures Distance(r * d, scale * n) <= Distance(y * d, scale * n)
      ensures y != r && Distance(r * d, scale * n) == Distance(y * d, scale * n) ==> r % 2 == 0
    {
      BelowPrefix(y, prefix, d);
    }
  }

  /** A prefix ending in 9 is not rounded up: there would be a shorter decimal in the
      interval, or the interval would reach 10 times the denominator. */
  lemma NineNotRoundedUp(k: nat, before: int, rem: int, n: int, m: int, p: int, d: int, even: bool)
    requires d > 0 && m > 0 && p > 0 && 0 <= rem < d
    requires Pow(10, k) * n == (10 * before + 9) * d + rem
    requires NoneShorter(k, n, m, p, d, even)
    requires k == 0 ==> before == 0
    requires if even then n + p < 10 * d else n + p <= 10 * d
    ensures !RoomPlus(rem, Pow(10, k) * p, d, even)
  {
    var scale := Pow(10, k);
    Distribute(10 * before + 9, 1, d);
    assert Pow(10, 0) == 1;
    assert k > 0 ==> NoneInInterval(Pow(10, k - 1), n, m, p, d, even);
    if k > 0 && RoomPlus(rem, scale * p, d, even) {
      MulPos(scale, m);
      RoundUp(scale, 10 * before + 9, rem, n, m, p, d, even);
      ScaleDown(Pow(10, k - 1), before + 1, n, m, p, d, even);
    }
  }

  /** Dropping a trailing zero digit keeps a decimal where it is. */
  lemma ScaleDown(s: nat, x: int, n: int, m: int, p: int, d: int, even: bool)
    requires InInterval(10 * x, 10 * s, n, m, p, d, even)
    ensures InInterval(x, s, n, m, p, d, even)
  {
    MulAssoc(10, s, n);
    MulAssoc(10, s, m);
    MulAssoc(10, s, p);
    MulAssoc(10, x, d);
  }

  /** One more digit generated: the scaled numerator splits into the longer prefix and
      the new remainder. */
  lemma DigitSplit(scaled: int, before: int, digit: int, rem: int, value: int, d: int)
    requires scaled == (10 * before) * d + value && value == digit * d + rem
    ensures scaled == (10 * before + digit) * d + rem
  {
    Distribute(10 * before, digit, d);
  }

  /** Going on to the next digit multiplies everything by ten. */
  lemma NextScale(k: nat, prefix: int, rem: int, n: int, d: int)
    requires Pow(10, k) * n == prefix * d + rem
    ensures Pow(10, k + 1) * n == (10 * prefix) * d + 10 * rem
  {
    MulAssoc(10, Pow(10, k), n);
    MulAssoc(10, prefix, d);
  }

  /** What the generation loop knows after k digits with value before, when value is the
      scaled remainder still to be divided. */
  ghost predicate Progress(k: nat, before: int, value: int, n: int, m: int, p: int, d: int, even: bool) {
    && Pow(10, k) * n == (10 * before) * d + value
    && 0 <= value < 10 * d
    && NoneShorter(k, n, m, p, d, even)
    && (k == 0 ==> before == 0)
    && (k > 0 ==> Pow(10, k - 1) * (m + p) <= d)
  }

  /** No room: the loop goes on with the next digit. */
  lemma StepContinue(k: nat, before: int, value: int, digit: int, rem: int, n: int, m: int, p: int, d: int, even: bool)
    requires Progress(k, before, value, n, m, p, d, even)
    requires d > 0 && m > 0 && p > 0 && value == digit * d + rem && 0 <= rem < d
    requires !RoomMinus(rem, Pow(10, k) * m, even) && !RoomPlus(rem, Pow(10, k) * p, d, even)
    ensures Progress(k + 1, 10 * before + digit, 10 * rem, n, m, p, d, even)
    ensures 0 < Pow(10, k) * m < d && Pow(10, k) * p <= d
    ensures Pow(10, k + 1) * m == 10 * (Pow(10, k) * m) && Pow(10, k + 1) * p == 10 * (Pow(10, k) * p)
  {
    DigitSplit(Pow(10, k) * n, before, digit, rem, value, d);
    NoRoom(Pow(10, k), 10 * before + digit, rem, n, m, p, d, even);
    NextScale(k, 10 * before + digit, rem, n, d);
    MulAssoc(10, Pow(10, k), m);
    MulAssoc(10, Pow(10, k), p);
    MulPos(Pow(10, k), m);
    MulPos(Pow(10, k), p);
    assert Pow(10, k) * (m + p) == Pow(10, k) * m + Pow(10, k) * p;
  }

  lemma LastDigitParity(before: int, digit: int)
    ensures (10 * before + digit) % 2 == digit % 2
  {
  }

  /** Room on a side: the loop stops, and the chosen decimal is in the interval and
      closest. A digit that is rounded up is not a 9. */
  lemma StepFinish(k: nat, before: int, value: int, digit: int, rem: int, up: bool, n: int, m: int, p: int, d: int,
                   even: bool)
    requires Progress(k, before, value, n, m, p, d, even)
    requires d > 0 && m > 0 && p > 0 && value == digit * d + rem && 0 <= rem < d
    requires if even then n + p < 10 * d else n + p <= 10 * d
    requires var minus := RoomMinus(rem, Pow(10, k) * m, even);
             var plus := RoomPlus(rem, Pow(10, k) * p, d, even);
             && (minus || plus)
             && (up ==> plus && (!minus || 2 * rem >= d))
             && (!up ==> minus && (!plus || 2 * rem <= d))
             && (minus && plus && 2 * rem == d ==> (up <==> digit % 2 == 1))
    ensures up ==> digit != 9
    ensures var r := 10 * before + digit + (if up then 1 else 0);
            && InInterval(r, Pow(10, k), n, m, p, d, even)
            && Closest(r, Pow(10, k), n, m, p, d, even)
  {
    hide Pow, RoomMinus, RoomPlus, InInterval, Closest, NoneShorter;
    var scale, prefix := Pow(10, k), 10 * before + digit;
    DigitSplit(scale * n, before, digit, rem, value, d);
    LastDigitParity(before, digit);
    MulPos(scale, m);
    MulPos(scale, p);
    ChosenIsClosest(scale, prefix, rem, up, n, m, p, d, even);
    if up {
      RoundUp(scale, prefix, rem, n, m, p, d, even);
      if digit == 9 {
        NineNotRoundedUp(k, before, rem, n, m, p, d, even);
      }
    } else {
      RoundDown(scale, prefix, rem, n, m, p, d, even);
    }
  }

  /** A generation loop that is still going has not outgrown a buffer sized for the
      interval's width. */
  lemma BufferHasRoom(k: nat, length: nat, width: int, d: int)
    requires length > 0 && width > 0 && d < Pow(10, length - 1) * width
    requires k > 0 ==> Pow(10, k - 1) * width <= d
    ensures k < length
  {
    if k > 0 && length <= k {
      PowMono(10, length - 1, k - 1);
      MulMono(Pow(10, length - 1), Pow(10, k - 1), width);
    }
  }

  /** n with its decimal point moved k places to the right. */
  function Scaled(k: nat, n: nat): (r: nat)
    ensures r == Pow(10, k) * n
  {
    MulPos(Pow(10, k), n);
    Pow(10, k) * n
  }

  /** s, with its decimal point at decimalPoint instead of point, is the ratio a / d
      rounded half upwards; the point moves by at most one place, and then s is a power
      of ten. */
  ghost predicate CountedResult(s: seq<char>, point: int, decimalPoint: int, a: nat, d: nat)
    requires d > 0
  {
    && |s| > 0 && AllDecimal(s)
    && (decimalPoint == point || decimalPoint == point + 1)
    && (decimalPoint == point ==> DecimalValue(s) == RoundHalfUp(a, d))
    && (decimalPoint == point + 1 ==> 10 * DecimalValue(s) == RoundHalfUp(a, d) && DecimalValue(s) == Pow(10, |s| - 1))
  }

  /** a / d rounded to the nearest integer, halves upwards. */
  function RoundHalfUp(a: nat, d: nat): nat
    requires d > 0
  {
    (2 * a + d) / (2 * d)
  }

  /** The truncated quotient, or one more when the remainder is at least half. */
  lemma RoundedQuotient(a: nat, d: nat, q: nat, rem: nat)
    requires d > 0 && a == q * d + rem && rem < d
    ensures RoundHalfUp(a, d) == if 2 * rem >= d then q + 1 else q
  {
    if 2 * rem >= d {
      Distribute(q, 1, d);
      Distribute(2 * (q + 1), 0, d);
      DivUnique(2 * a + d, 2 * d, q + 1, 2 * rem - d);
    } else {
      DivUnique(2 * a + d, 2 * d, q, 2 * rem + d);
    }
  }

  /** Rounding is nearest: the result's distance is at most half a unit. */
  lemma RoundHalfUpNearest(a: nat, d: nat)
    requires d > 0
    ensures 2 * RoundHalfUp(a, d) * d <= 2 * a + d < 2 * RoundHalfUp(a, d) * d + 2 * d
  {
    DivMod(2 * a + d, 2 * d);
    var q := RoundHalfUp(a, d);
    assert q * (2 * d) == 2 * q * d;
  }

  /** Rounding the last digit rounds the whole number. */
  lemma RoundLast(a: nat, before: int, value: nat, d: nat, digit: nat)
    requires d > 0 && a == (10 * before) * d + value
    requires digit == RoundHalfUp(value, d)
    ensures RoundHalfUp(a, d) == 10 * before + digit
  {
    DivMod(2 * value + d, 2 * d);
    var r := (2 * value + d) % (2 * d);
    Distribute(10 * before, digit, 2 * d);
    assert (10 * before) * (2 * d) == 2 * ((10 * before) * d);
    DivUnique(2 * a + d, 2 * d, 10 * before + digit, r);
  }

  /** A ratio that can reach 1 within its interval, and whose lower end is positive,
      gets no leading zero digit. */
  lemma NoLeadingZero(s: seq<char>, n: int, m: int, p: int, d: int, even: bool)
    requires |s| > 0 && AllDecimal(s) && d > 0 && m < n
    requires InInterval(DecimalValue(s), Pow(10, |s| - 1), n, m, p, d, even)
    requires NoneShorter(|s| - 1, n, m, p, d, even)
    requires RoomPlus(n, p, d, even)
    ensures s[0] != '0'
  {
    FullLength(DecimalValue(s), |s| - 1, n, m, p, d, even);
    if s[0] == '0' {
      DropZero(s);
    }
  }

  /** Such a ratio's shortest decimal is at least 1. */
  lemma FullLength(r: int, k: nat, n: int, m: int, p: int, d: int, even: bool)
    requires d > 0 && m < n && InInterval(r, Pow(10, k), n, m, p, d, even)
    requires NoneShorter(k, n, m, p, d, even) && RoomPlus(n, p, d, even)
    ensures r >= Pow(10, k)
  {
    var scale := Pow(10, k);
    assert Pow(10, 0) == 1;
    assert k > 0 ==> NoneInInterval(Pow(10, 0), n, m, p, d, even);
    assert k > 0 ==> !InInterval(1, Pow(10, 0), n, m, p, d, even);
    assert scale * n - scale * m == scale * (n - m);
    if r < scale {
      if k > 0 {
        MulStrict(r, scale, d);
        LessOne(scale, n - m, d);
      } else {
        MulMono(r, 0, d);
      }
    }
  }

  lemma LessOne(scale: int, x: int, d: int)
    requires scale > 0 && scale * x < scale * d
    ensures x < d
  {
    assert scale * x == x * scale && scale * d == d * scale;
    MulCancelLess(x, d, scale);
  }

  /** Dropping a leading zero keeps the number, so it is below the next power of ten. */
  lemma DropZero(s: seq<char>)
    requires |s| > 0 && AllDecimal(s) && s[0] == '0'
    ensures 0 <= DecimalValue(s) < Pow(10, |s| - 1)
  {
    DecimalAppend(s[..1], s[1..]);
    assert s[..1] + s[1..] == s;
    assert DecimalValue(s[..1][..0]) == 0;
    DecimalBound(s[1..]);
  }

  /** What the generated string promises about the ratio n / d and its interval. */
  ghost predicate ShortestResult(s: seq<char>, n: int, m: int, p: int, d: int, even: bool) {
    && |s| > 0 && AllDecimal(s)
    && InInterval(DecimalValue(s), Pow(10, |s| - 1), n, m, p, d, even)
    && NoneShorter(|s| - 1, n, m, p, d, even)
    && Closest(DecimalValue(s), Pow(10, |s| - 1), n, m, p, d, even)
  }
}
