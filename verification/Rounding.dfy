// The numbers that read back as a given double, and how the scaled integers of the
// digit generation stand for them. Denominators are cleared: 2^e and 10^k are taken
// as quotients of natural numbers.

module Rounding {
  import opened Arith
  import Decimal
  import opened Shortest

  function Positive(x: int): nat {
    if x > 0 then x else 0
  }

  /** f * 2^e / 10^k is f * Upper(e, k) / Lower(e, k). */
  function Upper(exponent: int, power: int): (u: nat)
    ensures u > 0
  {
    MulPos(Pow(2, Positive(exponent)), Pow(10, Positive(-power)));
    Pow(2, Positive(exponent)) * Pow(10, Positive(-power))
  }

  function Lower(exponent: int, power: int): (l: nat)
    ensures l > 0
  {
    MulPos(Pow(2, Positive(-exponent)), Pow(10, Positive(power)));
    Pow(2, Positive(-exponent)) * Pow(10, Positive(power))
  }

  /** The decimal x * 10^k reads back as the double f * 2^e: it is at most half a unit
      2^e away, a quarter below when the lower neighbour is closer; exactly half way
      counts when f is even. */
  ghost predicate ReadsBack(x: int, k: int, f: nat, e: int, closer: bool) {
    var u, l, low := Upper(e, k), Lower(e, k), if closer then 1 else 2;
    if f % 2 == 0 then (4 * f - low) * u <= 4 * (x * l) <= (4 * f + 2) * u
    else (4 * f - low) * u < 4 * (x * l) < (4 * f + 2) * u
  }

  /** Multiplying both sides of a comparison by positive numbers. */
  lemma ScaleCompare(a: int, b: int, p: int, q: int, g: int, h: int)
    requires p > 0 && q > 0 && a * p == q * g && b * p == q * h
    ensures a <= b <==> g <= h
    ensures a < b <==> g < h
  {
    if a <= b { MulMono(a, b, p); MulCancelLeq2(g, h, q); }
    if b <= a { MulMono(b, a, p); MulCancelLeq2(h, g, q); }
    if a < b { MulStrict(a, b, p); MulCancelLess2(g, h, q); }
    if b < a { MulStrict(b, a, p); MulCancelLess2(h, g, q); }
  }

  lemma MulCancelLeq2(a: int, b: int, c: int)
    requires c * a <= c * b && 0 < c
    ensures a <= b
  {
    assert c * a == a * c && c * b == b * c;
    MulCancelLeq(a, b, c);
  }

  lemma MulCancelLess2(a: int, b: int, c: int)
    requires c * a < c * b && 0 < c
    ensures a < b
  {
    assert c * a == a * c && c * b == b * c;
    MulCancelLess(a, b, c);
  }

  /** The powers of ten of the prefix, of the fixup and of the position of the last
      digit balance those of the start values. */
  lemma Balance(j: nat, t: nat, e: int, power: int, k: int)
    requires (t == 1 && k == power - j) || (t == 10 && k == power - 1 - j)
    ensures (Pow(10, j) * t) * Upper(e, power) * Lower(e, k) == Lower(e, power) * Upper(e, k)
  {
    var i := power - k;
    assert Pow(10, j) * t == Pow(10, i) by {
      assert Pow(10, 1) == 10 * Pow(10, 0);
      PowAdd(10, j, i - j);
    }
    TenBalance(i, power, k);
    var a, b, c, d := Pow(10, Positive(-power)), Pow(10, Positive(k)), Pow(10, Positive(power)), Pow(10, Positive(-k));
    Shuffle(Pow(10, i), Pow(2, Positive(e)), a, Pow(2, Positive(-e)), b, c, d);
  }

  lemma TenBalance(i: nat, power: int, k: int)
    requires i == power - k
    ensures (Pow(10, i) * Pow(10, Positive(-power))) * Pow(10, Positive(k))
            == Pow(10, Positive(power)) * Pow(10, Positive(-k))
  {
    PowAdd(10, i, Positive(-power));
    PowAdd(10, i + Positive(-power), Positive(k));
    PowAdd(10, Positive(power), Positive(-k));
  }

  lemma Shuffle(s: int, p: int, a: int, q: int, b: int, c: int, d: int)
    requires (s * a) * b == c * d
    ensures s * (p * a) * (q * b) == (q * c) * (p * d)
  {
    calc {
      s * (p * a) * (q * b);
      ((s * a) * b) * (p * q);
      (c * d) * (p * q);
      (q * c) * (p * d);
    }
  }

  /** The scaled interval of the digit generation is the interval of the double: with
      c the common factor of the start values and t that of the fixup. */
  lemma IntervalMeaning(x: int, j: nat, t: nat, f: nat, e: int, closer: bool, power: int, k: int, even: bool)
    requires (t == 1 && k == power - j) || (t == 10 && k == power - 1 - j)
    requires even == (f % 2 == 0)
    ensures var u, v, c := Upper(e, power), Lower(e, power), if closer then 4 else 2;
            InInterval(x, Pow(10, j), t * (c * (f * u)), t * u, t * (if closer then 2 * u else u), c * v, even)
            <==> ReadsBack(x, k, f, e, closer)
  {
    var u, v, c, h := Upper(e, power), Lower(e, power), if closer then 4 else 2, if closer then 2 else 1;
    var s, l, w := Pow(10, j), Lower(e, k), Upper(e, k);
    Balance(j, t, e, power, k);
    LowerEnd(s, t, u, v, c, f, l, w, x);
    UpperEnd(s, t, u, v, c, h, f, l, w, x);
    var lowSide, highSide := s * (t * (c * (f * u))) - s * (t * u), s * (t * (c * (f * u))) + s * (t * (h * u));
    assert t * (if closer then 2 * u else u) == t * (h * u);
    ScaleCompare(lowSide, x * (c * v), l, v, (c * f - 1) * w, c * (x * l));
    ScaleCompare(x * (c * v), highSide, l, v, c * (x * l), (c * f + h) * w);
    FourTimes(closer, f, w, x * l);
  }

  lemma FourTimes(closer: bool, f: nat, w: nat, y: int)
    ensures var c, h, low := if closer then 4 else 2, if closer then 2 else 1, if closer then 1 else 2;
            && ((c * f - 1) * w <= c * y <==> (4 * f - low) * w <= 4 * y)
            && ((c * f - 1) * w < c * y <==> (4 * f - low) * w < 4 * y)
            && (c * y <= (c * f + h) * w <==> 4 * y <= (4 * f + 2) * w)
            && (c * y < (c * f + h) * w <==> 4 * y < (4 * f + 2) * w)
  {
    if !closer {
      assert (4 * f - 2) * w == 2 * ((2 * f - 1) * w);
      assert (4 * f + 2) * w == 2 * ((2 * f + 1) * w);
    }
  }

  lemma LowerEnd(s: int, t: int, u: int, v: int, c: int, f: int, l: int, w: int, x: int)
    requires (s * t) * u * l == v * w
    ensures (s * (t * (c * (f * u))) - s * (t * u)) * l == v * ((c * f - 1) * w)
    ensures (x * (c * v)) * l == v * (c * (x * l))
  {
    calc {
      (s * (t * (c * (f * u))) - s * (t * u)) * l;
      (c * f - 1) * ((s * t) * u * l);
      (c * f - 1) * (v * w);
      v * ((c * f - 1) * w);
    }
  }

  lemma UpperEnd(s: int, t: int, u: int, v: int, c: int, h: int, f: int, l: int, w: int, x: int)
    requires (s * t) * u * l == v * w
    ensures (s * (t * (c * (f * u))) + s * (t * (h * u))) * l == v * ((c * f + h) * w)
  {
    calc {
      (s * (t * (c * (f * u))) + s * (t * (h * u))) * l;
      (c * f + h) * ((s * t) * u * l);
      (c * f + h) * (v * w);
      v * ((c * f + h) * w);
    }
  }

  /** How far x * 10^k is from f * 2^e, with denominators cleared. */
  ghost function Error(x: int, k: int, f: nat, e: int): nat {
    Distance(x * Lower(e, k), f * Upper(e, k))
  }

  /** Distances among the scaled integers order as the distances they stand for. */
  lemma ErrorMeaning(x: int, y: int, j: nat, t: nat, f: nat, e: int, c: nat, power: int, k: int)
    requires (t == 1 && k == power - j) || (t == 10 && k == power - 1 - j)
    requires c > 0
    ensures var n, d := t * (c * (f * Upper(e, power))), c * Lower(e, power);
            Distance(x * d, Pow(10, j) * n) <= Distance(y * d, Pow(10, j) * n)
            <==> Error(x, k, f, e) <= Error(y, k, f, e)
  {
    var u, v, s, l, w := Upper(e, power), Lower(e, power), Pow(10, j), Lower(e, k), Upper(e, k);
    Balance(j, t, e, power, k);
    ErrorSide(s, t, u, v, c, f, l, w, x);
    ErrorSide(s, t, u, v, c, f, l, w, y);
    MulPos(v, c);
    var q, n, d := v * c, t * (c * (f * u)), c * v;
    ScaleDistance(x * d, s * n, l, q, x * l, f * w);
    ScaleDistance(y * d, s * n, l, q, y * l, f * w);
    ScaleCompare(Distance(x * d, s * n), Distance(y * d, s * n), l, q,
                 Distance(x * l, f * w), Distance(y * l, f * w));
  }

  lemma ErrorSide(s: int, t: int, u: int, v: int, c: int, f: int, l: int, w: int, x: int)
    requires (s * t) * u * l == v * w
    ensures (s * (t * (c * (f * u)))) * l == (v * c) * (f * w)
    ensures (x * (c * v)) * l == (v * c) * (x * l)
  {
    calc {
      (s * (t * (c * (f * u)))) * l;
      (c * f) * ((s * t) * u * l);
      (c * f) * (v * w);
      (v * c) * (f * w);
    }
  }

  lemma ScaleDistance(a: int, b: int, p: nat, q: nat, g: int, h: int)
    requires p > 0 && q > 0 && a * p == q * g && b * p == q * h
    ensures Distance(a, b) * p == q * Distance(g, h)
  {
    ScaleCompare(a, b, p, q, g, h);
    assert (b - a) * p == b * p - a * p && (a - b) * p == a * p - b * p;
    assert q * (h - g) == q * h - q * g && q * (g - h) == q * g - q * h;
  }

  /** The decimal power k estimates the double within one place: 10^(k - 1) is at most
      f * 2^e, and the upper end of the interval is below 10^(k + 1). */
  predicate EstimatedPower(f: nat, e: int, k: int) {
    Lower(e, k) <= 10 * (f * Upper(e, k)) && (2 * f + 1) * Upper(e, k) < 20 * Lower(e, k)
  }

  /** What the estimate gives the scaled start values, before and after the fixup. */
  lemma StartInRange(f: nat, e: int, closer: bool, k: int)
    requires f > 0 && EstimatedPower(f, e, k) && (closer ==> f > 1)
    ensures var u, v, c, h := Upper(e, k), Lower(e, k), if closer then 4 else 2, if closer then 2 else 1;
            && c * (f * u) + h * u < 10 * (c * v)
            && 10 * (c * (f * u)) + 10 * (h * u) > c * v
            && u < c * (f * u)
  {
    var u := Upper(e, k);
    TwiceAndOne(f, u);
    MulMono(1, f, u);
    if closer {
      MulMono(2, f, u);
    }
  }

  lemma TwiceAndOne(f: int, u: int)
    ensures (2 * f + 1) * u == 2 * (f * u) + u
  {
  }

  /** The lower neighbour is closer only at a power of two: the significand is at most
      the hidden bit. */
  predicate BoundaryRange(f: nat, closer: bool) {
    0 < f < 0x20_0000_0000_0000 && (closer ==> 1 < f <= 0x10_0000_0000_0000)
  }

  /** A 53-bit significand needs at most 17 digits: the interval is wider than one unit
      of the 17th place. */
  lemma SeventeenDigits(f: nat, u: nat, t: nat, closer: bool, d: nat, even: bool)
    requires BoundaryRange(f, closer) && 0 < t * u
    requires var c, h := if closer then 4 else 2, if closer then 2 else 1;
             RoomPlus(t * (c * (f * u)), t * (h * u), d, even)
    ensures d < Pow(10, 16) * (t * u + t * ((if closer then 2 else 1) * u))
  {
    var c, h := if closer then 4 else 2, if closer then 2 else 1;
    var m := t * u;
    assert t * (c * (f * u)) + t * (h * u) == (c * f + h) * m;
    assert t * u + t * (h * u) == (1 + h) * m;
    MulStrict(c * f + h, 10000000000000000 * (1 + h), m);
    MulAssoc(10000000000000000, 1 + h, m);
    Decimal.Pow10Values();
  }

  /** s, with the decimal point after its first point digits, is the shortest decimal
      that reads back as f * 2^e: no decimal with a coarser last place does, and of those
      with the same last place it is the closest, or the even one of the two closest. */
  ghost predicate ShortestDecimal(s: seq<char>, point: int, f: nat, e: int, closer: bool) {
    var x, last := Decimal.DecimalValue(s), point - |s|;
    && |s| > 0 && Decimal.AllDecimal(s) && s[0] != '0'
    && ReadsBack(x, last, f, e, closer)
    && (forall y: int, k: int :: ReadsBack(y, k, f, e, closer) ==> k <= last)
    && (forall y: int :: ReadsBack(y, last, f, e, closer) ==>
          && Error(x, last, f, e) <= Error(y, last, f, e)
          && (y != x && Error(x, last, f, e) == Error(y, last, f, e) ==> x % 2 == 0))
  }

  /** The start values of f * 2^e for the estimated power, times a common factor c, after
      the fixup by t has brought the upper end of the interval to at least 1. */
  ghost predicate FixedUp(t: nat, n: nat, m: nat, p: nat, d: nat, f: nat, e: int, closer: bool, power: int) {
    var u, v, c, h := Upper(e, power), Lower(e, power), if closer then 4 else 2, if closer then 2 else 1;
    && n == t * (c * (f * u)) && m == t * u && p == t * (h * u) && d == c * v
    && t == (if RoomPlus(c * (f * u), h * u, d, f % 2 == 0) then 1 else 10)
  }

  /** After the fixup the ratio meets what the generation of the shortest digits asks. */
  lemma FixedUpInRange(t: nat, n: nat, m: nat, p: nat, d: nat, f: nat, e: int, closer: bool, power: int)
    requires BoundaryRange(f, closer) && EstimatedPower(f, e, power)
    requires FixedUp(t, n, m, p, d, f, e, closer, power)
    ensures 0 < m < n && 0 < p && 0 < d && d < Pow(10, 16) * (m + p)
    ensures if f % 2 == 0 then n + p < 10 * d else n + p <= 10 * d
    ensures RoomPlus(n, p, d, f % 2 == 0)
  {
    hide Pow;
    var u, v, c, h := Upper(e, power), Lower(e, power), if closer then 4 else 2, if closer then 2 else 1;
    StartInRange(f, e, closer, power);
    SeventeenDigits(f, u, t, closer, d, f % 2 == 0);
  }

  /** With its last place at 10^k, a positive decimal in the interval needs 10^k to be at
      most the interval's upper end. */
  lemma CoarseNeeds(x: int, k: int, f: nat, e: int, closer: bool, power: int, r: nat)
    requires 0 < f && k == power + r && ReadsBack(x, k, f, e, closer)
    ensures var top, place := (2 * f + 1) * Upper(e, power), 2 * (Pow(10, r) * Lower(e, power));
            if f % 2 == 0 then place <= top else place < top
  {
    var u, v, w, l, s := Upper(e, power), Lower(e, power), Upper(e, k), Lower(e, k), Pow(10, r);
    var low := if closer then 1 else 2;
    MulPos(4 * f - low, w);
    assert x >= 1 by {
      if x <= 0 {
        MulMono(x, 0, l);
        assert false;
      }
    }
    MulMono(1, x, l);
    Balance(r, 1, e, k, power);
    assert 4 * l <= (4 * f + 2) * w && (f % 2 != 0 ==> 4 * l < (4 * f + 2) * w);
    CoarseEnds(s, u, v, w, l, f);
    ScaleCompare(4 * l, (4 * f + 2) * w, u, w, 2 * (2 * (s * v)), 2 * ((2 * f + 1) * u));
  }

  lemma CoarseEnds(s: int, u: int, v: int, w: int, l: int, f: int)
    requires (s * 1) * w * v == l * u
    ensures (4 * l) * u == w * (2 * (2 * (s * v)))
    ensures ((4 * f + 2) * w) * u == w * (2 * ((2 * f + 1) * u))
  {
    calc {
      (4 * l) * u;
      4 * (l * u);
      4 * ((s * 1) * w * v);
      w * (2 * (2 * (s * v)));
    }
  }

  lemma CoarseConflict(ten: int, s: int, fu: int, u: int, v: int, top: int, h: int, even: bool)
    requires v > 0 && top == 2 * fu + u && (h == 1 || h == 2) && (ten == 1 || ten == 10) && ten <= s
    requires ten == 10 ==> top < 20 * v
    requires ten == 1 ==> !RoomPlus(2 * h * fu, h * u, 2 * h * v, even)
    ensures if even then top < 2 * (s * v) else top <= 2 * (s * v)
  {
    MulMono(ten, s, v);
  }

  /** 10^point, for the point the fixup finds, is beyond the interval: no decimal with
      its last place there or further up reads back. */
  lemma TooCoarse(x: int, k: int, t: nat, n: nat, m: nat, p: nat, d: nat, f: nat, e: int, closer: bool, power: int)
    requires 0 < f && EstimatedPower(f, e, power)
    requires FixedUp(t, n, m, p, d, f, e, closer, power)
    requires k >= (if t == 1 then power + 1 else power)
    ensures !ReadsBack(x, k, f, e, closer)
  {
    if ReadsBack(x, k, f, e, closer) {
      var u, v, r := Upper(e, power), Lower(e, power), k - power;
      CoarseNeeds(x, k, f, e, closer, power, r);
      PowMono(10, if t == 1 then 1 else 0, r);
      TwiceAndOne(f, u);
      CoarseConflict(if t == 1 then 10 else 1, Pow(10, r), f * u, u, v, (2 * f + 1) * u,
                     if closer then 2 else 1, f % 2 == 0);
    }
  }

  /** No decimal with a coarser last place than the generated digits reads back. */
  lemma NotCoarser(x: int, k: int, s: seq<char>, t: nat, n: nat, m: nat, p: nat, d: nat,
                   f: nat, e: int, closer: bool, power: int)
    requires 0 < f && EstimatedPower(f, e, power)
    requires FixedUp(t, n, m, p, d, f, e, closer, power)
    requires ShortestResult(s, n, m, p, d, f % 2 == 0)
    requires k > (if t == 1 then power + 1 else power) - |s|
    ensures !ReadsBack(x, k, f, e, closer)
  {
    var point := if t == 1 then power + 1 else power;
    if k >= point {
      TooCoarse(x, k, t, n, m, p, d, f, e, closer, power);
    } else {
      var j := point - 1 - k;
      assert NoneInInterval(Pow(10, j), n, m, p, d, f % 2 == 0);
      IntervalMeaning(x, j, t, f, e, closer, power, k, f % 2 == 0);
    }
  }

  /** The result of the digit generation on the fixed up start values is the shortest
      decimal for the double. */
  lemma ShortestMeaning(s: seq<char>, t: nat, n: nat, m: nat, p: nat, d: nat, f: nat, e: int, closer: bool, power: int)
    requires BoundaryRange(f, closer) && EstimatedPower(f, e, power)
    requires FixedUp(t, n, m, p, d, f, e, closer, power)
    requires ShortestResult(s, n, m, p, d, f % 2 == 0)
    ensures ShortestDecimal(s, if t == 1 then power + 1 else power, f, e, closer)
  {
    hide Pow;
    var point, even := if t == 1 then power + 1 else power, f % 2 == 0;
    FixedUpInRange(t, n, m, p, d, f, e, closer, power);
    NoLeadingZero(s, n, m, p, d, even);
    IntervalMeaning(Decimal.DecimalValue(s), |s| - 1, t, f, e, closer, power, point - |s|, even);
    forall x: int, k: int | ReadsBack(x, k, f, e, closer)
      ensures k <= point - |s|
    {
      if k > point - |s| {
        NotCoarser(x, k, s, t, n, m, p, d, f, e, closer, power);
      }
    }
    var r, last := Decimal.DecimalValue(s), point - |s|;
    forall y: int | ReadsBack(y, last, f, e, closer)
      ensures Error(r, last, f, e) <= Error(y, last, f, e)
      ensures y != r && Error(r, last, f, e) == Error(y, last, f, e) ==> r % 2 == 0
    {
      IntervalMeaning(y, |s| - 1, t, f, e, closer, power, last, even);
      ErrorMeaning(r, y, |s| - 1, t, f, e, if closer then 4 else 2, power, last);
      ErrorMeaning(y, r, |s| - 1, t, f, e, if closer then 4 else 2, power, last);
    }
  }
}
