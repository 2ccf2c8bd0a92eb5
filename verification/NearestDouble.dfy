// Reading back as IEEE 754 defines it: a decimal is read as the double, or the float, nearest
// to it, and half way between two as the one with the even significand.

module NearestNumber {
  import opened Arith
  import Decimal
  import opened Rounding
  import opened Shortest

  datatype Format = Double | Single

  /** The hidden bit of the significand. */
  function Hidden(m: Format): (n: nat)
    ensures n > 0
  {
    if m.Double? then 0x10_0000_0000_0000 else 0x80_0000
  }

  /** The exponent of the denormals. */
  function Least(m: Format): (e: int)
    ensures e <= 0
  {
    if m.Double? then -1074 else -149
  }

  /** The significand fills its bits, or the number is denormal or zero. Exponents are not
      bounded above: what is nearest to one of those beyond is too large for the format. */
  predicate IsNumber(m: Format, g: nat, h: int) {
    g < 2 * Hidden(m) && h >= Least(m) && (g >= Hidden(m) || h == Least(m))
  }

  /** 2^h in a unit that makes it, and 10^k, natural numbers. */
  function Place(m: Format, h: int, k: int): (t: nat)
    requires h >= Least(m)
    ensures t > 0
  {
    MulPos(Pow(2, h - Least(m)), Pow(10, Positive(-k)));
    Pow(2, h - Least(m)) * Pow(10, Positive(-k))
  }

  /** 10^k in that unit. */
  function TenPlace(m: Format, k: int): nat {
    Pow(2, -Least(m)) * Pow(10, Positive(k))
  }

  /** a is closer to d than b is, or just as close when that is enough. */
  predicate Prefers(d: int, a: nat, b: nat, enough: bool) {
    Distance(d, a) < Distance(d, b) || (enough && Distance(d, a) == Distance(d, b))
  }

  /** f * 2^e is the number of the format that x * 10^k is rounded to. */
  ghost predicate Nearest(m: Format, x: int, k: int, f: nat, e: int)
    requires e >= Least(m)
  {
    forall g: nat, h: int :: IsNumber(m, g, h) && (g, h) != (f, e) ==>
      Prefers(x * TenPlace(m, k), f * Place(m, e, k), g * Place(m, h, k), f % 2 == 0)
  }

  /** The lower neighbour is half a unit away at a power of two, unless it is denormal. */
  predicate LowerCloser(m: Format, f: nat, e: int) {
    f == Hidden(m) && e > Least(m)
  }

  // Neighbours.

  lemma PlaceUp(m: Format, e: int, h: int, k: int)
    requires Least(m) <= e < h
    ensures Place(m, h, k) == Pow(2, h - e) * Place(m, e, k) && Pow(2, h - e) >= 2
  {
    PowAdd(2, h - e, e - Least(m));
    MulAssoc(Pow(2, h - e), Pow(2, e - Least(m)), Pow(10, Positive(-k)));
    assert Pow(2, h - e) == 2 * Pow(2, h - e - 1);
  }

  /** No double is between f * 2^e and its neighbours, one unit above, one or half a unit
      below. */
  lemma Gaps(m: Format, f: nat, e: int, g: nat, h: int, k: int)
    requires IsNumber(m, f, e) && IsNumber(m, g, h) && (g, h) != (f, e)
    ensures var t, a, b := Place(m, e, k), f * Place(m, e, k), g * Place(m, h, k);
            b >= a + t || 2 * b <= 2 * a - (if LowerCloser(m, f, e) then 1 else 2) * t
  {
    var t, r := Place(m, e, k), Place(m, h, k);
    hide Place, Pow, Hidden, Least;
    if h == e {
      Beside(f, t, g);
    } else if h > e {
      PlaceUp(m, e, h, k);
      Above(Hidden(m), f, t, g, r, Pow(2, h - e));
    } else {
      PlaceUp(m, h, e, k);
      Below(Hidden(m), f, t, g, r, Pow(2, e - h));
    }
  }

  lemma Beside(f: nat, t: nat, g: nat)
    requires f != g
    ensures g * t >= f * t + t || 2 * (g * t) <= 2 * (f * t) - 2 * t
  {
    if g > f {
      MulMono(f + 1, g, t);
    } else {
      MulMono(g + 1, f, t);
    }
  }

  lemma Above(n: nat, f: nat, t: nat, g: nat, r: nat, p: nat)
    requires f < 2 * n && g >= n && p >= 2 && r == p * t
    ensures g * r >= f * t + t
  {
    MulMono(2, p, t);
    MulMono(2 * t, r, g);
    MulMono(n, g, 2 * t);
    MulMono(f + 1, 2 * n, t);
    assert n * (2 * t) == (2 * n) * t;
  }

  lemma Below(n: nat, f: nat, t: nat, g: nat, r: nat, p: nat)
    requires g < 2 * n && f >= n && p >= 2 && t == p * r
    ensures 2 * (g * r) <= 2 * (f * t) - (if f == n then 1 else 2) * t
  {
    var low := if f == n then 1 else 2;
    MulMono(2, p, r);
    MulMono(2 * r, t, g);
    MulMono(g, 2 * f - low, t);
    assert (2 * f - low) * t == 2 * (f * t) - low * t;
  }

  // The interval.

  lemma Units(m: Format, x: int, k: int, e: int)
    requires e >= Least(m)
    ensures var c := Pow(2, -Least(m) - Positive(-e));
            c > 0 && Upper(e, k) * c == Place(m, e, k) && (x * Lower(e, k)) * c == x * TenPlace(m, k)
  {
    hide Least;
    var n, c := Positive(-e), Pow(2, -Least(m) - Positive(-e));
    PowAdd(2, Positive(e), -Least(m) - n);
    PowAdd(2, n, -Least(m) - n);
    Swapped(Pow(2, Positive(e)), Pow(10, Positive(-k)), c);
    Swapped(Pow(2, n), Pow(10, Positive(k)), c);
    MulAssoc(x, Lower(e, k), c);
  }

  lemma Swapped(a: int, b: int, c: int)
    ensures (a * b) * c == (a * c) * b
  {
  }

  /** Reading back in the common unit. */
  lemma Ends(m: Format, x: int, k: int, f: nat, e: int, closer: bool)
    requires e >= Least(m)
    ensures var d, t, a, low := x * TenPlace(m, k), Place(m, e, k), f * Place(m, e, k), if closer then 1 else 2;
            ReadsBack(x, k, f, e, closer)
            <==> if f % 2 == 0 then 4 * a - low * t <= 4 * d <= 4 * a + 2 * t
                 else 4 * a - low * t < 4 * d < 4 * a + 2 * t
  {
    hide Place, TenPlace, Upper, Lower, Pow, Least;
    var u, y, t, d, low := Upper(e, k), x * Lower(e, k), Place(m, e, k), x * TenPlace(m, k), if closer then 1 else 2;
    Units(m, x, k, e);
    var c := Pow(2, -Least(m) - Positive(-e));
    End(4 * f - low, u, c, y, t, d);
    End(4 * f + 2, u, c, y, t, d);
    Quarters(f, low, t);
  }

  lemma Quarters(f: nat, low: nat, t: nat)
    ensures (4 * f - low) * t == 4 * (f * t) - low * t && (4 * f + 2) * t == 4 * (f * t) + 2 * t
  {
  }

  lemma End(n: int, u: int, c: int, y: int, t: int, d: int)
    requires c > 0 && u * c == t && y * c == d
    ensures n * u <= 4 * y <==> n * t <= 4 * d
    ensures n * u < 4 * y <==> n * t < 4 * d
    ensures 4 * y <= n * u <==> 4 * d <= n * t
    ensures 4 * y < n * u <==> 4 * d < n * t
  {
    MulAssoc(n, u, c);
    assert (4 * y) * c == 4 * d;
    ScaleCompare(n * u, 4 * y, c, 1, n * t, 4 * d);
    ScaleCompare(4 * y, n * u, c, 1, 4 * d, n * t);
  }

  /** What is in the interval prefers the number in its middle to everything from its
      neighbours on. */
  lemma Inside(d: int, a: nat, b: nat, t: nat, low: nat, even: bool)
    requires t > 0 && (low == 1 || low == 2) && (b >= a + t || 2 * b <= 2 * a - low * t)
    requires if even then 4 * a - low * t <= 4 * d <= 4 * a + 2 * t else 4 * a - low * t < 4 * d < 4 * a + 2 * t
    ensures Prefers(d, a, b, even)
  {
  }

  /** What prefers a number to both neighbours is in its interval. */
  lemma Preferred(d: int, a: nat, t: nat, low: nat, even: bool, above: nat, below: nat)
    requires t > 0 && (low == 1 || low == 2) && above == a + t && 2 * below == 2 * a - low * t
    requires Prefers(d, a, above, even) && Prefers(d, a, below, even)
    ensures if even then 4 * a - low * t <= 4 * d <= 4 * a + 2 * t else 4 * a - low * t < 4 * d < 4 * a + 2 * t
  {
  }

  /** The neighbours are of the same format. */
  lemma NextUp(m: Format, f: nat, e: int, k: int) returns (g: nat, h: int)
    requires IsNumber(m, f, e)
    ensures IsNumber(m, g, h) && (g, h) != (f, e) && g * Place(m, h, k) == f * Place(m, e, k) + Place(m, e, k)
  {
    hide Place, Hidden, Least;
    g, h := f + 1, e;
    if g == 2 * Hidden(m) {
      g, h := Hidden(m), e + 1;
      PlaceUp(m, e, h, k);
      assert Pow(2, 1) == 2 * Pow(2, 0);
      assert g * (2 * Place(m, e, k)) == (2 * g) * Place(m, e, k);
    }
  }

  lemma NextDown(m: Format, f: nat, e: int, k: int) returns (g: nat, h: int)
    requires IsNumber(m, f, e) && f > 0
    ensures IsNumber(m, g, h) && (g, h) != (f, e)
    ensures 2 * (g * Place(m, h, k))
            == 2 * (f * Place(m, e, k)) - (if LowerCloser(m, f, e) then 1 else 2) * Place(m, e, k)
  {
    hide Place, Hidden, Least;
    g, h := f - 1, e;
    if LowerCloser(m, f, e) {
      g, h := 2 * f - 1, e - 1;
      PlaceUp(m, h, e, k);
      assert Pow(2, 1) == 2 * Pow(2, 0);
      assert 2 * (g * Place(m, h, k)) == (2 * f - 1) * (2 * Place(m, h, k));
    }
  }

  lemma ReadsNearest(m: Format, x: int, k: int, f: nat, e: int)
    requires IsNumber(m, f, e) && ReadsBack(x, k, f, e, LowerCloser(m, f, e))
    ensures Nearest(m, x, k, f, e)
  {
    hide Place, TenPlace, ReadsBack, LowerCloser, Prefers, Hidden, Least;
    Ends(m, x, k, f, e, LowerCloser(m, f, e));
    forall g: nat, h: int | IsNumber(m, g, h) && (g, h) != (f, e)
      ensures Prefers(x * TenPlace(m, k), f * Place(m, e, k), g * Place(m, h, k), f % 2 == 0)
    {
      Gaps(m, f, e, g, h, k);
      Inside(x * TenPlace(m, k), f * Place(m, e, k), g * Place(m, h, k), Place(m, e, k),
             if LowerCloser(m, f, e) then 1 else 2, f % 2 == 0);
    }
  }

  lemma NearestReads(m: Format, x: int, k: int, f: nat, e: int)
    requires IsNumber(m, f, e) && f > 0 && Nearest(m, x, k, f, e)
    ensures ReadsBack(x, k, f, e, LowerCloser(m, f, e))
  {
    hide Place, TenPlace, ReadsBack, LowerCloser, Prefers, Hidden, Least;
    Ends(m, x, k, f, e, LowerCloser(m, f, e));
    var g, h := NextUp(m, f, e, k);
    var i, j := NextDown(m, f, e, k);
    Preferred(x * TenPlace(m, k), f * Place(m, e, k), Place(m, e, k), if LowerCloser(m, f, e) then 1 else 2,
              f % 2 == 0, g * Place(m, h, k), i * Place(m, j, k));
  }

  /** A decimal reads back as a number, by the interval that the digit generation keeps to,
      exactly if that is the nearest of all numbers of the format. */
  lemma ReadsBackNearest(m: Format, x: int, k: int, f: nat, e: int)
    requires IsNumber(m, f, e) && f > 0
    ensures ReadsBack(x, k, f, e, LowerCloser(m, f, e)) <==> Nearest(m, x, k, f, e)
  {
    hide Nearest, ReadsBack, LowerCloser;
    if ReadsBack(x, k, f, e, LowerCloser(m, f, e)) {
      ReadsNearest(m, x, k, f, e);
    }
    if Nearest(m, x, k, f, e) {
      NearestReads(m, x, k, f, e);
    }
  }

  // One number for each decimal.

  /** Of a number and the next one, one has an odd significand. */
  lemma OddNext(m: Format, f: nat, e: int, g: nat, h: int, k: int)
    requires IsNumber(m, f, e) && IsNumber(m, g, h) && g * Place(m, h, k) == f * Place(m, e, k) + Place(m, e, k)
    ensures f % 2 == 1 || g % 2 == 1
  {
    var t, r := Place(m, e, k), Place(m, h, k);
    hide Place, Hidden, Least, Pow;
    if h == e {
      NextBeside(f, t, g);
    } else if h > e {
      PlaceUp(m, e, h, k);
      LastAbove(Hidden(m), f, t, g, r, Pow(2, h - e));
    } else {
      PlaceUp(m, h, e, k);
      NotAbove(Hidden(m), f, t, g, r, Pow(2, e - h));
    }
  }

  lemma NotAbove(n: nat, f: nat, t: nat, g: nat, r: nat, p: nat)
    requires g < 2 * n && f >= n && p >= 2 && t == p * r
    ensures g * r <= f * t
  {
    Below(n, f, t, g, r, p);
  }

  lemma NextBeside(f: nat, t: nat, g: nat)
    requires t > 0 && g * t == f * t + t
    ensures g == f + 1
  {
    assert (f + 1) * t == f * t + t;
    MulCancelLeq(g, f + 1, t);
    MulCancelLeq(f + 1, g, t);
  }

  lemma LastAbove(n: nat, f: nat, t: nat, g: nat, r: nat, p: nat)
    requires f < 2 * n && g >= n && p >= 2 && r == p * t && t > 0 && g * r == f * t + t
    ensures f == 2 * n - 1
  {
    MulMono(2, p, t);
    MulMono(2 * t, r, g);
    MulMono(n, g, 2 * t);
    assert n * (2 * t) == (2 * n) * t;
    MulCancelLeq(2 * n, f + 1, t);
  }

  lemma NotBoth(m: Format, x: int, k: int, f: nat, e: int, g: nat, h: int)
    requires IsNumber(m, f, e) && IsNumber(m, g, h) && f * Place(m, e, k) < g * Place(m, h, k)
    requires Nearest(m, x, k, f, e)
    ensures !Nearest(m, x, k, g, h)
  {
    hide Place, TenPlace, Hidden, Least;
    if Nearest(m, x, k, g, h) {
      var i, j := NextUp(m, f, e, k);
      Gaps(m, f, e, g, h, k);
      if g * Place(m, h, k) == f * Place(m, e, k) + Place(m, e, k) {
        OddNext(m, f, e, g, h, k);
      }
    }
  }

  /** No decimal has two nearest numbers. */
  lemma NearestUnique(m: Format, x: int, k: int, f: nat, e: int, g: nat, h: int)
    requires IsNumber(m, f, e) && IsNumber(m, g, h) && Nearest(m, x, k, f, e) && Nearest(m, x, k, g, h)
    ensures f == g && e == h
  {
    hide Place, Nearest, Hidden, Least;
    if (g, h) != (f, e) {
      Gaps(m, f, e, g, h, k);
      if f * Place(m, e, k) < g * Place(m, h, k) {
        NotBoth(m, x, k, f, e, g, h);
      } else {
        NotBoth(m, x, k, g, h, f, e);
      }
    }
  }

  /** What is printed in the shortest form is read as the number it was printed for, and
      as no other. */
  lemma PrintedReadsBack(m: Format, s: seq<char>, point: int, f: nat, e: int, g: nat, h: int)
    requires IsNumber(m, f, e) && f > 0 && IsNumber(m, g, h) && ShortestDecimal(s, point, f, e, LowerCloser(m, f, e))
    ensures Nearest(m, Decimal.DecimalValue(s), point - |s|, g, h) <==> g == f && h == e
  {
    hide Nearest, ReadsBack, LowerCloser;
    var x, k := Decimal.DecimalValue(s), point - |s|;
    ReadsBackNearest(m, x, k, f, e);
    if Nearest(m, x, k, g, h) {
      NearestUnique(m, x, k, f, e, g, h);
    }
  }

  /** Different numbers are not printed alike. */
  lemma PrintedApart(m: Format, s: seq<char>, point: int, f: nat, e: int, g: nat, h: int)
    requires IsNumber(m, f, e) && f > 0 && ShortestDecimal(s, point, f, e, LowerCloser(m, f, e))
    requires IsNumber(m, g, h) && g > 0 && ShortestDecimal(s, point, g, h, LowerCloser(m, g, h))
    ensures f == g && e == h
  {
    hide Nearest, ReadsBack, LowerCloser, ShortestDecimal;
    PrintedReadsBack(m, s, point, f, e, g, h);
    PrintedReadsBack(m, s, point, g, h, g, h);
  }
}
