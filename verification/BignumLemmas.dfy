// Facts about digit sequences that the in-place loops of the big-number class
// need: one lemma per kind of loop step, stated on snapshots of the buffer.

module BignumLemmas {
  import opened Arith
  import opened Decimal
  import opened Digits

  /** The digit at absolute position i of the number with exponent e: zero outside
      the stored digits. */
  ghost function DigitAt(s: seq<int>, n: nat, e: nat, i: nat): int
    requires n <= |s|
  {
    if e <= i < n + e then s[i - e] else 0
  }

  /** A multiple of a higher weight has a zero digit at position i. */
  lemma HiddenDigit(m: nat, e: nat, i: nat)
    requires i < e
    ensures (m * W(e) / W(i)) % BASE == 0
  {
    var w := W(e - i - 1);
    WAdd(i, e - i);
    assert W(e - i) == BASE * w;
    calc {
      m * W(e);
      m * (W(i) * (BASE * w));
      { MulAssoc(m, W(i), BASE * w); MulAssoc(W(i), m, BASE * w); }
      (m * (BASE * w)) * W(i);
    }
    DivUnique(m * W(e), W(i), m * (BASE * w), 0);
    MulAssoc(m, BASE, w);
    MulAssoc(BASE, m, w);
    AddMultiple(0, m * w);
  }

  /** Every digit of the number is a quotient's remainder. */
  lemma DigitAtDiv(s: seq<int>, n: nat, e: nat, i: nat)
    requires n <= |s| && AllDigits(s, n)
    ensures DigitAt(s, n, e, i) == (Val(s, n, e) / W(i)) % BASE
  {
    var m, v := Num(s, n), Val(s, n, e);
    ValBound(s, n, 0);
    ValBound(s, n, e);
    ValScale(s, n, e);
    if n + e <= i {
      WMono(n + e, i);
      DivUnique(v, W(i), 0, v);
    } else if i < e {
      HiddenDigit(m, e, i);
    } else {
      WAdd(i - e, e);
      DivDiv(v, W(e), W(i - e));
      DivUnique(v, W(e), m, 0);
      NumDigitAt(s, n, i - e);
    }
  }

  /** Going one digit down in a number: the quotient by a weight is the quotient
      by the next weight, times the base, plus the digit. */
  lemma QuotientStep(v: nat, i: nat)
    ensures v / W(i) == BASE * (v / W(i + 1)) + (v / W(i)) % BASE
  {
    DivDiv(v, W(i), BASE);
    DivMod(v / W(i), BASE);
  }

  /** Multiplying digit i by factor with an incoming carry. */
  lemma ScaleStep(s: seq<int>, t: seq<int>, s0: seq<int>, i: nat, factor: nat, c: nat, d: int, c': int)
    requires i < |s| == |t| == |s0| && t == s[i := d]
    requires d + BASE * c' == factor * s0[i] + c
    requires Num(s, i) + c * W(i) == factor * Num(s0, i)
    ensures Num(t, i + 1) + c' * W(i + 1) == factor * Num(s0, i + 1)
  {
    var w, a, x := W(i), s0[i], Num(s0, i);
    ValFrame(s, t, i, 0);
    DigitStep(d, c', factor * a + c, w);
    MulAssoc(factor, a, w);
    assert (factor * a + c) * w == (factor * a) * w + c * w;
    assert factor * (x + a * w) == factor * x + factor * (a * w);
  }

  /** A carry never outgrows the factor. */
  lemma CarryBound(factor: nat, a: int, c: nat, d: int, c': int)
    requires IsDigit(a) && 0 <= d && c <= factor && d + BASE * c' == factor * a + c
    ensures c' <= factor
  {
    MulMono(a, BASE - 1, factor);
    MulCancelLeq(c', factor, BASE);
  }

  /** Appending a carry digit on top. */
  lemma AppendStep(s: seq<int>, t: seq<int>, n: nat, carry: nat, digit: int, rest: nat)
    requires n < |s| == |t| && t == s[n := digit]
    requires digit + BASE * rest == carry
    ensures Num(t, n + 1) + rest * W(n + 1) == Num(s, n) + carry * W(n)
  {
    ValFrame(s, t, n, 0);
    DigitStep(digit, rest, carry, W(n));
  }

  /** Adding digit q of the other number at position k. */
  lemma AddStep(s: seq<int>, t: seq<int>, s0: seq<int>, k: nat, e: nat, q: int, c: int, d: int, c': int)
    requires k < |s| == |t| == |s0| && t == s[k := d]
    requires d + BASE * c' == s0[k] + q + c
    ensures Val(t, k + 1, e) + c' * W(k + 1 + e) - Val(s0, k + 1, e)
         == Val(s, k, e) + c * W(k + e) - Val(s0, k, e) + q * W(k + e)
  {
    var w, a := W(k + e), s0[k];
    ValFrame(s, t, k, e);
    DigitStep(d, c', a + q + c, w);
    assert (a + q + c) * w == a * w + q * w + c * w;
  }

  /** s with every digit from n upwards read as zero. */
  ghost function Extended(s: seq<int>, n: nat): (t: seq<int>)
    requires n <= |s|
    ensures |t| == |s|
    ensures forall i :: 0 <= i < |s| ==> t[i] == if i < n then s[i] else 0
  {
    seq(|s|, i requires 0 <= i < |s| => if i < n then s[i] else 0)
  }

  lemma ExtendedVal(s: seq<int>, n: nat, k: nat, e: nat)
    requires n <= k <= |s|
    ensures Val(Extended(s, n), k, e) == Val(s, n, e)
  {
    ValHighZeros(Extended(s, n), n, k, e);
    ValFrame(s, Extended(s, n), n, e);
  }

  /** Storing z hidden zero digits explicitly keeps the value, the digit range and
      the top digit. */
  lemma AlignResult(s: seq<int>, t: seq<int>, z: nat, n: nat, e: nat)
    requires n <= |s| && n + z <= |t| && AllDigits(s, n)
    requires forall k :: 0 <= k < z ==> t[k] == 0
    requires forall k :: 0 <= k < n ==> t[z + k] == s[k]
    ensures Val(t, n + z, e) == Val(s, n, e + z)
    ensures AllDigits(t, n + z)
    ensures n > 0 ==> t[n + z - 1] == s[n - 1]
  {
    ValShift(s, t, z, n, e);
    forall i | 0 <= i < n + z
      ensures IsDigit(t[i])
    {
      if z <= i {
        assert t[z + (i - z)] == s[i - z];
      }
    }
    if n > 0 {
      assert t[z + (n - 1)] == s[n - 1];
    }
  }

  /** A digit-wise sum that ended with no carry at pos, read off the buffer. */
  lemma AddFinish(s0: seq<int>, n: nat, t: seq<int>, pos: nat, e: nat, r: int, k: nat)
    requires n <= |s0| && pos <= k <= |t| && |t| == |s0| && k == Max(pos, n)
    requires Val(t, pos, e) == Val(Extended(s0, n), pos, e) + r
    requires forall j :: pos <= j < n ==> t[j] == s0[j]
    ensures Val(t, k, e) == Val(s0, n, e) + r
  {
    if pos < n {
      ValHighFrame(t, Extended(s0, n), pos, n, e);
      ExtendedVal(s0, n, n, e);
    } else {
      ExtendedVal(s0, n, pos, e);
    }
  }

  /** The top digit of a sum is non-zero when the operands' top digits are; h is the
      length of the second operand r. */
  lemma SumTop(s: seq<int>, n: nat, e: nat, r: nat, h: nat, t: seq<int>, k: nat)
    requires n <= |s| && k <= |t| && AllDigits(s, n) && AllDigits(t, k)
    requires n > 0 ==> s[n - 1] != 0
    requires h > 0 ==> W(h - 1 + e) <= r
    requires Val(t, k, e) == Val(s, n, e) + r
    requires k == Max(n, h) || (k == Max(n, h) + 1 && t[k - 1] != 0)
    ensures k > 0 ==> t[k - 1] != 0
  {
    if 0 < k == Max(n, h) {
      ValBound(s, n, e);
      if k == n {
        ValTop(s, n, e);
      }
      TopNonZero(t, k, e);
    }
  }

  /** A finished addition: the value is the sum, and the buffer is clamped again. */
  lemma SumResult(s: seq<int>, n: nat, o: seq<int>, m: nat, e: nat, off: nat, t: seq<int>, pos: nat, k: nat)
    requires n <= |s| == |t| && m <= |o| && AllDigits(s, n) && AllDigits(o, m)
    requires n > 0 ==> s[n - 1] != 0
    requires if m > 0 then o[m - 1] != 0 else off == 0
    requires off + m <= pos <= |t| && k == Max(pos, n) && AllDigits(t, pos)
    requires pos <= Max(n, off + m) || (pos == Max(n, off + m) + 1 && t[pos - 1] != 0)
    requires forall j :: pos <= j < n ==> t[j] == s[j]
    requires Val(t, pos, e) == Val(Extended(s, n), pos, e) + Val(o, m, e + off)
    ensures AllDigits(t, k)
    ensures k > 0 ==> t[k - 1] != 0
    ensures Val(t, k, e) == Val(s, n, e) + Val(o, m, e + off)
  {
    assert AllDigits(t, k) by {
      forall i | 0 <= i < k
        ensures IsDigit(t[i])
      {
        if pos <= i {
          assert t[i] == s[i];
        }
      }
    }
    AddFinish(s, n, t, pos, e, Val(o, m, e + off), k);
    ValBound(o, m, e + off);
    if m > 0 {
      ValTop(o, m, e + off);
    }
    SumTop(s, n, e, Val(o, m, e + off), off + m, t, k);
  }

  /** What a 32-bit subtraction leaves of a difference between -2^28 and 2^28: the
      low 28 bits are the digit and the sign bit is the borrow. */
  lemma BorrowDigit(x: int)
    requires -BASE <= x < BASE
    ensures IsDigit(U32(x) % BASE)
    ensures U32(x) / 0x8000_0000 == (if x < 0 then 1 else 0)
    ensures U32(x) % BASE - BASE * (U32(x) / 0x8000_0000) == x
  {
    if x < 0 {
      assert U32(x) == x + TWO32;
      DivUnique(x + TWO32, BASE, 15, x + BASE);
    }
  }

  /** Subtracting p at position k with an incoming borrow c; c' is the outgoing one. */
  lemma SubtractStep(s: seq<int>, t: seq<int>, s0: seq<int>, k: nat, e: nat, p: int, c: int, d: int, c': int)
    requires k < |s| == |t| == |s0| && t == s[k := d]
    requires d - BASE * c' == s0[k] - p - c
    ensures Val(t, k + 1, e) - c' * W(k + 1 + e) - Val(s0, k + 1, e)
         == Val(s, k, e) - c * W(k + e) - Val(s0, k, e) - p * W(k + e)
  {
    var w, a := W(k + e), s0[k];
    ValFrame(s, t, k, e);
    DigitStep(d, -c', a - p - c, w);
    assert (a - p - c) * w == a * w - p * w - c * w;
    assert (-c') * (BASE * w) == -(c' * (BASE * w));
  }

  /** Two clamped numbers in order have their lengths in order. */
  lemma LengthOrder(s: seq<int>, n: nat, e: nat, t: seq<int>, m: nat, f: nat)
    requires n <= |s| && m <= |t| && AllDigits(s, n) && AllDigits(t, m)
    requires m > 0 && t[m - 1] != 0
    requires Val(t, m, f) <= Val(s, n, e)
    ensures m + f <= n + e
  {
    ValBound(s, n, e);
    ValTop(t, m, f);
    WLess(m - 1 + f, n + e);
  }

  /** No borrow is left at the top of a subtraction whose operands are in order. */
  lemma NoBorrowAtTop(s0: seq<int>, t: seq<int>, n: nat, e: nat, r: int, k: nat, borrow: nat)
    requires n <= |s0| && k <= n <= |t| && AllDigits(t, n)
    requires borrow > 0 && r <= Val(s0, n, e)
    requires Val(t, k, e) + r == Val(s0, k, e) + borrow * W(k + e)
    ensures k < n
  {
    if k == n {
      ValBound(t, n, e);
      MulMono(1, borrow, W(k + e));
    }
  }

  /** Splitting d at g, the complement of f: scaling d by f moves its high part past
      the digit. */
  lemma SplitScale(d: nat, f: nat, g: nat, carry: nat)
    requires d < BASE && f * g == BASE && 0 < f && 0 < g && carry < f
    ensures d / g < f
    ensures d * f + carry == (d / g) * BASE + ((d % g) * f + carry)
    ensures 0 <= (d % g) * f + carry < BASE
  {
    var q, r := d / g, d % g;
    assert d == q * g + r;
    MulCancelLess(q, f, g);
    MulAssoc(q, g, f);
    assert g * f == f * g;
    assert (q * g + r) * f == (q * g) * f + r * f;
    MulMono(r + 1, g, f);
    assert (r + 1) * f == r * f + f;
    MulPos(r, f);
  }

  /** Shifting a digit inside a 32-bit word: the bits that leave the digit are the
      next carry, and the incoming carry fills the freed low bits. */
  lemma ShiftDigit(d: int, shift: nat, carry: nat)
    requires IsDigit(d) && shift < BITS && carry < Pow(2, shift)
    ensures IsDigit(U32(U32(d * Pow(2, shift)) + carry) % BASE)
    ensures d / Pow(2, BITS - shift) < Pow(2, shift)
    ensures U32(U32(d * Pow(2, shift)) + carry) % BASE + BASE * (d / Pow(2, BITS - shift))
         == Pow(2, shift) * d + carry
  {
    hide Pow, U32;
    PowAdd(2, shift, BITS - shift);
    Pow2Base();
    ShiftedDigit(d, Pow(2, shift), Pow(2, BITS - shift), carry);
  }

  lemma ShiftedDigit(d: nat, f: nat, g: nat, carry: nat)
    requires d < BASE && f * g == BASE && 0 < f && 0 < g && carry < f
    ensures d / g < f
    ensures IsDigit(U32(U32(d * f) + carry) % BASE)
    ensures U32(U32(d * f) + carry) % BASE + BASE * (d / g) == f * d + carry
  {
    hide U32;
    SplitScale(d, f, g, carry);
    WrapDigit(d * f, carry, d / g, (d % g) * f + carry);
    assert f * d == d * f;
  }

  /** Masking a wrapped 32-bit sum to 28 bits gives the low digit of the true sum. */
  lemma WrapDigit(x: nat, c: nat, q: int, r: int)
    requires x + c == q * BASE + r && 0 <= r < BASE
    ensures U32(U32(x) + c) % BASE == r
  {
    var k := x / TWO32;
    assert x == k * TWO32 + U32(x);
    var y := U32(x) + c;
    var l := y / TWO32;
    assert y == l * TWO32 + U32(y);
    assert U32(y) == (q - 16 * k - 16 * l) * BASE + r;
    DivUnique(U32(y), BASE, q - 16 * k - 16 * l, r);
  }

  /** A finished scaling: the value is multiplied by f, and the top digit is non-zero
      when it was before. */
  lemma ScaleResult(s: seq<int>, n: nat, t: seq<int>, k: nat, e: nat, f: nat)
    requires n <= |s| && n <= k <= |t| && AllDigits(s, n) && AllDigits(t, k) && f >= 1
    requires Num(t, k) == f * Num(s, n)
    requires k == n || t[k - 1] != 0
    ensures Val(t, k, e) == Val(s, n, e) * f
    ensures n > 0 && s[n - 1] != 0 ==> t[k - 1] != 0
  {
    ValScale(s, n, e);
    ValScale(t, k, e);
    Rescale(Num(s, n), Num(t, k), f, W(e));
    if n > 0 && s[n - 1] != 0 && k == n {
      ScaledTop(s, n, f);
      TopNonZero(t, k, 0);
    }
  }

  lemma Rescale(x: int, y: int, f: int, w: int)
    requires y == f * x
    ensures y * w == (x * w) * f
  {
    MulAssoc(f, x, w);
    assert f * (x * w) == (x * w) * f;
  }

  /** A non-zero carry above n digits leaves room for one more digit whenever the
      whole number is below the weight of the capacity. */
  lemma RoomForCarry(s: seq<int>, n: nat, carry: nat, total: int, capacity: nat)
    requires n <= |s| && AllDigits(s, n) && carry > 0
    requires Num(s, n) + carry * W(n) == total < W(capacity)
    ensures n < capacity && W(n) <= total
  {
    ValBound(s, n, 0);
    MulMono(1, carry, W(n));
    WLess(n, capacity);
  }

  lemma ProductFits32(factor: nat, d: int, carry: nat)
    requires IsDigit(d) && factor < TWO32 && carry <= factor
    ensures 0 <= factor * d + carry < TWO64
  {
    MulMono(d, BASE - 1, factor);
    MulPos(factor, d);
  }

  /** The split product of a 64-bit factor with a digit: nothing wraps, and the new
      digit and carry make up the exact sum. The carry can reach the factor itself,
      that is 2^64 - 1, but not more. */
  lemma WideProduct(factor: nat, d: int, carry: nat)
    requires IsDigit(d) && factor < TWO64 && carry <= factor
    ensures var low, high := factor % TWO32, factor / TWO32;
            var tmp := U64(carry % BASE + U64(low * d));
            var newCarry := U64(U64(carry / BASE + tmp / BASE) + U64(U64(high * d) * 16));
            && tmp % BASE + BASE * newCarry == factor * d + carry
            && newCarry <= factor
  {
    var low, high := factor % TWO32, factor / TWO32;
    HalfProduct(low, d);
    HalfProduct(high, d);
    var tmp := carry % BASE + low * d;
    var c' := carry / BASE + tmp / BASE + 16 * (high * d);
    SplitProduct(factor, low, high, d);
    assert tmp % BASE + BASE * c' == factor * d + carry;
    CarryBound(factor, d, carry, tmp % BASE, c');
  }

  lemma HalfProduct(h: nat, d: int)
    requires IsDigit(d) && h < TWO32
    ensures 0 <= h * d <= (TWO32 - 1) * (BASE - 1)
  {
    MulMono(d, BASE - 1, h);
    MulMono(h, TWO32 - 1, BASE - 1);
    MulPos(h, d);
  }

  lemma SplitProduct(factor: int, low: int, high: int, d: int)
    requires factor == high * TWO32 + low
    ensures factor * d == BASE * (16 * (high * d)) + low * d
  {
    MulAssoc(high, TWO32, d);
    MulAssoc(TWO32, high, d);
    assert (high * TWO32 + low) * d == (high * TWO32) * d + low * d;
  }

  lemma ScaledTop(s: seq<int>, n: nat, f: nat)
    requires 0 < n <= |s| && AllDigits(s, n) && s[n - 1] != 0 && f >= 1
    ensures W(n - 1) <= f * Num(s, n)
    ensures Num(s, n) * f == f * Num(s, n)
  {
    ValTop(s, n, 0);
    MulMono(1, f, Num(s, n));
  }

  /** Raising the exponent by k multiplies by 2^(28k). */
  lemma ExponentVal(s: seq<int>, n: nat, e: nat, k: nat)
    requires n <= |s|
    ensures Val(s, n, e + k) == Val(s, n, e) * Pow(2, BITS * k)
  {
    ValScale(s, n, e);
    ValScale(s, n, e + k);
    WAdd(e, k);
    WPow2(k);
    MulAssoc(Num(s, n), W(e), W(k));
  }

  lemma ShiftSplit(v: int, shift: nat)
    ensures (v * Pow(2, BITS * (shift / BITS))) * Pow(2, shift % BITS) == v * Pow(2, shift)
  {
    var a, b := BITS * (shift / BITS), shift % BITS;
    PowAdd(2, a, b);
    MulAssoc(v, Pow(2, a), Pow(2, b));
  }

  /** A clamped number reaches the weight of its top position. */
  lemma ClampedRange(s: seq<int>, n: nat, e: nat)
    requires n <= |s| && AllDigits(s, n)
    requires if n == 0 then e == 0 else s[n - 1] != 0
    ensures 0 <= Val(s, n, e) < W(n + e)
    ensures n + e > 0 ==> n > 0 && W(n + e - 1) <= Val(s, n, e)
  {
    ValBound(s, n, e);
    if n > 0 {
      ValTop(s, n, e);
    }
  }

  /** A number below the weight of position i has no quotient by it; dividing by
      weight 1 gives the number back. */
  lemma QuotientZero(v: nat, i: nat)
    requires v < W(i)
    ensures v / W(i) == 0
  {
    DivUnique(v, W(i), 0, v);
  }

  /** The quotient of a number by the weight of a position at or below its exponent
      is exact. */
  lemma QuotientExact(s: seq<int>, n: nat, e: nat, i: nat)
    requires n <= |s| && i <= e
    ensures Val(s, n, e) == (Val(s, n, e) / W(i)) * W(i)
  {
    ValScale(s, n, e);
    WAdd(e - i, i);
    var m := Num(s, n);
    MulAssoc(m, W(e - i), W(i));
    DivUnique(Val(s, n, e), W(i), m * W(e - i), 0);
  }

  /** A number lies between its quotient's multiples of the weight. */
  lemma QuotientRange(v: nat, i: nat)
    ensures (v / W(i)) * W(i) <= v < (v / W(i)) * W(i) + W(i)
  {
    DivMod(v, W(i));
  }

  /** Quotients in order put the numbers in order. */
  lemma QuotientOrder(a: nat, b: nat, i: nat)
    requires a / W(i) < b / W(i)
    ensures a < b
  {
    QuotientRange(a, i);
    QuotientRange(b, i);
    Distribute(a / W(i), 1, W(i));
    MulMono(a / W(i) + 1, b / W(i), W(i));
  }

  /** Comparing a sum of two numbers with a third through their quotients. */
  lemma QuotientSumLess(a: nat, b: nat, c: nat, i: nat)
    requires c / W(i) < a / W(i) + b / W(i)
    ensures c < a + b
  {
    QuotientRange(a, i);
    QuotientRange(b, i);
    QuotientRange(c, i);
    SumOfMultiples(a / W(i), b / W(i), c / W(i), W(i));
  }

  lemma QuotientSumMore(a: nat, b: nat, c: nat, i: nat)
    requires c / W(i) >= a / W(i) + b / W(i) + 2
    ensures c > a + b
  {
    QuotientRange(a, i);
    QuotientRange(b, i);
    QuotientRange(c, i);
    SumOfMultiples(a / W(i), b / W(i), c / W(i), W(i));
  }

  /** The order of x + y and z carries over to their multiples. */
  lemma SumOfMultiples(x: int, y: int, z: int, w: nat)
    ensures z < x + y ==> z * w + w <= x * w + y * w
    ensures z == x + y ==> z * w == x * w + y * w
    ensures z > x + y ==> x * w + y * w + w <= z * w
    ensures z >= x + y + 2 ==> x * w + y * w + 2 * w <= z * w
  {
    Distribute(x, y, w);
    Distribute(z, 1, w);
    Distribute(x + y, 1, w);
    Distribute(x + y, 2, w);
    if z < x + y {
      MulMono(z + 1, x + y, w);
    } else if z >= x + y + 2 {
      MulMono(x + y + 2, z, w);
    }
  }

  /** One digit of the three-way comparison: the running difference of quotients, and
      what it decides when it is negative or above 1. */
  lemma PlusStep(a: nat, b: nat, c: nat, i: nat, borrow: int)
    requires BASE * (c / W(i + 1) - a / W(i + 1) - b / W(i + 1)) == borrow
    ensures var d := (c / W(i)) % BASE + borrow - (a / W(i)) % BASE - (b / W(i)) % BASE;
            && d == c / W(i) - a / W(i) - b / W(i)
            && (d < 0 ==> c < a + b)
            && (d > 1 ==> c > a + b)
  {
    QuotientStep(a, i);
    QuotientStep(b, i);
    QuotientStep(c, i);
    if c / W(i) < a / W(i) + b / W(i) {
      QuotientSumLess(a, b, c, i);
    } else if c / W(i) >= a / W(i) + b / W(i) + 2 {
      QuotientSumMore(a, b, c, i);
    }
  }

  /** When the quotients are exact their differences decide the comparison. */
  lemma QuotientSumExact(a: nat, b: nat, c: nat, i: nat)
    requires a == (a / W(i)) * W(i) && b == (b / W(i)) * W(i) && c == (c / W(i)) * W(i)
    ensures c / W(i) == a / W(i) + b / W(i) ==> c == a + b
    ensures c / W(i) > a / W(i) + b / W(i) ==> c > a + b
  {
    SumOfMultiples(a / W(i), b / W(i), c / W(i), W(i));
  }

  /** The square of a number, read off the digits of its square. */
  lemma SquareVal(s: seq<int>, s0: seq<int>, n: nat, e: nat, t: seq<int>)
    requires n <= |s| && n <= |s0| && 2 * n <= |t|
    requires forall i :: 0 <= i < n ==> s[i] == s0[i]
    requires Num(t, 2 * n) == Num(s, n) * Num(s, n)
    ensures Val(t, 2 * n, e * 2) == Val(s0, n, e) * Val(s0, n, e)
  {
    ValFrame(s, s0, n, 0);
    ValScale(s0, n, e);
    ValScale(t, 2 * n, e * 2);
    WAdd(e, e);
    SquareProduct(Num(s0, n), W(e));
  }

  lemma SquareProduct(x: int, w: int)
    ensures (x * x) * (w * w) == (x * w) * (x * w)
  {
    MulAssoc(x, x, w * w);
    MulAssoc(x, w, w);
    MulAssoc(x, w, x * w);
    MulAssoc(w, x, w);
  }

  /** Removing a word from a digit: the new digit and the borrow, which counts the
      word's high part and whether the digit went below zero. */
  lemma RemoveWord(x: int, remove: nat, factor: nat)
    requires IsDigit(x) && remove <= factor * BASE && factor < BASE
    ensures var difference := U32(x - remove % BASE);
            var newBorrow := U32(difference / 0x8000_0000 + remove / BASE);
            && IsDigit(difference % BASE)
            && difference % BASE - BASE * newBorrow == x - remove
            && newBorrow <= factor
  {
    SplitWord(remove);
    BorrowDigit(x - remove % BASE);
    BorrowBound(factor, remove, x);
  }

  /** The word to remove is exact, and at most factor whole digits. */
  lemma RemoveFits(factor: nat, o: int, borrow: nat)
    requires IsDigit(o) && factor < BASE && borrow <= factor
    ensures U64(borrow + U64(factor * o)) == borrow + factor * o
    ensures 0 <= borrow + factor * o <= factor * BASE
  {
    ProductFits32(factor, o, borrow);
    MulPos(factor, o);
    MulMono(o, BASE - 1, factor);
    assert factor * (BASE - 1) == factor * BASE - factor;
  }

  /** The borrow of a scaled subtraction never outgrows the factor. */
  lemma BorrowBound(factor: nat, remove: nat, a: int)
    requires 0 <= a && remove <= factor * BASE
    ensures (if a - remove % BASE < 0 then 1 else 0) + remove / BASE <= factor
  {
    DivMod(remove, BASE);
    MulCancelLeq(remove / BASE, factor, BASE);
    if remove % BASE > 0 {
      MulCancelLess(remove / BASE, factor, BASE);
    }
  }

  lemma ScaledDigit(factor: int, o: seq<int>, i: nat, e: nat)
    requires i < |o|
    ensures factor * Val(o, i + 1, e) == factor * Val(o, i, e) + (factor * o[i]) * W(i + e)
  {
    MulAssoc(factor, o[i], W(i + e));
    var x, y := Val(o, i, e), o[i] * W(i + e);
    assert factor * (x + y) == factor * x + factor * y;
  }

  /** Subtracting top-digit multiples of a shorter number never reaches zero, and
      leaves at least the distance from the shorter number to the next weight. */
  lemma TopStep(v: nat, d: nat, o: nat, len: nat, top: nat)
    requires d >= 1 && len <= top && d * W(top) <= v && o < W(len)
    ensures d * o <= v && v - d * o > 0 && v - d * o + o >= W(len)
  {
    WMono(len, top);
    MulMono(W(len), W(top), d);
    ScaledGap(W(len), o, d);
  }

  lemma ScaledGap(x: nat, o: nat, d: nat)
    requires d >= 1 && o < x
    ensures d * o + (x - o) <= d * x
  {
    MulMono(1, d, x - o);
    assert d * (x - o) == d * x - d * o;
  }

  lemma QuotientAtLeast(q: nat, o: nat, v: nat)
    requires o > 0 && q * o <= v
    ensures q <= v / o
  {
    DivMod(v, o);
    assert (v / o + 1) * o == (v / o) * o + o;
    MulCancelLess(q, v / o + 1, o);
  }

  /** When the reduced number got shorter than the divisor, the divisor's top digit is
      the largest digit and has others below it. */
  lemma ShrunkDivisor(v: nat, o: seq<int>, m: nat, f: nat, bl: nat)
    requires 0 < m <= |o| && AllDigits(o, m)
    requires bl < m + f && v < W(bl)
    requires v + Val(o, m, f) >= W(m + f)
    ensures m > 1 && o[m - 1] == BASE - 1
  {
    var w := W(m - 1 + f);
    WMono(bl, m - 1 + f);
    ValTop(o, m, f);
    assert Val(o, m, f) > (BASE - 1) * w;
    MulCancelLess(BASE - 1, o[m - 1] + 1, w);
    SingleDigitVal(o, f);
  }

  /** The quotient estimate from the top digits is never too large; when one more
      multiple of the divisor's top digit exceeds the number's, it is exact. */
  lemma EstimateQuotient(v: nat, o: nat, tb: nat, ob: nat, w: nat)
    requires tb * w <= v < (tb + 1) * w
    requires ob * w <= o < (ob + 1) * w
    ensures (tb / (ob + 1)) * o <= v
    ensures ob * (tb / (ob + 1) + 1) > tb ==> v < (tb / (ob + 1)) * o + o
  {
    var est := tb / (ob + 1);
    DivMod(tb, ob + 1);
    MulMono(o, (ob + 1) * w, est);
    MulAssoc(est, ob + 1, w);
    MulMono(est * (ob + 1), tb, w);
    if ob * (est + 1) > tb {
      MulMono(tb + 1, ob * (est + 1), w);
      assert ob * (est + 1) == (est + 1) * ob;
      MulAssoc(est + 1, ob, w);
      MulMono(ob * w, o, est + 1);
      Distribute(est, 1, o);
    }
  }

  /** Dividing by a single stored digit replaces the top digit by its remainder. */
  lemma SingleDigit(s: seq<int>, n: nat, e: nat, t: seq<int>, ob: int, o: nat, q: nat, r: int)
    requires 0 < n <= |s| == |t| && AllDigits(s, n) && 0 < ob < BASE && o == ob * W(n - 1 + e)
    requires s[n - 1] == q * ob + r && 0 <= r < ob
    requires t == s[n - 1 := r]
    ensures AllDigits(t, n)
    ensures Val(s, n, e) == q * o + Val(t, n, e)
    ensures 0 <= Val(t, n, e) < o
  {
    ValFrame(s, t, n - 1, e);
    ValBound(s, n - 1, e);
    RemainderOnTop(Val(s, n - 1, e), s[n - 1], ob, q, r, W(n - 1 + e));
  }

  lemma RemainderOnTop(low: nat, d: int, ob: int, q: int, r: int, w: nat)
    requires d == q * ob + r && 0 <= r < ob && low < w
    ensures low + d * w == q * (ob * w) + (low + r * w)
    ensures 0 <= low + r * w < ob * w
  {
    MulAssoc(q, ob, w);
    Distribute(q * ob, r, w);
    MulMono(r + 1, ob, w);
    Distribute(r, 1, w);
    MulPos(r, w);
  }

  /** The estimate's word arithmetic stays within 32 bits. */
  lemma EstimateWord(tb: int, ob: int)
    requires IsDigit(tb) && IsDigit(ob)
    ensures var est := tb / (ob + 1);
            0 <= est < BASE && U32(ob * (est + 1)) == ob * (est + 1)
  {
    var est := tb / (ob + 1);
    DivMod(tb, ob + 1);
    assert est * (ob + 1) == est * ob + est;
    MulPos(est, ob);
    assert ob * (est + 1) == est * ob + ob;
  }

  /** One round of the length reduction: the top digit's multiple fits, the quotient
      found so far fits with it, and the new number keeps its distance. */
  lemma ReduceStep(v: nat, d: nat, o: nat, len: nat, top: nat, q: nat, v0: nat)
    requires d >= 1 && 0 < o < W(len) && len <= top && d * W(top) <= v
    requires q * o + v == v0
    ensures d * o <= v && d <= d * o && v - d * o > 0 && v - d * o + o >= W(len)
    ensures (q + d) * o + (v - d * o) == v0 && q + d <= v0 / o
  {
    TopStep(v, d, o, len, top);
    Distribute(q, d, o);
    QuotientAtLeast(q + d, o, v0);
    MulMono(1, o, d);
  }

  lemma RemainderWord(a: int, b: int)
    requires IsDigit(a) && IsDigit(b) && b > 0
    ensures U32(a - b * (a / b)) == a % b
  {
    DivMod(a, b);
    assert b * (a / b) == (a / b) * b;
  }

  /** q multiples found so far and d more fit the dividend, so q + d is at most the
      quotient. */
  lemma QuotientGrows(q: nat, d: nat, o: nat, rest: int, v0: nat)
    requires o > 0 && rest >= 0 && q * o + (d * o + rest) == v0
    ensures (q + d) * o + rest == v0
    ensures q + d <= v0 / o
  {
    Distribute(q, d, o);
    QuotientAtLeast(q + d, o, v0);
  }

  lemma SingleDigitVal(s: seq<int>, e: nat)
    requires |s| >= 1
    ensures Val(s, 1, e) == s[0] * W(e)
  {
    assert Val(s, 1, e) == Val(s, 0, e) + s[0] * W(e);
  }

  /** More digits never make a decimal number smaller. */
  lemma PrefixAtMost(s: seq<char>, t: seq<char>)
    requires AllDecimal(s) && AllDecimal(t)
    ensures 0 <= DecimalValue(s) * Pow(10, |t|) <= DecimalValue(s + t)
    ensures DecimalValue(s) <= DecimalValue(s + t)
  {
    hide DecimalValue;
    DecimalBound(s);
    DecimalBound(t);
    DecimalAppend(s, t);
    PowMono(10, 0, |t|);
    MulMono(1, Pow(10, |t|), DecimalValue(s));
    MulPos(DecimalValue(s), Pow(10, |t|));
  }

  /** A decimal prefix leaves room for n more digits when the whole number is below the
      weight of position cap. */
  lemma AppendRoom(value: seq<char>, pos: nat, n: nat, cap: nat)
    requires AllDecimal(value) && pos + n <= |value| && DecimalValue(value) < W(cap)
    ensures 0 <= DecimalValue(value[..pos]) * Pow(5, n) < W(cap)
    ensures 0 <= DecimalValue(value[..pos]) * Pow(10, n) < W(cap)
  {
    hide DecimalValue, Pow, W;
    var v := DecimalValue(value[..pos]);
    DecimalBound(value[..pos]);
    assert value[..pos] + value[pos..pos + n] == value[..pos + n];
    PrefixAtMost(value[..pos], value[pos..pos + n]);
    assert value[..pos + n] + value[pos + n..] == value;
    PrefixAtMost(value[..pos + n], value[pos + n..]);
    PowBase(5, 2, n);
    MulMono(1, Pow(2, n), Pow(5, n));
    MulMono(Pow(5, n), Pow(10, n), v);
    MulPos(v, Pow(5, n));
  }

  // Two assertions of the division. The first says that the divisor's top digit is at
  // least 2^28 / 16 when the dividend is longer; the second that both numbers have the
  // same length after the reduction. Neither follows from a quotient below 2^16.

  /** The top digit of a number of n digits. */
  ghost function TopDigit(o: nat, n: nat): nat
    requires n > 0
  {
    o / W(n - 1)
  }

  /** With a quotient below 16 a divisor shorter than the dividend has a large top digit. */
  lemma LargeTopDigit(v: nat, o: nat, n: nat)
    requires n > 0 && 0 < o < W(n) <= v && v / o < 16
    ensures TopDigit(o, n) >= BASE / 16
  {
    DivMod(v, o);
    MulMono(v / o, 15, o);
    DivMod(o, W(n - 1));
    LargeQuotient(o / W(n - 1), W(n - 1), o % W(n - 1), o);
  }

  lemma LargeQuotient(q: int, w: int, r: int, o: int)
    requires w > 0 && o == q * w + r && r < w && 16 * o > BASE * w
    ensures q >= BASE / 16
  {
    if q < BASE / 16 {
      MulMono(q + 1, BASE / 16, w);
    }
  }

  /** 2^28 divided by 2^13: the quotient is below 2^16, the top digit is small. */
  lemma SmallTopDigit()
    ensures W(1) / 0x2000 < 0x10000 && 0x2000 < W(1) && TopDigit(0x2000, 1) < BASE / 16
  {
    assert W(0) == 1 && W(1) == BASE;
  }

  /** A divisor of at most n digits, shorter than the dividend, with a quotient below q. */
  ghost predicate ShorterDivisor(v: nat, o: nat, n: nat, q: nat) {
    n > 0 && 0 < o < W(n) <= v && v / o < q
  }

  /** A divisor of n digits meets the first assertion with every longer dividend of a
      quotient below 2^16 exactly when its top digit is large, or there is no such dividend
      because the least longer one has a larger quotient already. */
  lemma TopDigitExact(o: nat, n: nat)
    requires n > 0 && W(n - 1) <= o < W(n)
    ensures (forall v: nat :: ShorterDivisor(v, o, n, 0x10000) ==> TopDigit(o, n) >= BASE / 16)
            <==> TopDigit(o, n) >= BASE / 16 || W(n) / o >= 0x10000
  {
    if W(n) / o < 0x10000 {
      assert ShorterDivisor(W(n), o, n, 0x10000);
    } else {
      forall v: nat
        ensures !ShorterDivisor(v, o, n, 0x10000)
      {
        if W(n) <= v {
          QuotientMono(W(n), v, o);
        }
      }
    }
  }

  lemma QuotientMono(a: nat, b: nat, d: nat)
    requires a <= b && d > 0
    ensures a / d <= b / d
  {
    DivMod(a, d);
    DivMod(b, d);
    if b / d < a / d {
      MulMono(b / d + 1, a / d, d);
    }
  }

  /** Of all bounds on the quotient exactly those up to 16 imply the first assertion. */
  lemma TopDigitBound(q: nat)
    ensures (forall v: nat, o: nat, n: nat :: ShorterDivisor(v, o, n, q) ==> TopDigit(o, n) >= BASE / 16)
            <==> q <= 16
  {
    if q <= 16 {
      forall v: nat, o: nat, n: nat | ShorterDivisor(v, o, n, q)
        ensures TopDigit(o, n) >= BASE / 16
      {
        LargeTopDigit(v, o, n);
      }
    } else {
      assert W(0) == 1 && W(1) == BASE;
      DivUnique(BASE, BASE / 16 - 1, 16, 16);
      assert ShorterDivisor(BASE, BASE / 16 - 1, 1, q);
      assert TopDigit(BASE / 16 - 1, 1) == BASE / 16 - 1;
    }
  }

  /** What the reduction by a divisor of n digits leaves: one more multiple of the divisor
      would reach the next weight again. */
  ghost predicate Reduced(v: nat, o: nat, n: nat) {
    W(n) <= v + o
  }

  /** The reduced dividend always has n digits too exactly when the divisor is at most the
      largest digit at its top. Otherwise the next weight, divided by it once, does not. */
  lemma ReductionExact(o: nat, n: nat)
    requires n > 0 && W(n - 1) <= o < W(n)
    ensures (forall v: nat :: Reduced(v, o, n) ==> W(n - 1) <= v) <==> o <= (BASE - 1) * W(n - 1)
    ensures o > (BASE - 1) * W(n - 1) ==> W(n) / o == 1 && 0 < W(n) - o < W(n - 1)
  {
    var w := W(n - 1);
    assert W(n) == BASE * w;
    if o > (BASE - 1) * w {
      assert Reduced(W(n) - o, o, n);
      DivUnique(W(n), o, 1, W(n) - o);
    }
  }

  /** 2^56 divided by 2^56 - 1: removing the multiple of the top digit leaves 1, which is
      shorter than the divisor. */
  lemma ReductionLosesLength()
    ensures var v, o, n := W(2), W(2) - 1, 2;
            W(n - 1) <= o < W(n) <= v && v / o == 1 && v - (v / W(n)) * o < W(n - 1)
  {
    assert W(0) == 1 && W(1) == BASE && W(2) == BASE * BASE;
    DivUnique(W(2), W(2) - 1, 1, 1);
    DivUnique(W(2), W(2), 1, 0);
  }
}
