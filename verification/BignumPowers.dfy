// Binary exponentiation: the bits of an exponent from the top, the powers they build
// up, and the room the squares need in the buffer.

module PowerSteps {
  import opened Arith
  import opened Digits

  /** What is left of a positive number when its factors of two are removed. */
  function OddPart(n: nat): (m: nat)
    requires n > 0
    ensures 0 < m <= n && m % 2 == 1
  {
    if n % 2 == 1 then n else OddPart(n / 2)
  }

  /** How often two divides a positive number. */
  function Twos(n: nat): (t: nat)
    requires n > 0
  {
    if n % 2 == 1 then 0 else 1 + Twos(n / 2)
  }

  /** The number of binary digits. */
  function BitSize(n: nat): nat {
    if n == 0 then 0 else 1 + BitSize(n / 2)
  }

  lemma {:induction false} OddTwos(n: nat)
    requires n > 0
    ensures n == OddPart(n) * Pow(2, Twos(n))
  {
    if n % 2 == 0 {
      OddTwos(n / 2);
      MulAssoc(OddPart(n), 2, Pow(2, Twos(n / 2)));
      MulAssoc(2, OddPart(n), Pow(2, Twos(n / 2)));
    }
  }

  lemma {:induction false} TwosBound(n: nat, k: nat)
    requires 0 < n < Pow(2, k)
    ensures Twos(n) < k
  {
    if n % 2 == 0 {
      TwosBound(n / 2, k - 1);
    }
  }

  lemma {:induction false} BitSizeBound(n: nat)
    ensures n < Pow(2, BitSize(n))
    ensures n > 0 ==> Pow(2, BitSize(n) - 1) <= n
  {
    if n > 0 {
      BitSizeBound(n / 2);
    }
  }

  lemma BitSize16(n: nat)
    requires 0 < n < 0x10000
    ensures 1 <= BitSize(n) <= 16
  {
    BitSizeBound(n);
    Pow2_16();
    PowLess(2, BitSize(n) - 1, 16);
  }

  lemma Pow2_4()
    ensures Pow(2, 4) == 16
  {
  }

  lemma Pow2_16()
    ensures Pow(2, 16) == 0x10000 && Pow(2, 32) == TWO32 && Pow(2, 64) == TWO64
  {
    hide Pow;
    Pow2_4();
    PowAdd(2, 4, 4);
    PowAdd(2, 8, 8);
    PowAdd(2, 16, 16);
    PowAdd(2, 32, 32);
  }

  /** The single bit below a bit position; 0 below position 0. */
  function Mask(k: nat): nat {
    if k == 0 then 0 else Pow(2, k - 1)
  }

  lemma MaskHalf(k: nat)
    requires k > 0
    ensures Mask(k) > 0 && Mask(k) / 2 == Mask(k - 1)
  {
    if k == 1 {
      assert Pow(2, 0) == 1;
    }
  }

  /** The bits of the exponent from position k upwards. */
  function Prefix(e: nat, k: nat): nat {
    e / Pow(2, k)
  }

  /** The exponent's bits above position k - 1 are those above k and the bit between. */
  lemma BitStep(e: nat, k: nat)
    requires k > 0
    ensures Prefix(e, k - 1) == 2 * Prefix(e, k) + (e / Mask(k)) % 2
  {
    DivDiv(e, Pow(2, k - 1), 2);
  }

  /** Squaring doubles the exponent; one more factor adds the bit. */
  lemma SquareStep(b: nat, x: nat, y: nat, bit: nat)
    requires y == 2 * x + bit && bit <= 1
    ensures Pow(b, y) == (Pow(b, x) * Pow(b, x)) * (if bit == 1 then b else 1)
  {
    PowAdd(b, x, x);
    if bit == 1 {
      assert Pow(b, y) == b * Pow(b, 2 * x);
    }
  }

  /** A prefix of the exponent is no larger than the exponent. */
  lemma PrefixPower(b: nat, e: nat, k: nat)
    requires b > 0
    ensures Prefix(e, k) <= e
    ensures Pow(b, Prefix(e, k)) <= Pow(b, e)
  {
    var p := Pow(2, k);
    DivMod(e, p);
    MulMono(1, p, e / p);
    PowMono(b, e / p, e);
  }

  /** The digits that b^e needs at most; the source reserves one more. */
  function PowerDigits(b: nat, e: nat): nat {
    BitSize(b) * e / BITS + 1
  }

  /** b^e fits the number of digits reserved for it. */
  lemma PowerFits(b: nat, e: nat)
    ensures e > 0 ==> Pow(b, e) < W(PowerDigits(b, e))
  {
    if e > 0 {
      var n := BitSize(b);
      BitSizeBound(b);
      PowStrictBase(b, Pow(2, n), e);
      PowMul(2, n, e);
      var f := n * e;
      PowMono(2, f, BITS * (f / BITS + 1));
      WPow2(f / BITS + 1);
    }
  }

  lemma {:induction false} PowStrictBase(a: nat, b: nat, e: nat)
    requires a < b && e > 0
    ensures Pow(a, e) < Pow(b, e)
  {
    if e == 1 {
      assert Pow(a, 1) == a * Pow(a, 0) && Pow(b, 1) == b * Pow(b, 0);
    } else {
      PowStrictBase(a, b, e - 1);
      MulMono(a, b, Pow(a, e - 1));
      MulStrict(Pow(a, e - 1), Pow(b, e - 1), b);
    }
  }

  /** The square of a number of n digits needs 2n digits; when the square is below the
      weight of position p, 2n is at most p + 1. */
  lemma SquareRoom(n: nat, v: nat, p: nat)
    requires n > 0 ==> W(n - 1) <= v
    requires v * v < W(p)
    ensures 2 * n <= p + 1
  {
    if n > 0 {
      WAdd(n - 1, n - 1);
      MulMono(W(n - 1), v, W(n - 1));
      MulMono(W(n - 1), v, v);
      WLess(2 * (n - 1), p);
    }
  }

  /** Putting the stripped factors of two back. */
  lemma ShiftBack(base: nat, e: nat)
    requires base > 0
    ensures Pow(OddPart(base), e) * Pow(2, Twos(base) * e) == Pow(base, e)
  {
    OddTwos(base);
    PowBase(OddPart(base), Pow(2, Twos(base)), e);
    PowMul(2, Twos(base), e);
  }

  /** Strips the factors of two. */
  method StripTwos(base: nat) returns (odd: nat, shifts: nat)
    requires 0 < base
    ensures odd == OddPart(base) && shifts == Twos(base)
  {
    odd, shifts := base, 0;
    while odd % 2 == 0
      invariant odd > 0 && OddPart(odd) == OddPart(base) && shifts + Twos(odd) == Twos(base)
      decreases odd
    {
      odd := odd / 2;
      shifts := shifts + 1;
    }
  }

  method CountBits(n: nat) returns (bitSize: nat)
    ensures bitSize == BitSize(n)
  {
    bitSize := 0;
    var rest := n;
    while rest != 0
      invariant 0 <= rest && bitSize + BitSize(rest) == BitSize(n)
      decreases rest
    {
      rest := rest / 2;
      bitSize := bitSize + 1;
    }
  }

  /** The mask for the bit below the exponent's top bit, and that bit's position. */
  method StartMask(e: nat) returns (mask: nat, ghost k: nat)
    requires e > 0
    ensures mask == Mask(k) && Prefix(e, k) == 1
  {
    mask := 1;
    ghost var j := 0;
    while e >= mask
      invariant mask == Pow(2, j) && (j > 0 ==> Pow(2, j - 1) <= e)
      decreases e + 1 - mask
    {
      mask := mask * 2;
      j := j + 1;
    }
    k := j - 1;
    DivUnique(e, Pow(2, k), 1, e - Pow(2, k));
    mask := mask / 4;
    if k > 0 {
      assert Pow(2, j) == 2 * Pow(2, k) && Pow(2, k) == 2 * Pow(2, k - 1);
    }
  }

  /** The part of the exponentiation that fits 64 bits. A factor that would overflow is
      left to the caller, and then no bit is processed after it. */
  method Power64(b: nat, bitSize: nat, e: nat, mask: nat, ghost k: nat)
    returns (value: nat, delayed: bool, rest: nat, ghost j: nat)
    requires 0 < b < 0x10000 && bitSize == BitSize(b)
    requires mask == Mask(k) && Prefix(e, k) == 1
    ensures value < TWO64 && rest == Mask(j)
    ensures value * (if delayed then b else 1) == Pow(b, Prefix(e, j))
  {
    hide Prefix;
    BitSize16(b);
    BitSizeBound(b);
    Pow2_16();
    value, delayed, rest, j := b, false, mask, k;
    assert Pow(b, 1) == b * Pow(b, 0);
    while rest != 0 && value <= 0xFFFF_FFFF
      invariant value < TWO64 && rest == Mask(j)
      invariant delayed ==> value > 0xFFFF_FFFF
      invariant value * (if delayed then b else 1) == Pow(b, Prefix(e, j))
      decreases j
    {
      ghost var x := Prefix(e, j);
      BitStep(e, j);
      SquareStep(b, x, Prefix(e, j - 1), (e / rest) % 2);
      SquareFits(value);
      value := U64(value * value);
      if (e / rest) % 2 != 0 {
        var highBitsZero := value / Pow(2, 64 - bitSize) == 0;
        HighBits(value, b, bitSize);
        if highBitsZero {
          value := U64(value * b);
        } else {
          delayed := true;
        }
      }
      MaskHalf(j);
      rest := rest / 2;
      j := j - 1;
    }
  }

  lemma SquareFits(v: nat)
    requires v <= 0xFFFF_FFFF
    ensures v * v < TWO64
  {
    MulMono(v, 0xFFFF_FFFF, v);
    MulMono(v, 0xFFFF_FFFF, 0xFFFF_FFFF);
  }

  /** The test on the high bits decides whether one more factor fits. */
  lemma HighBits(v: nat, b: nat, n: nat)
    requires 1 <= n <= 16 && b < Pow(2, n)
    ensures Pow(2, 64 - n) > 0
    ensures v / Pow(2, 64 - n) == 0 ==> v * b < TWO64
    ensures v / Pow(2, 64 - n) != 0 ==> v > 0xFFFF_FFFF
  {
    Pow2_16();
    PowAdd(2, 64 - n, n);
    PowMono(2, 48, 64 - n);
    PowStrict(2, 32, 48);
    HighPart(v, b, Pow(2, 64 - n), Pow(2, n));
  }

  lemma HighPart(v: nat, b: nat, p: nat, q: nat)
    requires p > 0xFFFF_FFFF && p * q == TWO64 && b < q
    ensures v / p == 0 ==> v * b < TWO64
    ensures v / p != 0 ==> v > 0xFFFF_FFFF
  {
    DivMod(v, p);
    if v / p == 0 {
      MulMono(v, p, b);
      MulStrict(b, q, p);
    } else {
      MulMono(1, v / p, p);
    }
  }

  const FIVE27: nat := 0x6765_c793_fa10_079d
  const FIVE13: nat := 1220703125
  const FIVE1_TO_12: seq<nat> :=
    [5, 25, 125, 625, 3125, 15625, 78125, 390625, 1953125, 9765625, 48828125, 244140625]

  lemma FivePowers()
    ensures Pow(5, 13) == FIVE13 && Pow(5, 27) == FIVE27
    ensures FIVE13 < TWO32 && FIVE27 < TWO64
  {
    FiveTable(12);
    PowAdd(5, 12, 1);
    assert Pow(5, 1) == 5 * Pow(5, 0);
    PowAdd(5, 13, 13);
    PowAdd(5, 26, 1);
  }

  lemma FiveTable(k: nat)
    requires 1 <= k <= 12
    ensures FIVE1_TO_12[k - 1] == Pow(5, k) < TWO32
  {
    assert Pow(5, 0) == 1;
    assert Pow(5, 1) == 5;
    assert Pow(5, 2) == 25;
    assert Pow(5, 3) == 125;
    assert Pow(5, 4) == 625;
    assert Pow(5, 5) == 3125;
    assert Pow(5, 6) == 15625;
    assert Pow(5, 7) == 78125;
    assert Pow(5, 8) == 390625;
    assert Pow(5, 9) == 1953125;
    assert Pow(5, 10) == 9765625;
    assert Pow(5, 11) == 48828125;
    assert Pow(5, 12) == 244140625;
  }

  /** Multiplying a power of five into the mantissa moves it out of the remaining
      exponent and stays below the capacity. */
  lemma FiveStep(m: nat, remaining: nat, k: nat, f: nat, total: int, capacity: nat)
    requires k <= remaining && f == Pow(5, k) && m * Pow(5, remaining) == total
    ensures (m * f) * Pow(5, remaining - k) == total
    ensures total < W(capacity) ==> m * f < W(capacity)
  {
    PowAdd(5, k, remaining - k);
    MulAssoc(m, f, Pow(5, remaining - k));
    MulPos(m, f);
    MulMono(1, Pow(5, remaining - k), m * f);
  }

  lemma TenFromFive(m: nat, w: nat, power: nat)
    ensures ((m * Pow(5, power)) * w) * Pow(2, power) == (m * w) * Pow(10, power)
  {
    var f, t := Pow(5, power), Pow(2, power);
    PowBase(5, 2, power);
    MulAssoc(m, f, w);
    MulAssoc(m, w, f);
    assert f * w == w * f;
    MulAssoc(m * w, f, t);
  }

  /** A 64-bit value times a 16-bit factor fits the buffer. */
  lemma WideRoom(v: nat, b: nat, cap: nat)
    requires v < TWO64 && b < 0x10000 && cap >= 3
    ensures v * b < W(cap)
  {
    MulMono(v, TWO64, b);
    MulMono(b, 0x10000, TWO64);
    assert W(0) == 1 && W(1) == BASE && W(2) == BASE * W(1) && W(3) == BASE * W(2);
    WMono(3, cap);
  }

  /** Processing one more bit of the exponent: the square, and the square times the base
      when the bit is set, stay within the power's length. */
  lemma SquareFitsPower(b: nat, e: nat, k: nat, v: nat)
    requires b > 0 && e > 0 && k > 0 && v == Pow(b, Prefix(e, k))
    ensures var p := PowerDigits(b, e);
            && v * v < W(p)
            && ((e / Mask(k)) % 2 != 0 ==> (v * v) * b < W(p) && (v * v) * b == Pow(b, Prefix(e, k - 1)))
            && ((e / Mask(k)) % 2 == 0 ==> v * v == Pow(b, Prefix(e, k - 1)))
  {
    MaskHalf(k);
    BitStep(e, k);
    SquareStep(b, Prefix(e, k), Prefix(e, k - 1), (e / Mask(k)) % 2);
    PrefixPower(b, e, k - 1);
    PowerFits(b, e);
    MulMono(1, b, v * v);
  }

  /** The final shift keeps the exponent in range. */
  lemma ShiftRoom(base: nat, e: nat, cap: nat)
    requires 0 < base < 0x10000 && cap <= 128
    requires PowerDigits(OddPart(base), e) < cap
    ensures (Twos(base) * e) / BITS < 0x8000
  {
    Pow2_16();
    TwosBound(base, 16);
    BitSize16(OddPart(base));
    MulMono(1, BitSize(OddPart(base)), e);
    MulMono(Twos(base), 16, e);
  }
}
