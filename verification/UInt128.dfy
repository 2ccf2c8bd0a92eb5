// A 128-bit unsigned number held in two 64-bit words.

module WideInt {
  import opened Arith

  const TWO128: nat := TWO64 * TWO64

  lemma {:induction false} PowTwoSplit(m: nat, n: nat)
    requires m <= n
    ensures Pow(2, n) == Pow(2, m) * Pow(2, n - m)
  {
    PowAdd(2, m, n - m);
  }

  lemma PowTwoWords()
    ensures Pow(2, 32) == TWO32 && Pow(2, 64) == TWO64 && Pow(2, 128) == TWO128
  {
    hide Pow;
    SmallPow();
    PowAdd(2, 8, 8);
    PowAdd(2, 16, 16);
    PowAdd(2, 32, 32);
    PowAdd(2, 64, 64);
  }

  lemma SmallPow()
    ensures Pow(2, 0) == 1 && Pow(2, 8) == 256
  {
  }

  /** One limb of a multiplication by a word: the 32 bits that stay and the carry. */
  method MultiplyLimb(limb: nat, multiplicand: nat, carry: nat) returns (part: nat, next: nat)
    requires limb < TWO32 && multiplicand < TWO32 && carry < TWO32
    ensures part < TWO32 && next < TWO32
    ensures part + TWO32 * next == limb * multiplicand + carry
  {
    MulMono(limb, TWO32 - 1, multiplicand);
    var accumulator := U64(carry + U64(limb * multiplicand));
    part := accumulator % TWO32;
    next := accumulator / TWO32;
  }

  /** The four partial products make up the product. */
  lemma FourLimbs(l0: int, l1: int, h0: int, h1: int, m: int)
    ensures (l0 + TWO32 * l1 + TWO64 * h0 + TWO64 * TWO32 * h1) * m
         == l0 * m + TWO32 * (l1 * m) + TWO64 * (h0 * m) + TWO64 * TWO32 * (h1 * m)
  {
    Distribute(l0, TWO32 * l1, m);
    Distribute(l0 + TWO32 * l1, TWO64 * h0, m);
    Distribute(l0 + TWO32 * l1 + TWO64 * h0, TWO64 * TWO32 * h1, m);
    MulAssoc(TWO32, l1, m);
    MulAssoc(TWO64, h0, m);
    MulAssoc(TWO64 * TWO32, h1, m);
  }

  /** Both words shifted right by less than a word. */
  lemma ShiftRightWords(high: nat, low: nat, f: nat, g: nat)
    requires f > 0 && g > 0 && f * g == TWO64 && high < TWO64 && low < TWO64
    ensures (high * TWO64 + low) / f == (high / f) * TWO64 + ((high % f) * g + low / f)
    ensures (high % f) * g + low / f < TWO64
    ensures U64(high * g) == (high % f) * g
  {
    DivMod(high, f);
    DivMod(low, f);
    var q, r := high / f, high % f;
    assert high * g == q * TWO64 + r * g by {
      Distribute(q * f, r, g);
      MulAssoc(q, f, g);
    }
    assert high * TWO64 == (high * g) * f by {
      MulAssoc(high, g, f);
    }
    MulMono(r, f - 1, g);
    MulSub(f, g);
    DivLess(low, f, g);
    DivUnique(high * g, TWO64, q, r * g);
    MulAssoc(q, TWO64, f);
    Distribute(q * TWO64, r * g, f);
    Distribute(high * g, low / f, f);
    DivUnique(high * TWO64 + low, f, high * g + low / f, low % f);
  }

  lemma MulSub(f: int, g: int)
    ensures (f - 1) * g == f * g - g
  {
  }

  lemma DivLess(x: nat, f: nat, g: nat)
    requires f > 0 && x < f * g
    ensures x / f < g
  {
    DivMod(x, f);
    assert (x / f) * f < g * f;
    MulCancelLess(x / f, g, f);
  }

  /** Both words shifted left by less than a word, the top bits dropped. */
  lemma ShiftLeftWords(high: nat, low: nat, f: nat, g: nat)
    requires f > 0 && g > 0 && f * g == TWO64 && high < TWO64 && low < TWO64
    ensures ((high * TWO64 + low) * f) % TWO128 == (U64(high * f) + low / g) * TWO64 + U64(low * f)
    ensures U64(high * f) + low / g < TWO64
  {
    DivMod(high, g);
    DivMod(low, g);
    LeftWord(high, high / g, high % g, f, g);
    LeftWord(low, low / g, low % g, f, g);
    DivLess(low, g, f);
    Distribute(high * TWO64, low, f);
    MulAssoc(TWO64, high, f);
    LeftSum((high * TWO64 + low) * f, high / g, (high % g) * f, low / g, (low % g) * f);
  }

  /** One word shifted left: what is dropped and what stays. */
  lemma LeftWord(x: nat, q: nat, r: nat, f: nat, g: nat)
    requires f * g == TWO64 && x == q * g + r && r < g && f > 0
    ensures x * f == q * TWO64 + r * f && 0 <= r * f <= TWO64 - f && U64(x * f) == r * f
  {
    Distribute(q * g, r, f);
    MulAssoc(q, g, f);
    MulMono(r, g - 1, f);
    MulSub(g, f);
    MulPos(r, f);
    DivUnique(x * f, TWO64, q, r * f);
  }

  lemma LeftSum(x: int, q: nat, rf: nat, a: nat, bf: nat)
    requires x == (q * TWO64 + rf) * TWO64 + (a * TWO64 + bf) && rf + a < TWO64 && bf < TWO64
    ensures x % TWO128 == (rf + a) * TWO64 + bf
  {
    DivUnique(x, TWO128, q, (rf + a) * TWO64 + bf);
  }

  class UInt128 {
    var high: nat
    var low: nat

    ghost predicate Valid()
      reads this
    {
      high < TWO64 && low < TWO64
    }

    ghost function Value(): (v: nat)
      reads this
    {
      high * TWO64 + low
    }

    constructor (high: nat, low: nat)
      requires high < TWO64 && low < TWO64
      ensures Valid() && this.high == high && this.low == low
    {
      this.high, this.low := high, low;
    }

    /** Multiplies limb by limb; the product must fit. */
    method Multiply(multiplicand: nat)
      requires Valid() && multiplicand < TWO32 && Value() * multiplicand < TWO128
      modifies this
      ensures Valid() && Value() == old(Value()) * multiplicand
    {
      FourLimbs(low % TWO32, low / TWO32, high % TWO32, high / TWO32, multiplicand);
      var part, carry := MultiplyLimb(low % TWO32, multiplicand, 0);
      var part1, carry1 := MultiplyLimb(low / TWO32, multiplicand, carry);
      low := U64(U64(part1 * TWO32) + part);
      var part2, carry2 := MultiplyLimb(high % TWO32, multiplicand, carry1);
      var part3, carry3 := MultiplyLimb(high / TWO32, multiplicand, carry2);
      high := U64(U64(part3 * TWO32) + part2);
      assert carry3 == 0;
    }

    /** Shifts right by a positive amount, left by a negative one. */
    method Shift(amount: int)
      requires Valid() && -64 <= amount <= 64
      modifies this
      ensures Valid()
      ensures amount >= 0 ==> Value() == old(Value()) / Pow(2, amount)
      ensures amount <= 0 ==> Value() == (old(Value()) * Pow(2, -amount)) % TWO128
    {
      hide Pow;
      PowTwoWords();
      SmallPow();
      if amount == 0 {
        return;
      } else if amount == -64 {
        ShiftLeftWord(high, low);
        high := low;
        low := 0;
      } else if amount == 64 {
        ShiftRightWord(high, low);
        low := high;
        high := 0;
      } else if amount <= 0 {
        PowTwoSplit(-amount, 64);
        ShiftLeft(Pow(2, -amount), Pow(2, 64 + amount));
      } else {
        PowTwoSplit(amount, 64);
        ShiftRight(Pow(2, amount), Pow(2, 64 - amount));
      }
    }

    /** Shifts left by less than a word; f is the factor and g the rest of the word. */
    method ShiftLeft(f: nat, g: nat)
      requires Valid() && f > 0 && g > 0 && f * g == TWO64
      modifies this
      ensures Valid() && Value() == (old(Value()) * f) % TWO128
    {
      ShiftLeftWords(high, low, f, g);
      high := U64(high * f);
      high := U64(high + low / g);
      low := U64(low * f);
    }

    method ShiftRight(f: nat, g: nat)
      requires Valid() && f > 0 && g > 0 && f * g == TWO64
      modifies this
      ensures Valid() && Value() == old(Value()) / f
    {
      ShiftRightWords(high, low, f, g);
      DivLess(low, f, g);
      low := low / f;
      low := U64(low + U64(high * g));
      high := high / f;
    }

    /** Divides by a power of two that leaves a quotient of at most 31 bits: returns the
        quotient and keeps the remainder. */
    method DivModPowerOf2(power: nat) returns (result: nat)
      requires Valid() && 0 < power < 128 && Value() / Pow(2, power) < 0x8000_0000
      modifies this
      ensures Valid() && result == old(Value()) / Pow(2, power) && Value() == old(Value()) % Pow(2, power)
    {
      hide Pow;
      PowTwoWords();
      if power >= 64 {
        PowTwoSplit(64, power);
        result := DivModHigh(Pow(2, power - 64));
      } else {
        PowTwoSplit(power, 64);
        result := DivModLow(Pow(2, power), Pow(2, 64 - power));
      }
    }

    method DivModHigh(f: nat) returns (result: nat)
      requires Valid() && f > 0
      modifies this
      ensures Valid() && result == old(Value()) / (TWO64 * f) && Value() == old(Value()) % (TWO64 * f)
    {
      HighQuotient(high, low, f);
      result := high / f;
      high := U64(high - U64(result * f));
    }

    method DivModLow(f: nat, g: nat) returns (result: nat)
      requires Valid() && f > 0 && g > 0 && f * g == TWO64 && Value() / f < 0x8000_0000
      modifies this
      ensures Valid() && result == old(Value()) / f && Value() == old(Value()) % f
    {
      LowQuotient(high, low, f, g);
      var partLow := low / f;
      var partHigh := U64(high * g);
      result := U64(partLow + partHigh);
      high := 0;
      low := U64(low - U64(partLow * f));
    }

    predicate IsZero()
      reads this
      ensures IsZero() == (Value() == 0)
    {
      high == 0 && low == 0
    }

    method BitAt(position: nat) returns (bit: nat)
      requires Valid() && position < 128
      ensures bit == (Value() / Pow(2, position)) % 2
    {
      hide Pow;
      PowTwoWords();
      if position >= 64 {
        PowTwoSplit(64, position);
        bit := HighBit(high, low, Pow(2, position - 64));
      } else {
        PowTwoSplit(position, 64);
        PowTwoSplit(1, 64 - position);
        TwoIsPow();
        bit := LowBit(high, low, Pow(2, position), Pow(2, 63 - position));
      }
    }
  }

  method HighBit(high: nat, low: nat, f: nat) returns (bit: nat)
    requires high < TWO64 && low < TWO64 && f > 0
    ensures bit == ((high * TWO64 + low) / (TWO64 * f)) % 2
  {
    HighQuotient(high, low, f);
    bit := U32(high / f) % 2;
    KeepParity(high / f);
  }

  method LowBit(high: nat, low: nat, f: nat, half: nat) returns (bit: nat)
    requires high < TWO64 && low < TWO64 && f > 0 && half > 0 && f * (2 * half) == TWO64
    ensures bit == ((high * TWO64 + low) / f) % 2
  {
    ShiftRightWords(high, low, f, 2 * half);
    EvenHigh(high / f, high % f, half, low / f);
    bit := U32(low / f) % 2;
    KeepParity(low / f);
  }

  /** A narrower register keeps the lowest bit. */
  lemma KeepParity(x: nat)
    ensures U32(x) % 2 == x % 2
  {
    DivMod(x, TWO32);
    SameParity(x / TWO32, x % TWO32, x);
  }

  lemma SameParity(q: int, r: int, x: int)
    requires x == q * TWO32 + r
    ensures x % 2 == r % 2
  {
    assert x == 2 * (q * 0x8000_0000) + r;
  }

  lemma TwoIsPow()
    ensures Pow(2, 1) == 2
  {
  }

  lemma EvenHigh(q: nat, r: nat, half: nat, x: nat)
    ensures (q * TWO64 + (r * (2 * half) + x)) % 2 == x % 2
  {
    var k := q * 0x8000_0000_0000_0000 + r * half;
    assert q * TWO64 + r * (2 * half) == 2 * k by {
      DoubleFactor(r, half);
    }
    EvenPart(k, x);
  }

  lemma DoubleFactor(r: nat, half: nat)
    ensures r * (2 * half) == 2 * (r * half)
  {
  }

  lemma EvenPart(k: nat, x: nat)
    ensures (2 * k + x) % 2 == x % 2
  {
  }

  lemma ShiftLeftWord(high: nat, low: nat)
    requires high < TWO64 && low < TWO64
    ensures ((high * TWO64 + low) * TWO64) % TWO128 == low * TWO64
  {
    DivUnique((high * TWO64 + low) * TWO64, TWO128, high, low * TWO64);
  }

  lemma ShiftRightWord(high: nat, low: nat)
    requires high < TWO64 && low < TWO64
    ensures (high * TWO64 + low) / TWO64 == high
  {
    DivUnique(high * TWO64 + low, TWO64, high, low);
  }

  lemma HighQuotient(high: nat, low: nat, f: nat)
    requires f > 0 && high < TWO64 && low < TWO64
    ensures TWO64 * f > 0 && (high * TWO64 + low) / (TWO64 * f) == high / f
    ensures (high * TWO64 + low) % (TWO64 * f) == (high - (high / f) * f) * TWO64 + low
    ensures 0 <= (high / f) * f <= high
  {
    DivMod(high, f);
    MulPos(high / f, f);
    MulPos(TWO64, f);
    HighParts(high * TWO64 + low, high, low, high / f, high % f, f);
  }

  lemma HighParts(x: nat, high: nat, low: nat, q: nat, r: nat, f: nat)
    requires high == q * f + r && r < f && x == high * TWO64 + low && low < TWO64 && 0 < TWO64 * f
    ensures x / (TWO64 * f) == q && x % (TWO64 * f) == r * TWO64 + low
  {
    MulAssoc(TWO64, f, q);
    assert q * (TWO64 * f) == TWO64 * (q * f);
    DivUnique(x, TWO64 * f, q, r * TWO64 + low);
  }

  lemma LowQuotient(high: nat, low: nat, f: nat, g: nat)
    requires f > 0 && g > 0 && f * g == TWO64 && high < TWO64 && low < TWO64
    requires (high * TWO64 + low) / f < 0x8000_0000
    ensures (high * TWO64 + low) / f == high * g + low / f < 0x8000_0000
    ensures (high * TWO64 + low) % f == low - (low / f) * f
    ensures 0 <= high * g && 0 <= (low / f) * f <= low
  {
    DivMod(low, f);
    MulPos(high, g);
    MulPos(low / f, f);
    LowParts(high * TWO64 + low, high, low, low / f, low % f, f, g);
  }

  lemma LowParts(x: nat, high: nat, low: nat, q: nat, r: nat, f: nat, g: nat)
    requires low == q * f + r && r < f && x == high * TWO64 + low && f * g == TWO64
    ensures x / f == high * g + q && x % f == r
  {
    MulAssoc(high, g, f);
    Distribute(high * g, q, f);
    DivUnique(x, f, high * g + q, r);
  }
}
