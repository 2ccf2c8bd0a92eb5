// Arbitrary-precision naturals in a fixed buffer of 128 digits of 28 bits, with a
// count of hidden low zero digits. Every intermediate is computed modulo the width
// of the machine word that holds it, so the exactness of each result includes the
// absence of overflow.

module Bignums {
  import opened Arith
  import opened Digits
  import opened BignumLemmas
  import opened Comba
  import opened PowerSteps
  import opened Decimal

  const CAPACITY: nat := 128
  const EXPONENT_LIMIT: nat := 0x8000   // one above the largest 16-bit exponent

  function Sign(x: int): (s: int)
  {
    if x < 0 then -1 else if x > 0 then 1 else 0
  }

  class Bignum {
    const bigits: array<int>
    var used: nat
    var exponent: nat

    /** The representation is in bounds; the top digit may be zero. */
    ghost predicate Rep()
      reads this, bigits
    {
      && bigits.Length == CAPACITY
      && used <= CAPACITY
      && exponent < EXPONENT_LIMIT
      && AllDigits(bigits[..], used)
    }

    ghost predicate Clamped()
      requires Rep()
      reads this, bigits
    {
      if used == 0 then exponent == 0 else bigits[used - 1] != 0
    }

    ghost predicate Valid()
      reads this, bigits
    {
      Rep() && Clamped()
    }

    /** The number in the buffer, without the hidden zero digits. */
    ghost function Mantissa(): (m: nat)
      requires Rep()
      reads this, bigits
    {
      ValBound(bigits[..], used, 0);
      Num(bigits[..], used)
    }

    ghost function Value(): (v: nat)
      requires Rep()
      reads this, bigits
    {
      ValBound(bigits[..], used, exponent);
      Val(bigits[..], used, exponent)
    }

    constructor ()
      ensures Valid() && Value() == 0
      ensures fresh(bigits)
    {
      bigits := new int[CAPACITY];
      used, exponent := 0, 0;
    }

    function BigitLength(): int
      reads this
    {
      used + exponent
    }

    function BigitOrZero(index: int): (d: int)
      requires bigits.Length == CAPACITY && used <= CAPACITY
      reads this, bigits
    {
      if index >= BigitLength() then 0
      else if index < exponent then 0
      else bigits[index - exponent]
    }

    method Zero()
      requires bigits.Length == CAPACITY
      modifies this
      ensures Valid() && Value() == 0 && Mantissa() == 0 && used == 0 && exponent == 0
    {
      used, exponent := 0, 0;
    }

    method AssignUInt16(value: nat)
      requires bigits.Length == CAPACITY && value < 0x10000
      modifies this, bigits
      ensures Valid() && Value() == value && exponent == 0
    {
      Zero();
      if value > 0 {
        bigits[0] := value;
        used := 1;
        assert Num(bigits[..], 1) == Num(bigits[..], 0) + value * W(0);
      }
    }

    method AssignUInt64(value: nat)
      requires bigits.Length == CAPACITY && value < TWO64
      modifies this, bigits
      ensures Valid() && Value() == value && exponent == 0 && used <= 3
    {
      Zero();
      var rest: nat := value;
      while rest > 0
        invariant used <= 3 && exponent == 0 && Rep()
        invariant used == 1 ==> rest < 0x10_0000_0000
        invariant used == 2 ==> rest < 0x100
        invariant used == 3 ==> rest == 0
        invariant rest < TWO64
        invariant Num(bigits[..], used) + rest * W(used) == value
        invariant used > 0 && rest == 0 ==> bigits[used - 1] != 0
        decreases rest
      {
        ghost var s := bigits[..];
        bigits[used] := rest % BASE;
        SplitWord(rest);
        AppendStep(s, bigits[..], used, rest, rest % BASE, rest / BASE);
        rest := rest / BASE;
        used := used + 1;
      }
      assert W(0) == 1;
    }

    method AssignBignum(other: Bignum)
      requires bigits.Length == CAPACITY && other.Valid() && other.bigits != bigits
      modifies this, bigits
      ensures Valid() && Value() == other.Value()
      ensures used == other.used && exponent == other.exponent
    {
      exponent := other.exponent;
      for i := 0 to other.used
        modifies bigits
        invariant forall j :: 0 <= j < i ==> bigits[j] == other.bigits[j]
      {
        bigits[i] := other.bigits[i];
      }
      used := other.used;
      ValFrame(bigits[..], other.bigits[..], used, exponent);
    }

    method Clamp()
      requires Rep()
      modifies this
      ensures Valid() && Value() == old(Value())
      ensures used <= old(used) && exponent <= old(exponent)
    {
      ghost var s := bigits[..];
      while used > 0 && bigits[used - 1] == 0
        invariant used <= old(used) && Rep() && exponent == old(exponent) && bigits[..] == s
        invariant Val(s, used, exponent) == old(Value())
      {
        used := used - 1;
      }
      if used == 0 {
        exponent := 0;
      }
    }

    /** Turns hidden zero digits into stored ones until the exponent is at most the
        other's. */
    method Align(other: Bignum)
      requires Valid() && other.Valid()
      requires exponent > other.exponent ==> used + exponent - other.exponent <= CAPACITY
      modifies this, bigits
      ensures Valid() && Value() == old(Value())
      ensures exponent == Min(old(exponent), other.exponent)
      ensures BigitLength() == old(BigitLength())
    {
      if exponent > other.exponent {
        var z := exponent - other.exponent;
        ghost var s := bigits[..];
        ShiftUp(bigits, used, z);
        AlignResult(s, bigits[..], z, used, exponent - z);
        used := used + z;
        exponent := exponent - z;
      }
    }

    method AddBignum(other: Bignum)
      requires Valid() && other.Valid() && other.bigits != bigits
      requires 1 + Max(BigitLength(), other.BigitLength()) - Min(exponent, other.exponent) <= CAPACITY
      modifies this, bigits
      ensures Valid() && Value() == old(Value()) + other.Value()
      ensures exponent == Min(old(exponent), other.exponent)
    {
      hide Val, Extended;
      Align(other);
      ghost var s0, n := bigits[..], used;
      var off: nat := other.exponent - exponent;
      var pos := AddInto(bigits, used, other.bigits, other.used, off, exponent);
      used := Max(pos, used);
      SumResult(s0, n, other.bigits[..], other.used, exponent, off, bigits[..], pos, used);
    }

    method AddUInt64(operand: nat)
      requires Valid() && operand < TWO64
      requires operand != 0 ==> BigitLength() < CAPACITY
      modifies this, bigits
      ensures Valid() && Value() == old(Value()) + operand
      ensures exponent <= old(exponent)
    {
      if operand == 0 {
        return;
      }
      var other := new Bignum();
      other.AssignUInt64(operand);
      AddBignum(other);
    }

    method SubtractBignum(other: Bignum)
      requires Valid() && other.Valid() && other.bigits != bigits
      requires other.Value() <= Value()
      requires exponent > other.exponent ==> used + exponent - other.exponent <= CAPACITY
      modifies this, bigits
      ensures Valid() && Value() == old(Value()) - other.Value()
      ensures exponent <= Min(old(exponent), other.exponent)
      ensures BigitLength() <= old(BigitLength())
    {
      Align(other);
      ghost var s0 := bigits[..];
      var offset: nat := other.exponent - exponent;
      if other.used > 0 {
        LengthOrder(s0, used, exponent, other.bigits[..], other.used, other.exponent);
      }
      SubtractDigits(bigits, used, other.bigits, other.used, offset, exponent);
      Clamp();
    }

    method BigitsShiftLeft(shift: nat)
      requires Valid() && shift < BITS && used < CAPACITY
      modifies this, bigits
      ensures Valid() && Value() == old(Value()) * Pow(2, shift)
      ensures exponent == old(exponent) && used <= old(used) + 1
    {
      ghost var s0, n, f := bigits[..], used, Pow(2, shift);
      var carry := ShiftDigits(bigits, used, shift);
      if carry != 0 {
        ghost var s := bigits[..];
        bigits[used] := carry;
        AppendStep(s, bigits[..], used, carry, carry, 0);
        used := used + 1;
      }
      ScaleResult(s0, n, bigits[..], used, exponent, f);
    }

    method ShiftLeft(shift: nat)
      requires Valid()
      requires used > 0 ==> used + 1 <= CAPACITY && exponent + shift / BITS < EXPONENT_LIMIT
      modifies this, bigits
      ensures Valid() && Value() == old(Value()) * Pow(2, shift)
      ensures used <= old(used) + 1
      ensures exponent == if old(used) == 0 then 0 else old(exponent) + shift / BITS
    {
      if used == 0 {
        return;
      }
      ghost var v := Value();
      ExponentVal(bigits[..], used, exponent, shift / BITS);
      exponent := exponent + shift / BITS;
      BigitsShiftLeft(shift % BITS);
      ShiftSplit(v, shift);
    }

    /** Stores the carry of a scaled mantissa. */
    method FinishScaling(carry: nat, ghost s0: seq<int>, ghost n: nat, ghost factor: nat)
      requires Rep() && 0 < used == n <= |s0| && AllDigits(s0, n) && s0[n - 1] != 0 && factor > 0
      requires Num(bigits[..], n) + carry * W(n) == factor * Num(s0, n)
      requires Num(s0, n) * factor < W(CAPACITY)
      modifies this, bigits
      ensures Valid() && exponent == old(exponent)
      ensures Value() == Val(s0, n, exponent) * factor
      ensures Mantissa() == Num(s0, n) * factor
    {
      hide W, Val, Num, AllDigits;
      ScaledTop(s0, n, factor);
      used := AppendCarry(bigits, used, carry, factor * Num(s0, n));
      ScaleResult(s0, n, bigits[..], used, exponent, factor);
    }

    method MultiplyByUInt32(factor: nat)
      requires Valid() && factor < TWO32
      requires Mantissa() * factor < W(CAPACITY)
      modifies this, bigits
      ensures Valid() && Value() == old(Value()) * factor
      ensures Mantissa() == old(Mantissa()) * factor
      ensures factor > 0 ==> exponent == old(exponent)
    {
      if factor == 1 {
        return;
      }
      if factor == 0 {
        ghost var m, v := Mantissa(), Value();
        Zero();
        MulZero(m, factor);
        MulZero(v, factor);
        return;
      }
      if used == 0 {
        return;
      }
      ScaleBuffer32(factor);
    }

    /** The non-trivial case: the buffer is not empty and the factor not 0 or 1. */
    method ScaleBuffer32(factor: nat)
      requires Valid() && used > 0 && 0 < factor < TWO32
      requires Mantissa() * factor < W(CAPACITY)
      modifies this, bigits
      ensures Valid() && exponent == old(exponent)
      ensures Value() == old(Value()) * factor
      ensures Mantissa() == old(Mantissa()) * factor
    {
      ghost var s0, n, m, v := bigits[..], used, Mantissa(), Value();
      var carry := ScaleDigits32(bigits, used, factor);
      FinishScaling(carry, s0, n, factor);
    }

    method MultiplyByUInt64(factor: nat)
      requires Valid() && factor < TWO64
      requires Mantissa() * factor < W(CAPACITY)
      modifies this, bigits
      ensures Valid() && Value() == old(Value()) * factor
      ensures Mantissa() == old(Mantissa()) * factor
      ensures factor > 0 ==> exponent == old(exponent)
    {
      if factor == 1 {
        return;
      }
      if factor == 0 {
        ghost var m, v := Mantissa(), Value();
        Zero();
        MulZero(m, factor);
        MulZero(v, factor);
        return;
      }
      if used == 0 {
        return;
      }
      ScaleBuffer64(factor);
    }

    /** The non-trivial case: the buffer is not empty and the factor not 0 or 1. */
    method ScaleBuffer64(factor: nat)
      requires Valid() && used > 0 && 0 < factor < TWO64
      requires Mantissa() * factor < W(CAPACITY)
      modifies this, bigits
      ensures Valid() && exponent == old(exponent)
      ensures Value() == old(Value()) * factor
      ensures Mantissa() == old(Mantissa()) * factor
    {
      ghost var s0, n, m, v := bigits[..], used, Mantissa(), Value();
      var carry := ScaleDigits64(bigits, used, factor);
      FinishScaling(carry, s0, n, factor);
    }

    method Times10()
      requires Valid() && Mantissa() * 10 < W(CAPACITY)
      modifies this, bigits
      ensures Valid() && Value() == old(Value()) * 10 && exponent == old(exponent)
    {
      MultiplyByUInt32(10);
    }

    /** A clamped number lies between the weights of its top position and the next. */
    lemma Range()
      requires Valid()
      ensures Value() < W(BigitLength())
      ensures BigitLength() > 0 ==> used > 0 && W(BigitLength() - 1) <= Value()
    {
      ClampedRange(bigits[..], used, exponent);
    }

    lemma MantissaBelowValue()
      requires Rep()
      ensures Mantissa() <= Value()
    {
      ValScale(bigits[..], used, exponent);
      MulMono(1, W(exponent), Mantissa());
    }

    /** BigitOrZero in terms of the value. */
    lemma BigitIsQuotient(i: nat)
      requires Rep()
      ensures BigitOrZero(i) == (Value() / W(i)) % BASE
    {
      DigitAtDiv(bigits[..], used, exponent, i);
    }

    static method Compare(a: Bignum, b: Bignum) returns (r: int)
      requires a.Valid() && b.Valid()
      ensures r == Sign(a.Value() - b.Value())
    {
      var lengthA, lengthB := a.BigitLength(), b.BigitLength();
      ghost var va, vb := a.Value(), b.Value();
      a.Range();
      b.Range();
      if lengthA < lengthB {
        WMono(lengthA, lengthB - 1);
        return -1;
      }
      if lengthA > lengthB {
        WMono(lengthB, lengthA - 1);
        return 1;
      }
      QuotientZero(va, lengthA);
      QuotientZero(vb, lengthA);
      var low := Min(a.exponent, b.exponent);
      var i := lengthA - 1;
      while i >= low
        invariant low - 1 <= i < lengthA
        invariant va / W(i + 1) == vb / W(i + 1)
      {
        var bigitA, bigitB := a.BigitOrZero(i), b.BigitOrZero(i);
        a.BigitIsQuotient(i);
        b.BigitIsQuotient(i);
        QuotientStep(va, i);
        QuotientStep(vb, i);
        if bigitA < bigitB {
          QuotientOrder(va, vb, i);
          return -1;
        }
        if bigitA > bigitB {
          QuotientOrder(vb, va, i);
          return 1;
        }
        i := i - 1;
      }
      QuotientExact(a.bigits[..], a.used, a.exponent, low);
      QuotientExact(b.bigits[..], b.used, b.exponent, low);
      return 0;
    }

    static method Equal(a: Bignum, b: Bignum) returns (r: bool)
      requires a.Valid() && b.Valid()
      ensures r == (a.Value() == b.Value())
    {
      var c := Compare(a, b);
      r := c == 0;
    }

    static method LessEqual(a: Bignum, b: Bignum) returns (r: bool)
      requires a.Valid() && b.Valid()
      ensures r == (a.Value() <= b.Value())
    {
      var c := Compare(a, b);
      r := c <= 0;
    }

    static method Less(a: Bignum, b: Bignum) returns (r: bool)
      requires a.Valid() && b.Valid()
      ensures r == (a.Value() < b.Value())
    {
      var c := Compare(a, b);
      r := c < 0;
    }

    /** Compares a + b with c without computing the sum: the borrow carries the
        difference of the digits seen so far, and stays 0 or 1 digit units. */
    static method PlusCompare(a: Bignum, b: Bignum, c: Bignum) returns (r: int)
      requires a.Valid() && b.Valid() && c.Valid()
      ensures r == Sign(a.Value() + b.Value() - c.Value())
      decreases if a.BigitLength() < b.BigitLength() then 1 else 0
    {
      if a.BigitLength() < b.BigitLength() {
        r := PlusCompare(b, a, c);
        return;
      }
      ghost var va, vb, vc := a.Value(), b.Value(), c.Value();
      if a.BigitLength() + 1 < c.BigitLength() {
        ShorterSum(a, b, c);
        return -1;
      }
      if a.BigitLength() > c.BigitLength() {
        LongerSum(a, c);
        return 1;
      }
      if a.exponent >= b.BigitLength() && a.BigitLength() < c.BigitLength() {
        DisjointSum(a, b, c);
        return -1;
      }
      r := PlusCompareDigits(a, b, c);
    }

    static method PlusCompareDigits(a: Bignum, b: Bignum, c: Bignum) returns (r: int)
      requires a.Valid() && b.Valid() && c.Valid()
      requires b.BigitLength() <= a.BigitLength() <= c.BigitLength()
      ensures r == Sign(a.Value() + b.Value() - c.Value())
    {
      hide W, Val;
      ghost var va, vb, vc := a.Value(), b.Value(), c.Value();
      var borrow: nat := 0;
      var low := Min(Min(a.exponent, b.exponent), c.exponent);
      var i := c.BigitLength() - 1;
      WMono(a.BigitLength(), i + 1);
      WMono(b.BigitLength(), i + 1);
      a.Range();
      b.Range();
      c.Range();
      QuotientZero(va, i + 1);
      QuotientZero(vb, i + 1);
      QuotientZero(vc, i + 1);
      while i >= low
        invariant low - 1 <= i < c.BigitLength()
        invariant borrow == 0 || borrow == BASE
        invariant BASE * (vc / W(i + 1) - va / W(i + 1) - vb / W(i + 1)) == borrow
      {
        var chunkA, chunkB, chunkC := a.BigitOrZero(i), b.BigitOrZero(i), c.BigitOrZero(i);
        PlusDigit(a, b, c, i, borrow);
        var sum := U32(chunkA + chunkB);
        if sum > U32(chunkC + borrow) {
          return 1;
        }
        borrow := U32(chunkC + borrow) - sum;
        if borrow > 1 {
          return -1;
        }
        borrow := borrow * BASE;
        i := i - 1;
      }
      QuotientExact(a.bigits[..], a.used, a.exponent, low);
      QuotientExact(b.bigits[..], b.used, b.exponent, low);
      QuotientExact(c.bigits[..], c.used, c.exponent, low);
      QuotientSumExact(va, vb, vc, low);
      r := if borrow == 0 then 0 else -1;
    }

    /** One digit of the three-way comparison, in terms of the digits read. */
    static lemma PlusDigit(a: Bignum, b: Bignum, c: Bignum, i: nat, borrow: int)
      requires a.Rep() && b.Rep() && c.Rep()
      requires BASE * (c.Value() / W(i + 1) - a.Value() / W(i + 1) - b.Value() / W(i + 1)) == borrow
      ensures var d := c.BigitOrZero(i) + borrow - a.BigitOrZero(i) - b.BigitOrZero(i);
              && d == c.Value() / W(i) - a.Value() / W(i) - b.Value() / W(i)
              && (d < 0 ==> c.Value() < a.Value() + b.Value())
              && (d > 1 ==> c.Value() > a.Value() + b.Value())
      ensures IsDigit(a.BigitOrZero(i)) && IsDigit(b.BigitOrZero(i)) && IsDigit(c.BigitOrZero(i))
    {
      a.BigitIsQuotient(i);
      b.BigitIsQuotient(i);
      c.BigitIsQuotient(i);
      PlusStep(a.Value(), b.Value(), c.Value(), i, borrow);
    }

    static lemma ShorterSum(a: Bignum, b: Bignum, c: Bignum)
      requires a.Valid() && b.Valid() && c.Valid()
      requires b.BigitLength() <= a.BigitLength() && a.BigitLength() + 1 < c.BigitLength()
      ensures a.Value() + b.Value() < c.Value()
    {
      hide W, Val;
      a.Range();
      b.Range();
      c.Range();
      WNext(a.BigitLength());
      WMono(b.BigitLength(), a.BigitLength());
      WMono(a.BigitLength() + 1, c.BigitLength() - 1);
    }

    static lemma LongerSum(a: Bignum, c: Bignum)
      requires a.Valid() && c.Valid() && a.BigitLength() > c.BigitLength()
      ensures a.Value() > c.Value()
    {
      a.Range();
      c.Range();
      WMono(c.BigitLength(), a.BigitLength() - 1);
    }

    /** When b fits below a's hidden zero digits the sum is no longer than a. */
    static lemma DisjointSum(a: Bignum, b: Bignum, c: Bignum)
      requires a.Valid() && b.Valid() && c.Valid()
      requires a.exponent >= b.BigitLength() && a.BigitLength() < c.BigitLength()
      ensures a.Value() + b.Value() < c.Value()
    {
      ValBound(a.bigits[..], a.used, a.exponent);
      b.Range();
      c.Range();
      WMono(b.BigitLength(), a.exponent);
      WMono(a.BigitLength(), c.BigitLength() - 1);
    }

    method Square()
      requires Valid() && 2 * used <= CAPACITY && 2 * exponent < EXPONENT_LIMIT
      modifies this, bigits
      ensures Valid() && Value() == old(Value()) * old(Value())
      ensures exponent <= 2 * old(exponent)
    {
      ghost var s0 := bigits[..used];
      var productLength := 2 * used;
      for i := 0 to used
        modifies bigits
        invariant forall j :: 0 <= j < used ==> bigits[j] == s0[j]
        invariant forall j :: 0 <= j < i ==> bigits[used + j] == s0[j]
      {
        bigits[used + i] := bigits[i];
      }
      SquareDigits(bigits, used, s0);
      SquareVal(s0, old(bigits[..]), used, exponent, bigits[..]);
      used := productLength;
      exponent := exponent * 2;
      Clamp();
    }

    /** this -= factor * other. With a factor of 3 or more the digits are subtracted in
        one pass, which stops early when no borrow is left above other's digits. */
    method SubtractTimes(other: Bignum, factor: nat)
      requires Valid() && other.Valid() && other.bigits != bigits && other.used > 0
      requires exponent <= other.exponent && factor < BASE
      requires factor * other.Value() <= Value()
      modifies this, bigits
      ensures Valid() && Value() == old(Value()) - factor * other.Value()
      ensures exponent <= old(exponent) && BigitLength() <= old(BigitLength())
    {
      if factor < 3 {
        ghost var v, o := Value(), other.Value();
        for i := 0 to factor
          invariant Valid() && Value() == v - i * o && factor * o <= v
          invariant exponent <= old(exponent) && BigitLength() <= old(BigitLength())
        {
          MulMono(i + 1, factor, o);
          SubtractBignum(other);
        }
        return;
      }
      MulMono(1, factor, other.Value());
      ghost var s0 := bigits[..];
      LengthOrder(s0, used, exponent, other.bigits[..], other.used, other.exponent);
      var done := SubtractMultiple(bigits, used, other.bigits, other.used, other.exponent - exponent, factor, exponent);
      if done {
        return;
      }
      Clamp();
    }

    /** Divides by other, leaving the remainder. The quotient must fit 16 bits. */
    method DivideModuloIntBignum(other: Bignum) returns (result: nat)
      requires Valid() && other.Valid() && other.bigits != bigits && other.used > 0
      requires other.Value() > 0 && Value() / other.Value() < 0x10000
      requires exponent > other.exponent ==> used + exponent - other.exponent <= CAPACITY
      modifies this, bigits
      ensures Valid()
      ensures result == old(Value()) / other.Value()
      ensures Value() == old(Value()) % other.Value()
    {
      ghost var v0, o := Value(), other.Value();
      Range();
      other.Range();
      if BigitLength() < other.BigitLength() {
        WMono(BigitLength(), other.BigitLength() - 1);
        DivUnique(v0, o, 0, v0);
        return 0;
      }
      Align(other);
      result := ReduceLength(other, v0);
      result := DivideSameLength(other, result, v0);
      DivUnique(v0, o, result, Value());
    }

    /** Removes multiples of other until this is no longer than other. */
    method ReduceLength(other: Bignum, ghost v0: nat) returns (result: nat)
      requires Valid() && other.Valid() && other.bigits != bigits && other.used > 0
      requires other.Value() > 0 && v0 / other.Value() < 0x10000
      requires exponent <= other.exponent && BigitLength() >= other.BigitLength()
      requires Value() == v0
      modifies this, bigits
      ensures Valid() && exponent <= other.exponent
      ensures result * other.Value() + Value() == v0 && 0 < used
      ensures BigitLength() <= other.BigitLength()
      ensures BigitLength() == other.BigitLength() || Value() + other.Value() >= W(other.BigitLength())
    {
      ghost var o, len := other.Value(), other.BigitLength();
      result := 0;
      other.Range();
      Range();
      while BigitLength() > other.BigitLength()
        invariant Valid() && exponent <= other.exponent
        invariant result * o + Value() == v0 && 0 < used
        invariant BigitLength() >= len || Value() + o >= W(len)
        decreases Value()
      {
        result := RemoveTop(other, result, v0);
      }
    }

    /** Subtracts the top digit's multiple of a shorter number. */
    method RemoveTop(other: Bignum, start: nat, ghost v0: nat) returns (result: nat)
      requires Valid() && other.Valid() && other.bigits != bigits && other.used > 0
      requires 0 < other.Value() < W(other.BigitLength()) && v0 / other.Value() < 0x10000
      requires exponent <= other.exponent && BigitLength() > other.BigitLength()
      requires start * other.Value() + Value() == v0
      modifies this, bigits
      ensures Valid() && exponent <= other.exponent && 0 < used
      ensures result * other.Value() + Value() == v0 && Value() < old(Value())
      ensures Value() + other.Value() >= W(other.BigitLength())
    {
      ghost var o, v := other.Value(), Value();
      var d := bigits[used - 1];
      ValTop(bigits[..], used, exponent);
      ReduceStep(v, d, o, other.BigitLength(), BigitLength() - 1, start, v0);
      result := U16(start + U16(d));
      SubtractTimes(other, d);
      Range();
    }

    /** The last division step, on numbers whose top digits are at the same position. */
    method DivideSameLength(other: Bignum, start: nat, ghost v0: nat) returns (result: nat)
      requires Valid() && other.Valid() && other.bigits != bigits && other.used > 0
      requires other.Value() > 0 && v0 / other.Value() < 0x10000
      requires exponent <= other.exponent && 0 < used
      requires start * other.Value() + Value() == v0
      requires BigitLength() <= other.BigitLength()
      requires BigitLength() == other.BigitLength() || Value() + other.Value() >= W(other.BigitLength())
      modifies this, bigits
      ensures Valid()
      ensures result * other.Value() + Value() == v0 && Value() < other.Value()
    {
      hide W, Val;
      ghost var o := other.Value();
      var thisBigit, otherBigit := bigits[used - 1], other.bigits[other.used - 1];
      if BigitLength() < other.BigitLength() {
        Range();
        ShrunkDivisor(Value(), other.bigits[..], other.used, other.exponent, BigitLength());
      }
      if other.used == 1 {
        result := DivideByDigit(other, start, v0);
        return;
      }
      var estimate := thisBigit / (otherBigit + 1);
      Estimate(other);
      Distribute(start, estimate, o);
      QuotientAtLeast(start + estimate, o, v0);
      result := U16(start + U16(estimate));
      SubtractTimes(other, estimate);
      if U32(otherBigit * (estimate + 1)) > thisBigit {
        return;
      }
      result := SubtractRest(other, result, v0);
    }

    /** The estimate fits, and is the whole quotient when the source stops after it. */
    lemma Estimate(other: Bignum)
      requires Valid() && other.Valid() && other.used > 1 && 0 < used
      requires BigitLength() <= other.BigitLength()
      requires BigitLength() < other.BigitLength() ==> other.bigits[other.used - 1] == BASE - 1
      ensures var tb, ob := bigits[used - 1], other.bigits[other.used - 1];
              var est := tb / (ob + 1);
              && 0 <= est < BASE
              && est * other.Value() <= Value()
              && U32(ob * (est + 1)) == ob * (est + 1)
              && (ob * (est + 1) > tb ==> Value() < est * other.Value() + other.Value())
    {
      hide W, U32, Val;
      var tb, ob := bigits[used - 1], other.bigits[other.used - 1];
      var est := tb / (ob + 1);
      EstimateWord(tb, ob);
      ValTop(bigits[..], used, exponent);
      ValTop(other.bigits[..], other.used, other.exponent);
      if BigitLength() == other.BigitLength() {
        EstimateQuotient(Value(), other.Value(), tb, ob, W(BigitLength() - 1));
      } else {
        DivUnique(tb, ob + 1, 0, tb);
        WMono(BigitLength(), other.BigitLength() - 1);
      }
    }

    /** The one-digit divisor: only the top digit changes. */
    method DivideByDigit(other: Bignum, start: nat, ghost v0: nat) returns (result: nat)
      requires Valid() && other.Valid() && other.bigits != bigits && other.used == 1
      requires other.Value() > 0 && v0 / other.Value() < 0x10000
      requires 0 < used && BigitLength() == other.BigitLength()
      requires start * other.Value() + Value() == v0
      modifies this, bigits
      ensures Valid()
      ensures result * other.Value() + Value() == v0 && Value() < other.Value()
    {
      ghost var o := other.Value();
      SingleDigitVal(other.bigits[..], other.exponent);
      var quotient := DivideTop(bigits, used, other.bigits[0], o, exponent);
      QuotientGrows(start, quotient, o, Value(), v0);
      result := U16(start + U16(quotient));
      Clamp();
    }

    /** Subtracts other while it still fits. */
    method SubtractRest(other: Bignum, start: nat, ghost v0: nat) returns (result: nat)
      requires Valid() && other.Valid() && other.bigits != bigits
      requires other.Value() > 0 && v0 / other.Value() < 0x10000
      requires exponent <= other.exponent
      requires start * other.Value() + Value() == v0
      modifies this, bigits
      ensures Valid()
      ensures result * other.Value() + Value() == v0 && Value() < other.Value()
    {
      ghost var o := other.Value();
      result := start;
      var fits := LessEqual(other, this);
      while fits
        invariant Valid() && exponent <= other.exponent
        invariant result * o + Value() == v0
        invariant fits == (o <= Value())
        decreases Value()
      {
        QuotientGrows(result, 1, o, Value() - o, v0);
        SubtractBignum(other);
        result := U16(result + 1);
        fits := LessEqual(other, this);
      }
    }

    /** Sets this to base^power: the factors of two are set aside, the odd part is raised
        first in 64 bits and then in the buffer, and a shift puts the twos back. */
    method AssignPowerUInt16(base: nat, power: nat)
      requires bigits.Length == CAPACITY && 0 < base < 0x10000
      requires PowerDigits(OddPart(base), power) + 1 <= CAPACITY
      modifies this, bigits
      ensures Valid() && Value() == Pow(base, power)
    {
      if power == 0 {
        AssignUInt16(1);
        return;
      }
      Zero();
      var odd, shifts := StripTwos(base);
      AssignOddPower(odd, power);
      PowerFits(odd, power);
      PowerRoom(PowerDigits(odd, power));
      ShiftRoom(base, power, CAPACITY);
      ShiftLeft(shifts * power);
      ShiftBack(base, power);
    }

    method AssignOddPower(odd: nat, power: nat)
      requires bigits.Length == CAPACITY && 0 < odd < 0x10000 && 0 < power
      requires PowerDigits(odd, power) + 1 <= CAPACITY
      modifies this, bigits
      ensures Valid() && exponent == 0 && Value() == Pow(odd, power)
    {
      var bitSize := CountBits(odd);
      var mask, k := StartMask(power);
      var thisValue, delayed, rest, j := Power64(odd, bitSize, power, mask, k);
      AssignUInt64(thisValue);
      if delayed {
        WideRoom(thisValue, odd, CAPACITY);
        MultiplyByUInt32(odd);
      }
      RaiseToPower(odd, power, rest, j);
    }

    /** The remaining bits of the exponent, on the buffer. */
    method RaiseToPower(b: nat, power: nat, mask: nat, ghost j: nat)
      requires Valid() && exponent == 0 && 0 < b < 0x10000 && 0 < power
      requires PowerDigits(b, power) + 1 <= CAPACITY
      requires mask == Mask(j) && Value() == Pow(b, Prefix(power, j))
      modifies this, bigits
      ensures Valid() && exponent == 0 && Value() == Pow(b, power)
    {
      var rest := mask;
      ghost var k := j;
      while rest != 0
        invariant Valid() && exponent == 0
        invariant rest == Mask(k) && Value() == Pow(b, Prefix(power, k))
        decreases k
      {
        RaiseStep(b, power, rest, k);
        MaskHalf(k);
        rest := rest / 2;
        k := k - 1;
      }
      DivUnique(power, 1, power, 0);
    }

    /** One bit of the exponent: a square, and a factor when the bit is set. */
    method RaiseStep(b: nat, power: nat, mask: nat, ghost k: nat)
      requires Valid() && exponent == 0 && 0 < b < 0x10000 && 0 < power && 0 < k
      requires PowerDigits(b, power) + 1 <= CAPACITY
      requires mask == Mask(k) && 0 < mask && Value() == Pow(b, Prefix(power, k))
      modifies this, bigits
      ensures Valid() && exponent == 0
      ensures Value() == Pow(b, Prefix(power, k - 1))
    {
      ghost var v := Value();
      SquareFitsPower(b, power, k, v);
      PowerSquareRoom(v, PowerDigits(b, power));
      Square();
      if (power / mask) % 2 != 0 {
        WMono(PowerDigits(b, power), CAPACITY);
        MultiplyByUInt32(b);
      }
    }

    lemma PowerRoom(p: nat)
      requires Valid() && Value() < W(p) && exponent == 0
      ensures used <= p
    {
      if used > 0 {
        ValTop(bigits[..], used, 0);
        WLess(used - 1, p);
      }
    }

    lemma PowerSquareRoom(v: nat, p: nat)
      requires Valid() && exponent == 0 && v == Value() && v * v < W(p)
      ensures 2 * used <= p + 1
    {
      if used > 0 {
        ValTop(bigits[..], used, 0);
      }
      SquareRoom(used, v, p);
    }

    method MultiplyByPowerOfTen(power: nat)
      requires Valid()
      requires used > 0 ==> Mantissa() * Pow(5, power) < W(CAPACITY - 1)
      requires used > 0 ==> exponent + power / BITS < EXPONENT_LIMIT
      modifies this, bigits
      ensures Valid() && Value() == old(Value()) * Pow(10, power)
      ensures exponent == if old(used) == 0 then 0 else old(exponent) + power / BITS
    {
      if power == 0 {
        return;
      }
      if used == 0 {
        return;
      }
      ghost var m, e := Mantissa(), exponent;
      ValScale(bigits[..], used, e);
      MultiplyByPowerOfFive(power);
      ValScale(bigits[..], used, e);
      ShiftLeft(power);
      TenFromFive(m, W(e), power);
    }

    method MultiplyByPowerOfFive(power: nat)
      requires Valid() && used > 0 && Mantissa() * Pow(5, power) < W(CAPACITY - 1)
      modifies this, bigits
      ensures Valid() && exponent == old(exponent)
      ensures Mantissa() == old(Mantissa()) * Pow(5, power)
      ensures 0 < used < CAPACITY
    {
      ghost var total := Mantissa() * Pow(5, power);
      ValTop(bigits[..], used, 0);
      MulPos(Mantissa(), Pow(5, power));
      WMono(CAPACITY - 1, CAPACITY);
      var remaining := MultiplyByFive27s(power, total);
      remaining := MultiplyByFive13s(remaining, total);
      MultiplyByFiveRest(remaining, total);
      MantissaRoom();
    }

    /** A mantissa below the weight of the last position leaves room for a shift. */
    lemma MantissaRoom()
      requires Valid() && Mantissa() < W(CAPACITY - 1)
      ensures used < CAPACITY
      ensures used == 0 ==> Mantissa() == 0
    {
      if used > 0 {
        ValTop(bigits[..], used, 0);
        WLess(used - 1, CAPACITY - 1);
      }
    }

    method MultiplyByFiveRest(remaining: nat, ghost total: nat)
      requires Valid() && remaining < 13 && Mantissa() * Pow(5, remaining) == total < W(CAPACITY)
      modifies this, bigits
      ensures Valid() && exponent == old(exponent) && Mantissa() == total
    {
      hide W;
      if remaining > 0 {
        FiveTable(remaining);
        MultiplyByUInt32(FIVE1_TO_12[remaining - 1]);
      }
    }

    method MultiplyByFive27s(power: nat, ghost total: nat) returns (remaining: nat)
      requires Valid() && Mantissa() * Pow(5, power) == total < W(CAPACITY)
      modifies this, bigits
      ensures Valid() && exponent == old(exponent)
      ensures remaining < 27 && Mantissa() * Pow(5, remaining) == total
    {
      hide W;
      remaining := power;
      FivePowers();
      while remaining >= 27
        invariant Valid() && exponent == old(exponent)
        invariant Mantissa() * Pow(5, remaining) == total
      {
        ghost var m := Mantissa();
        FiveStep(m, remaining, 27, FIVE27, total, CAPACITY);
        MultiplyByUInt64(FIVE27);
        remaining := remaining - 27;
      }
    }

    method MultiplyByFive13s(power: nat, ghost total: nat) returns (remaining: nat)
      requires Valid() && Mantissa() * Pow(5, power) == total < W(CAPACITY)
      modifies this, bigits
      ensures Valid() && exponent == old(exponent)
      ensures remaining < 13 && Mantissa() * Pow(5, remaining) == total
    {
      hide W;
      remaining := power;
      FivePowers();
      while remaining >= 13
        invariant Valid() && exponent == old(exponent)
        invariant Mantissa() * Pow(5, remaining) == total
      {
        ghost var m := Mantissa();
        FiveStep(m, remaining, 13, FIVE13, total, CAPACITY);
        MultiplyByUInt32(FIVE13);
        remaining := remaining - 13;
      }
    }

    /** Sets this to the integer that a string of decimal digits denotes, 19 digits at a
        time. */
    method AssignDecimalString(value: seq<char>)
      requires bigits.Length == CAPACITY && AllDecimal(value)
      requires DecimalValue(value) < W(CAPACITY - 1)
      modifies this, bigits
      ensures Valid() && Value() == DecimalValue(value)
    {
      Zero();
      var length, pos := |value|, 0;
      while length >= 19
        invariant 0 <= length && pos + length == |value|
        invariant Valid() && Value() == DecimalValue(value[..pos])
        invariant exponent == 0
      {
        var digits := ReadUInt64(value, pos, 19);
        AppendDigits(value, pos, 19, digits);
        pos := pos + 19;
        length := length - 19;
      }
      var digits := ReadUInt64(value, pos, length);
      AppendDigits(value, pos, length, digits);
      assert value[..pos + length] == value;
      Clamp();
    }

    /** Appends n more decimal digits, already read as an integer. */
    method AppendDigits(value: seq<char>, pos: nat, n: nat, digits: nat)
      requires Valid() && AllDecimal(value) && pos + n <= |value| && n <= 19
      requires DecimalValue(value) < W(CAPACITY - 1)
      requires Value() == DecimalValue(value[..pos])
      requires digits == DecimalValue(value[pos..pos + n]) && digits < TWO64
      requires exponent == 0
      modifies this, bigits
      ensures Valid() && Value() == DecimalValue(value[..pos + n])
      ensures exponent == 0
    {
      hide W, AllDecimal, Val, DecimalValue;
      AppendRoom(value, pos, n, CAPACITY - 1);
      MultiplyByPowerOfTen(n);
      Range();
      if BigitLength() > 0 {
        WLess(BigitLength() - 1, CAPACITY - 1);
      }
      AddUInt64(digits);
      DecimalAppend(value[..pos], value[pos..pos + n]);
      assert value[..pos] + value[pos..pos + n] == value[..pos + n];
    }
  }

  /** The integer of the next digits, which must fit 64 bits. */
  method ReadUInt64(buffer: seq<char>, from: nat, digitsToRead: nat) returns (result: nat)
    requires from + digitsToRead <= |buffer| && AllDecimal(buffer) && digitsToRead <= 19
    ensures result == DecimalValue(buffer[from..from + digitsToRead]) && result < TWO64
  {
    hide U64;
    result := 0;
    for i := from to from + digitsToRead
      invariant result == DecimalValue(buffer[from..i])
      invariant result < Pow(10, i - from)
    {
      var digit := DigitValue(buffer[i]);
      DecimalPush(buffer[from..i], buffer[i]);
      assert buffer[from..i] + [buffer[i]] == buffer[from..i + 1];
      TenPowers(i + 1 - from);
      result := U64(result * 10 + digit);
    }
    TenPowers(digitsToRead);
  }

  /** Stores a carry that does not fit one digit, digit by digit; the new length is
      returned. */
  method AppendCarry(a: array<int>, n: nat, c: nat, ghost total: nat) returns (k: nat)
    requires 0 < n <= a.Length == CAPACITY && AllDigits(a[..], n) && W(n - 1) <= total < W(CAPACITY)
    requires Num(a[..], n) + c * W(n) == total
    modifies a
    ensures n <= k <= CAPACITY && AllDigits(a[..], k)
    ensures Num(a[..], k) == total && a[k - 1] != 0
  {
    hide W;
    var carry: nat := c;
    k := n;
    while carry != 0
      invariant n <= k <= CAPACITY && AllDigits(a[..], k) && W(k - 1) <= total
      invariant Num(a[..], k) + carry * W(k) == total
      decreases carry
    {
      ghost var s := a[..];
      RoomForCarry(s, k, carry, total, CAPACITY);
      var digit, rest := SplitCarry(carry);
      a[k] := digit;
      AppendStep(s, a[..], k, carry, digit, rest);
      k := k + 1;
      carry := rest;
    }
    TopNonZero(a[..], k, 0);
  }

  /** Shifts one digit left inside a 32-bit word. */
  method ShiftOne(d: nat, shift: nat, carry: nat) returns (digit: nat, newCarry: nat)
    requires IsDigit(d) && shift < BITS && carry < Pow(2, shift)
    ensures IsDigit(digit) && newCarry < Pow(2, shift) && digit + BASE * newCarry == Pow(2, shift) * d + carry
  {
    hide Pow, U32;
    ShiftDigit(d, shift, carry);
    newCarry := d / Pow(2, BITS - shift);
    digit := U32(U32(d * Pow(2, shift)) + carry) % BASE;
  }

  /** Shifts the n digits of a left inside 32-bit words; the bits that leave the top
      digit are returned. */
  method ShiftDigits(a: array<int>, n: nat, shift: nat) returns (carry: nat)
    requires n <= a.Length && shift < BITS && AllDigits(a[..], n)
    modifies a
    ensures carry < Pow(2, shift) <= BASE
    ensures AllDigits(a[..], n)
    ensures Num(a[..], n) + carry * W(n) == Pow(2, shift) * Num(old(a[..]), n)
  {
    hide Pow, W, Num, U32;
    NumNone(a[..]);
    ghost var s0, f := a[..], Pow(2, shift);
    PowMono(2, shift, BITS);
    Pow2Base();
    carry := 0;
    for i := 0 to n
      invariant carry < f
      invariant forall j :: i <= j < n ==> a[j] == s0[j]
      invariant AllDigits(a[..], i)
      invariant Num(a[..], i) + carry * W(i) == f * Num(s0, i)
    {
      ghost var s := a[..];
      var digit, newCarry := ShiftOne(a[i], shift, carry);
      a[i] := digit;
      ScaleStep(s, a[..], s0, i, f, carry, digit, newCarry);
      carry := newCarry;
    }
  }

  /** Multiplies the n digits of a by a 32-bit factor; the carry is returned. */
  method ScaleDigits32(a: array<int>, n: nat, factor: nat) returns (carry: nat)
    requires n <= a.Length && AllDigits(a[..], n) && 0 < factor < TWO32
    modifies a
    ensures carry <= factor
    ensures AllDigits(a[..], n)
    ensures Num(a[..], n) + carry * W(n) == factor * Num(old(a[..]), n)
  {
    ghost var s0 := a[..];
    carry := 0;
    for i := 0 to n
      invariant carry <= factor
      invariant forall j :: i <= j < n ==> a[j] == s0[j]
      invariant AllDigits(a[..], i)
      invariant Num(a[..], i) + carry * W(i) == factor * Num(s0, i)
    {
      ghost var s := a[..];
      var product := U64(factor * a[i] + carry);
      ProductFits32(factor, a[i], carry);
      a[i] := product % BASE;
      CarryBound(factor, s0[i], carry, product % BASE, product / BASE);
      ScaleStep(s, a[..], s0, i, factor, carry, product % BASE, product / BASE);
      carry := product / BASE;
    }
  }

  /** Multiplies the n digits of a by a 64-bit factor, taken as two 32-bit halves. The
      high half's product joins the carry directly; no 64-bit sum wraps. */
  method ScaleDigits64(a: array<int>, n: nat, factor: nat) returns (carry: nat)
    requires n <= a.Length && AllDigits(a[..], n) && 0 < factor < TWO64
    modifies a
    ensures carry <= factor
    ensures AllDigits(a[..], n)
    ensures Num(a[..], n) + carry * W(n) == factor * Num(old(a[..]), n)
  {
    hide U64, W, Num;
    NumNone(a[..]);
    ghost var s0 := a[..];
    carry := 0;
    var low, high := factor % TWO32, factor / TWO32;
    for i := 0 to n
      invariant carry <= factor
      invariant forall j :: i <= j < n ==> a[j] == s0[j]
      invariant AllDigits(a[..], i)
      invariant Num(a[..], i) + carry * W(i) == factor * Num(s0, i)
    {
      ghost var s := a[..];
      var productLow := U64(low * a[i]);
      var productHigh := U64(high * a[i]);
      var tmp := U64(carry % BASE + productLow);
      var newCarry := U64(U64(carry / BASE + tmp / BASE) + U64(productHigh * 16));
      WideProduct(factor, a[i], carry);
      a[i] := tmp % BASE;
      ScaleStep(s, a[..], s0, i, factor, carry, tmp % BASE, newCarry);
      carry := newCarry;
    }
  }

  /** Replaces the top digit of a by its remainder by the digit d. */
  method DivideTop(a: array<int>, n: nat, d: int, ghost o: nat, ghost e: nat) returns (quotient: nat)
    requires 0 < n <= a.Length && AllDigits(a[..], n) && 0 < d < BASE && o == d * W(n - 1 + e)
    modifies a
    ensures AllDigits(a[..], n)
    ensures Val(old(a[..]), n, e) == quotient * o + Val(a[..], n, e)
    ensures 0 <= Val(a[..], n, e) < o
  {
    ghost var s := a[..];
    var remainder;
    quotient, remainder := DivideDigit(a[n - 1], d);
    a[n - 1] := remainder;
    SingleDigit(s, n, e, a[..], d, o, quotient, remainder);
  }

  /** Quotient and remainder of one digit by another, in 32-bit words. */
  method DivideDigit(x: int, d: int) returns (quotient: nat, remainder: nat)
    requires IsDigit(x) && 0 < d < BASE
    ensures x == quotient * d + remainder && remainder < d
  {
    quotient := x / d;
    RemainderWord(x, d);
    DivMod(x, d);
    remainder := U32(x - d * quotient);
  }

  /** The low digit of a carry and what remains above it. */
  method SplitCarry(carry: nat) returns (digit: nat, rest: nat)
    ensures IsDigit(digit) && digit + BASE * rest == carry
  {
    digit, rest := carry % BASE, carry / BASE;
  }

  /** Removes factor times the digit o and the borrow from the digit x, in words. */
  method RemoveMultiple(x: int, factor: nat, o: int, borrow: nat) returns (digit: nat, newBorrow: nat)
    requires IsDigit(x) && IsDigit(o) && factor < BASE && borrow <= factor
    ensures IsDigit(digit) && newBorrow <= factor
    ensures digit - BASE * newBorrow == x - factor * o - borrow
  {
    var product := U64(factor * o);
    var remove := U64(borrow + product);
    RemoveFits(factor, o, borrow);
    var difference := U32(x - remove % BASE);
    RemoveWord(x, remove, factor);
    digit := difference % BASE;
    newBorrow := U32(difference / 0x8000_0000 + remove / BASE);
  }

  /** Adds the m digits of o into a at position off; pos is one past the last digit
      written. The ghost e is the exponent both are weighed at. */
  method AddInto(a: array<int>, n: nat, o: array<int>, m: nat, off: nat, ghost e: nat) returns (pos: nat)
    requires a != o && m <= o.Length && Max(n, off + m) < a.Length
    requires AllDigits(a[..], n) && AllDigits(o[..], m)
    modifies a
    ensures off + m <= pos <= a.Length
    ensures pos <= Max(n, off + m) || (pos == Max(n, off + m) + 1 && a[pos - 1] != 0)
    ensures AllDigits(a[..], pos)
    ensures forall j :: pos <= j < n ==> a[j] == old(a[j])
    ensures Val(a[..], pos, e) == Val(Extended(old(a[..]), n), pos, e) + Val(o[..], m, e + off)
  {
    ghost var s0 := a[..];
    FillZeros(a, n, off);
    var carry;
    carry, pos := AddDigits(a, n, o, m, off, s0, e);
    pos := PropagateCarry(a, n, carry, pos, s0, e, Val(o[..], m, e + off));
  }

  /** Moves the n lowest digits up by z positions, from the top down, and clears the
      positions below. */
  method ShiftUp(a: array<int>, n: nat, z: nat)
    requires n + z <= a.Length
    modifies a
    ensures forall k :: 0 <= k < z ==> a[k] == 0
    ensures forall k :: 0 <= k < n ==> a[z + k] == old(a[k])
  {
    var i := n - 1;
    while i >= 0
      invariant -1 <= i < n
      invariant forall j :: i < j < n ==> a[z + j] == old(a[j])
      invariant forall j :: 0 <= j <= i ==> a[j] == old(a[j])
    {
      a[i + z] := a[i];
      i := i - 1;
    }
    for j := 0 to z
      invariant forall k :: 0 <= k < j ==> a[k] == 0
      invariant forall k :: 0 <= k < n ==> a[z + k] == old(a[k])
    {
      a[j] := 0;
    }
  }

  /** Clears the digits between a number's top and position off. */
  method FillZeros(a: array<int>, n: nat, off: nat)
    requires n <= a.Length && off <= a.Length
    modifies a
    ensures forall j :: 0 <= j < off ==> a[j] == Extended(old(a[..]), n)[j]
    ensures forall j :: 0 <= j < n ==> a[j] == old(a[j])
  {
    var i := n;
    while i < off
      invariant n <= i <= Max(n, off)
      invariant forall j :: 0 <= j < n ==> a[j] == old(a[j])
      invariant forall j :: n <= j < i ==> a[j] == 0
    {
      a[i] := 0;
      i := i + 1;
    }
  }

  /** Adds the m digits of o into a at position off; s0 is a's content before the gap
      below off was cleared, and e the exponent both are weighed at. */
  method AddDigits(a: array<int>, n: nat, o: array<int>, m: nat, off: nat, ghost s0: seq<int>, ghost e: nat)
    returns (carry: nat, pos: nat)
    requires a != o && m <= o.Length && n <= a.Length == |s0| && off + m < a.Length
    requires AllDigits(s0, n) && AllDigits(o[..], m)
    requires forall j :: 0 <= j < off ==> a[j] == Extended(s0, n)[j]
    requires forall j :: 0 <= j < n ==> a[j] == s0[j]
    modifies a
    ensures pos == off + m && carry <= 1
    ensures AllDigits(a[..], pos)
    ensures forall j :: pos <= j < n ==> a[j] == s0[j]
    ensures Val(a[..], pos, e) + carry * W(pos + e) == Val(Extended(s0, n), pos, e) + Val(o[..], m, e + off)
  {
    hide W, Val;
    ghost var x0, os := Extended(s0, n), o[..];
    carry, pos := 0, off;
    ValFrame(a[..], x0, off, e);
    ValNext(os, 0, e + off);
    for i := 0 to m
      invariant pos == off + i && carry <= 1
      invariant AllDigits(a[..], pos)
      invariant forall j :: pos <= j < n ==> a[j] == s0[j]
      invariant Val(a[..], pos, e) + carry * W(pos + e) == Val(x0, pos, e) + Val(os, i, e + off)
    {
      ghost var s := a[..];
      var my := if pos < n then a[pos] else 0;
      var sum := U32(my + o[i] + carry);
      SplitWord(sum);
      ValNext(os, i, e + off);
      a[pos] := sum % BASE;
      AddStep(s, a[..], x0, pos, e, os[i], carry, sum % BASE, sum / BASE);
      carry := sum / BASE;
      pos := pos + 1;
    }
  }

  /** Carries on above the added digits; at most one digit is appended. */
  method PropagateCarry(a: array<int>, n: nat, c: nat, from: nat, ghost s0: seq<int>, ghost e: nat, ghost r: int)
    returns (pos: nat)
    requires n <= a.Length == |s0| && Max(n, from) < a.Length && c <= 1
    requires AllDigits(s0, n) && AllDigits(a[..], from)
    requires forall j :: from <= j < n ==> a[j] == s0[j]
    requires Val(a[..], from, e) + c * W(from + e) == Val(Extended(s0, n), from, e) + r
    modifies a
    ensures from <= pos
    ensures pos <= Max(n, from) || (pos == Max(n, from) + 1 && a[pos - 1] != 0)
    ensures AllDigits(a[..], pos)
    ensures forall j :: pos <= j < n ==> a[j] == s0[j]
    ensures Val(a[..], pos, e) == Val(Extended(s0, n), pos, e) + r
  {
    hide Val;
    ghost var x0, top := Extended(s0, n), Max(n, from);
    var carry: nat := c;
    pos := from;
    while carry != 0
      invariant from <= pos && carry <= 1
      invariant pos <= top || (pos == top + 1 && carry == 0 && a[pos - 1] != 0)
      invariant AllDigits(a[..], pos)
      invariant forall j :: pos <= j < n ==> a[j] == s0[j]
      invariant Val(a[..], pos, e) + carry * W(pos + e) == Val(x0, pos, e) + r
      decreases top + 1 - pos
    {
      ghost var s := a[..];
      var my := if pos < n then a[pos] else 0;
      var sum := U32(my + carry);
      SplitWord(sum);
      a[pos] := sum % BASE;
      AddStep(s, a[..], x0, pos, e, 0, carry, sum % BASE, sum / BASE);
      carry := sum / BASE;
      pos := pos + 1;
    }
  }

  /** Subtracts the m digits of o, at position off, from the n digits of a. */
  method SubtractDigits(a: array<int>, n: nat, o: array<int>, m: nat, off: nat, ghost e: nat)
    requires a != o && n <= a.Length && m <= o.Length && (m > 0 ==> off + m <= n) && (m == 0 ==> off == 0)
    requires AllDigits(a[..], n) && AllDigits(o[..], m)
    requires Val(o[..], m, e + off) <= Val(a[..], n, e)
    modifies a
    ensures AllDigits(a[..], n)
    ensures Val(a[..], n, e) == Val(old(a[..]), n, e) - Val(o[..], m, e + off)
  {
    hide W, Val;
    ghost var s0, os := a[..], o[..];
    var borrow: nat := 0;
    var i := 0;
    ValNext(os, 0, e + off);
    while i < m
      invariant 0 <= i <= m && borrow <= 1
      invariant AllDigits(a[..], n)
      invariant forall j :: off + i <= j < n ==> a[j] == s0[j]
      invariant Val(a[..], i + off, e) + Val(os, i, e + off) == Val(s0, i + off, e) + borrow * W(i + off + e)
    {
      ghost var s := a[..];
      ValNext(os, i, e + off);
      var difference := U32(a[i + off] - o[i] - borrow);
      BorrowDigit(a[i + off] - o[i] - borrow);
      a[i + off] := difference % BASE;
      SubtractStep(s, a[..], s0, i + off, e, os[i], borrow, difference % BASE, difference / 0x8000_0000);
      borrow := difference / 0x8000_0000;
      i := i + 1;
    }
    PropagateBorrow(a, n, borrow, i + off, s0, e, Val(os, m, e + off));
  }

  /** Borrows on above the subtracted digits until a digit absorbs the borrow. */
  method PropagateBorrow(a: array<int>, n: nat, b: nat, from: nat, ghost s0: seq<int>, ghost e: nat, ghost r: int)
    requires from <= n <= a.Length == |s0| && b <= 1
    requires AllDigits(a[..], n)
    requires forall j :: from <= j < n ==> a[j] == s0[j]
    requires r <= Val(s0, n, e)
    requires Val(a[..], from, e) + r == Val(s0, from, e) + b * W(from + e)
    modifies a
    ensures AllDigits(a[..], n)
    ensures Val(a[..], n, e) == Val(s0, n, e) - r
  {
    hide W, Val;
    var borrow: nat := b;
    var i := from;
    while borrow != 0
      invariant from <= i <= n && borrow <= 1
      invariant AllDigits(a[..], n)
      invariant forall j :: i <= j < n ==> a[j] == s0[j]
      invariant Val(a[..], i, e) + r == Val(s0, i, e) + borrow * W(i + e)
      decreases n - i, borrow
    {
      ghost var s := a[..];
      NoBorrowAtTop(s0, s, n, e, r, i, borrow);
      var difference := U32(a[i] - borrow);
      BorrowDigit(a[i] - borrow);
      a[i] := difference % BASE;
      SubtractStep(s, a[..], s0, i, e, 0, borrow, difference % BASE, difference / 0x8000_0000);
      borrow := difference / 0x8000_0000;
      i := i + 1;
    }
    ValHighFrame(a[..], s0, i, n, e);
  }

  /** Subtracts factor times the m digits of o, at position off, from the n digits of
      a. The result says whether the pass ended before the top digit, which is then
      untouched. */
  method SubtractMultiple(a: array<int>, n: nat, o: array<int>, m: nat, off: nat, factor: nat, ghost e: nat)
    returns (early: bool)
    requires a != o && n <= a.Length && m <= o.Length && off + m <= n && factor < BASE
    requires AllDigits(a[..], n) && AllDigits(o[..], m)
    requires factor * Val(o[..], m, e + off) <= Val(a[..], n, e)
    modifies a
    ensures AllDigits(a[..], n)
    ensures Val(a[..], n, e) == Val(old(a[..]), n, e) - factor * Val(o[..], m, e + off)
    ensures early ==> n > 0 && a[n - 1] == old(a[n - 1])
  {
    ghost var s0 := a[..];
    var borrow := SubtractScaled(a, n, o, m, off, factor, e);
    early := BorrowUp(a, n, off + m, borrow, s0, e, factor * Val(o[..], m, e + off));
  }

  method SubtractScaled(a: array<int>, n: nat, o: array<int>, m: nat, off: nat, factor: nat, ghost e: nat)
    returns (borrow: nat)
    requires a != o && n <= a.Length && m <= o.Length && off + m <= n && factor < BASE
    requires AllDigits(a[..], n) && AllDigits(o[..], m)
    modifies a
    ensures borrow <= factor
    ensures AllDigits(a[..], n)
    ensures forall j :: off + m <= j < n ==> a[j] == old(a[j])
    ensures Val(a[..], off + m, e) + factor * Val(o[..], m, e + off)
         == Val(old(a[..]), off + m, e) + borrow * W(off + m + e)
  {
    ghost var s0, os := a[..], o[..];
    borrow := 0;
    for i := 0 to m
      invariant borrow <= factor
      invariant AllDigits(a[..], n)
      invariant forall j :: 0 <= j < off ==> a[j] == s0[j]
      invariant forall j :: off + i <= j < n ==> a[j] == s0[j]
      invariant Val(a[..], off + i, e) + factor * Val(os, i, e + off)
             == Val(s0, off + i, e) + borrow * W(off + i + e)
    {
      ghost var s := a[..];
      var digit, newBorrow := RemoveMultiple(a[i + off], factor, o[i], borrow);
      a[i + off] := digit;
      SubtractStep(s, a[..], s0, i + off, e, factor * os[i], borrow, digit, newBorrow);
      ScaledDigit(factor, os, i, e + off);
      borrow := newBorrow;
    }
  }

  method BorrowUp(a: array<int>, n: nat, from: nat, b: nat, ghost s0: seq<int>, ghost e: nat, ghost r: int)
    returns (early: bool)
    requires from <= n <= a.Length == |s0| && b < BASE
    requires AllDigits(a[..], n)
    requires forall j :: from <= j < n ==> a[j] == s0[j]
    requires r <= Val(s0, n, e)
    requires Val(a[..], from, e) + r == Val(s0, from, e) + b * W(from + e)
    modifies a
    ensures AllDigits(a[..], n)
    ensures Val(a[..], n, e) == Val(s0, n, e) - r
    ensures early ==> n > 0 && a[n - 1] == s0[n - 1]
  {
    hide Val;
    var borrow: nat := b;
    for i := from to n
      invariant borrow < BASE
      invariant AllDigits(a[..], n)
      invariant forall j :: i <= j < n ==> a[j] == s0[j]
      invariant Val(a[..], i, e) + r == Val(s0, i, e) + borrow * W(i + e)
    {
      ghost var s := a[..];
      if borrow == 0 {
        ValHighFrame(a[..], s0, i, n, e);
        return true;
      }
      var difference := U32(a[i] - borrow);
      BorrowDigit(a[i] - borrow);
      a[i] := difference % BASE;
      SubtractStep(s, a[..], s0, i, e, 0, borrow, difference % BASE, difference / 0x8000_0000);
      borrow := difference / 0x8000_0000;
    }
    if borrow > 0 {
      NoBorrowAtTop(s0, a[..], n, e, r, n, borrow);
    }
    early := false;
  }
}
