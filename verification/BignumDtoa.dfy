// Digit generation on exact ratios of big numbers: the shortest decimal in a rounding
// interval, and correctly rounded decimals of a given length.

module BignumDtoa {
  import opened Arith
  import opened Bignums
  import opened Decimal
  import opened Digits
  import opened FixedRounding
  import PowerSteps
  import opened PowerEstimate
  import opened Rounding
  import opened Shortest

  /** The four numbers live in different buffers. */
  ghost predicate Separate(a: Bignum, b: Bignum, c: Bignum, d: Bignum) {
    && a.bigits != b.bigits && a.bigits != c.bigits && a.bigits != d.bigits
    && b.bigits != c.bigits && b.bigits != d.bigits && c.bigits != d.bigits
    && a != b && a != c && a != d && b != c && b != d && c != d
  }

  /** Takes the next digit off numerator / denominator, which is below 10. */
  method NextDigit(numerator: Bignum, denominator: Bignum) returns (digit: nat)
    requires numerator.Valid() && denominator.Valid() && numerator.bigits != denominator.bigits
    requires 0 < denominator.Value() && numerator.Value() < 10 * denominator.Value() <= W(CAPACITY)
    modifies numerator, numerator.bigits
    ensures numerator.Valid() && digit <= 9
    ensures old(numerator.Value()) == digit * denominator.Value() + numerator.Value()
    ensures 0 <= numerator.Value() < denominator.Value()
  {
    hide W;
    ghost var n, d := numerator.Value(), denominator.Value();
    DivMod(n, d);
    MulCancelLess(n / d, 10, d);
    numerator.Range();
    denominator.Range();
    if numerator.BigitLength() > 0 {
      WLess(numerator.BigitLength() - 1, CAPACITY);
    }
    digit := numerator.DivideModuloIntBignum(denominator);
  }

  /** Multiplies a number below a tenth of the capacity by 10. */
  method TimesTen(x: Bignum, ghost bound: nat)
    requires x.Valid() && x.Value() <= bound && 10 * bound < W(CAPACITY)
    modifies x, x.bigits
    ensures x.Valid() && x.Value() == old(x.Value()) * 10
  {
    hide W;
    x.MantissaBelowValue();
    x.Times10();
  }

  /** Whether the remainder is within reach of the interval's ends. */
  method InDeltaRoom(numerator: Bignum, deltaMinus: Bignum, deltaPlus: Bignum, denominator: Bignum, isEven: bool)
    returns (minus: bool, plus: bool)
    requires numerator.Valid() && deltaMinus.Valid() && deltaPlus.Valid() && denominator.Valid()
    ensures minus == RoomMinus(numerator.Value(), deltaMinus.Value(), isEven)
    ensures plus == RoomPlus(numerator.Value(), deltaPlus.Value(), denominator.Value(), isEven)
  {
    hide W;
    if isEven {
      minus := Bignum.LessEqual(numerator, deltaMinus);
    } else {
      minus := Bignum.Less(numerator, deltaMinus);
    }
    var c := Bignum.PlusCompare(numerator, deltaPlus, denominator);
    if isEven {
      plus := c >= 0;
    } else {
      plus := c > 0;
    }
  }

  /** Whether the last digit is rounded up once the loop may stop: towards the only side
      in the interval, else to the nearer one, and halfway to the even digit. */
  method ChooseUp(numerator: Bignum, denominator: Bignum, minus: bool, plus: bool, digit: nat) returns (up: bool)
    requires numerator.Valid() && denominator.Valid() && (minus || plus)
    ensures up == if minus && plus
                  then 2 * numerator.Value() > denominator.Value()
                       || (2 * numerator.Value() == denominator.Value() && digit % 2 != 0)
                  else plus
  {
    hide W;
    if minus && plus {
      var compare := Bignum.PlusCompare(numerator, numerator, denominator);
      if compare < 0 {
        up := false;
      } else if compare > 0 {
        up := true;
      } else {
        up := digit % 2 != 0;
      }
    } else {
      up := plus;
    }
  }

  /** The state of the shortest generation after the digits of s. */
  ghost predicate Generating(numerator: Bignum, denominator: Bignum, deltaMinus: Bignum, deltaPlus: Bignum,
                             s: seq<char>, n: int, m: int, p: int, d: int, even: bool)
    reads numerator, numerator.bigits, denominator, denominator.bigits
    reads deltaMinus, deltaMinus.bigits, deltaPlus, deltaPlus.bigits
  {
    && numerator.Valid() && denominator.Valid() && deltaMinus.Valid() && deltaPlus.Valid()
    && denominator.Value() == d
    && deltaMinus.Value() == Pow(10, |s|) * m && deltaPlus.Value() == Pow(10, |s|) * p
    && AllDecimal(s) && numerator.Value() < 10 * d
    && Progress(|s|, DecimalValue(s), numerator.Value(), n, m, p, d, even)
  }

  /** The interval's ends, which may be one object when they are equally far away. */
  ghost predicate Deltas(numerator: Bignum, denominator: Bignum, deltaMinus: Bignum, deltaPlus: Bignum)
  {
    && numerator.bigits != denominator.bigits && numerator != denominator
    && numerator.bigits != deltaMinus.bigits && numerator != deltaMinus
    && numerator.bigits != deltaPlus.bigits && numerator != deltaPlus
    && denominator.bigits != deltaMinus.bigits && denominator != deltaMinus
    && denominator.bigits != deltaPlus.bigits && denominator != deltaPlus
    && (deltaMinus == deltaPlus || (deltaMinus != deltaPlus && deltaMinus.bigits != deltaPlus.bigits))
  }

  /** Prepares the next round: everything but the denominator grows tenfold. */
  method ScaleByTen(numerator: Bignum, deltaMinus: Bignum, deltaPlus: Bignum, ghost d: nat)
    requires numerator.Valid() && deltaMinus.Valid() && deltaPlus.Valid() && 10 * d < W(CAPACITY)
    requires numerator.Value() <= d && deltaMinus.Value() <= d && deltaPlus.Value() <= d
    requires numerator.bigits != deltaMinus.bigits && numerator != deltaMinus
    requires numerator.bigits != deltaPlus.bigits && numerator != deltaPlus
    requires deltaMinus == deltaPlus || (deltaMinus != deltaPlus && deltaMinus.bigits != deltaPlus.bigits)
    modifies numerator, numerator.bigits, deltaMinus, deltaMinus.bigits, deltaPlus, deltaPlus.bigits
    ensures numerator.Valid() && numerator.Value() == 10 * old(numerator.Value())
    ensures deltaMinus.Valid() && deltaMinus.Value() == 10 * old(deltaMinus.Value())
    ensures deltaPlus.Valid() && deltaPlus.Value() == 10 * old(deltaPlus.Value())
  {
    hide W;
    TimesTen(numerator, d);
    TimesTen(deltaMinus, d);
    if deltaMinus != deltaPlus {
      TimesTen(deltaPlus, d);
    }
  }

  /** The rounding choice once the generation may stop: within the interval, towards the
      nearer side, and half way to the even digit. */
  ghost predicate GoodChoice(up: bool, digit: nat, rem: nat, sm: nat, sp: nat, d: nat, even: bool) {
    var minus, plus := RoomMinus(rem, sm, even), RoomPlus(rem, sp, d, even);
    && (if up then plus && (!minus || 2 * rem >= d) else minus && (!plus || 2 * rem <= d))
    && (minus && plus && 2 * rem == d ==> (up <==> digit % 2 == 1))
  }

  /** One digit, and whether it is the last one and is rounded up; when it is not the
      last, everything but the denominator is scaled for the next. */
  method TakeDigit(numerator: Bignum, denominator: Bignum, deltaMinus: Bignum, deltaPlus: Bignum, isEven: bool)
    returns (digit: nat, done: bool, up: bool, ghost rem: nat)
    requires Deltas(numerator, denominator, deltaMinus, deltaPlus)
    requires numerator.Valid() && denominator.Valid() && deltaMinus.Valid() && deltaPlus.Valid()
    requires 0 < denominator.Value() && 10 * denominator.Value() < W(CAPACITY)
    requires numerator.Value() < 10 * denominator.Value()
    modifies numerator, numerator.bigits, deltaMinus, deltaMinus.bigits, deltaPlus, deltaPlus.bigits
    ensures numerator.Valid() && denominator.Valid() && deltaMinus.Valid() && deltaPlus.Valid()
    ensures denominator.Value() == old(denominator.Value())
    ensures digit <= 9 && rem < denominator.Value()
    ensures old(numerator.Value()) == digit * denominator.Value() + rem
    ensures done ==>
              GoodChoice(up, digit, rem, old(deltaMinus.Value()), old(deltaPlus.Value()), denominator.Value(), isEven)
    ensures !done ==> !RoomMinus(rem, old(deltaMinus.Value()), isEven)
    ensures !done ==> !RoomPlus(rem, old(deltaPlus.Value()), denominator.Value(), isEven)
    ensures !done ==> numerator.Value() == 10 * rem
    ensures !done ==>
              deltaMinus.Value() == 10 * old(deltaMinus.Value()) && deltaPlus.Value() == 10 * old(deltaPlus.Value())
  {
    hide W;
    digit := NextDigit(numerator, denominator);
    rem := numerator.Value();
    var minus, plus := InDeltaRoom(numerator, deltaMinus, deltaPlus, denominator, isEven);
    done, up := minus || plus, false;
    if done {
      up := ChooseUp(numerator, denominator, minus, plus, digit);
    } else {
      ScaleByTen(numerator, deltaMinus, deltaPlus, denominator.Value());
    }
  }

  lemma LastRound(s: seq<char>, value: nat, digit: nat, rem: nat, up: bool, n: nat, m: nat, p: nat, d: nat, even: bool)
    requires Progress(|s|, DecimalValue(s), value, n, m, p, d, even) && AllDecimal(s)
    requires digit <= 9 && rem < d && value == digit * d + rem && 0 < m && 0 < p
    requires if even then n + p < 10 * d else n + p <= 10 * d
    requires Pow(10, |s|) * m >= 0 && Pow(10, |s|) * p >= 0
    requires GoodChoice(up, digit, rem, Pow(10, |s|) * m, Pow(10, |s|) * p, d, even)
    ensures ShortestResult(s + [DigitChar(if up then digit + 1 else digit)], n, m, p, d, even)
  {
    var last := DigitChar(if up then digit + 1 else digit);
    StepFinish(|s|, DecimalValue(s), value, digit, rem, up, n, m, p, d, even);
    DecimalPush(s, last);
    assert |s + [last]| - 1 == |s|;
  }

  /** One round: a digit, and then either the end or everything scaled for the next. */
  method ShortestRound(numerator: Bignum, denominator: Bignum, deltaMinus: Bignum, deltaPlus: Bignum,
                       isEven: bool, buffer: array<char>, length: nat,
                       ghost n: nat, ghost m: nat, ghost p: nat, ghost d: nat)
    returns (done: bool)
    requires length < buffer.Length && Deltas(numerator, denominator, deltaMinus, deltaPlus)
    requires Generating(numerator, denominator, deltaMinus, deltaPlus, buffer[..length], n, m, p, d, isEven)
    requires 0 < d && 10 * d < W(CAPACITY) && 0 < m && 0 < p
    requires if isEven then n + p < 10 * d else n + p <= 10 * d
    modifies numerator, numerator.bigits, deltaMinus, deltaMinus.bigits, deltaPlus, deltaPlus.bigits, buffer
    ensures done ==> ShortestResult(buffer[..length + 1], n, m, p, d, isEven)
    ensures !done ==>
              Generating(numerator, denominator, deltaMinus, deltaPlus, buffer[..length + 1], n, m, p, d, isEven)
    ensures !done ==> 0 < Pow(10, length) * m < d && Pow(10, length) * m < Pow(10, length + 1) * m
  {
    hide Progress, ShortestResult, W, Deltas, DecimalValue;
    ghost var s, value := buffer[..length], numerator.Value();
    var digit: nat, up: bool;
    ghost var rem: nat;
    digit, done, up, rem := TakeDigit(numerator, denominator, deltaMinus, deltaPlus, isEven);
    buffer[length] := DigitChar(digit);
    if done {
      if up {
        buffer[length] := DigitChar(digit + 1);
      }
      LastRound(s, value, digit, rem, up, n, m, p, d, isEven);
      assert buffer[..length + 1] == s + [DigitChar(if up then digit + 1 else digit)];
    } else {
      StepContinue(length, DecimalValue(s), value, digit, rem, n, m, p, d, isEven);
      assert buffer[..length + 1] == s + [DigitChar(digit)];
      DecimalPush(s, DigitChar(digit));
    }
  }

  /** Before the first digit. */
  lemma Start(n: nat, m: nat, p: nat, d: nat, even: bool)
    requires n < 10 * d
    ensures Progress(0, DecimalValue([]), n, n, m, p, d, even)
    ensures Pow(10, 0) * m == m && Pow(10, 0) * p == p
  {
  }

  method GenerateShortestDigits(numerator: Bignum, denominator: Bignum, deltaMinus: Bignum, deltaPlus: Bignum,
                                isEven: bool, buffer: array<char>, ghost digits: nat)
    returns (length: nat)
    requires numerator.Valid() && denominator.Valid() && deltaMinus.Valid() && deltaPlus.Valid()
    requires Separate(numerator, denominator, deltaMinus, deltaPlus)
    requires 0 < denominator.Value() && 10 * denominator.Value() < W(CAPACITY)
    requires 0 < deltaMinus.Value() && 0 < deltaPlus.Value()
    requires if isEven then numerator.Value() + deltaPlus.Value() < 10 * denominator.Value()
             else numerator.Value() + deltaPlus.Value() <= 10 * denominator.Value()
    requires 0 < digits <= buffer.Length
    requires denominator.Value() < Pow(10, digits - 1) * (deltaMinus.Value() + deltaPlus.Value())
    modifies numerator, numerator.bigits, deltaMinus, deltaMinus.bigits, deltaPlus, deltaPlus.bigits, buffer
    ensures length <= digits
    ensures ShortestResult(buffer[..length], old(numerator.Value()), old(deltaMinus.Value()), old(deltaPlus.Value()),
                           old(denominator.Value()), isEven)
  {
    hide W, Pow;
    var plus := deltaPlus;
    var same := Bignum.Equal(deltaMinus, deltaPlus);
    if same {
      plus := deltaMinus;
    }
    ghost var n, m, p, d := numerator.Value(), deltaMinus.Value(), deltaPlus.Value(), denominator.Value();
    length := 0;
    var done := false;
    Start(n, m, p, d, isEven);
    while !done
      invariant length <= digits
      invariant plus == deltaMinus || plus == deltaPlus
      invariant if done then ShortestResult(buffer[..length], n, m, p, d, isEven)
                else Generating(numerator, denominator, deltaMinus, plus, buffer[..length], n, m, p, d, isEven)
      decreases !done, d - Pow(10, length) * m
    {
      BufferHasRoom(length, digits, m + p, d);
      done := ShortestRound(numerator, denominator, deltaMinus, plus, isEven, buffer, length, n, m, p, d);
      length := length + 1;
    }
  }

  /** The digits of s and a remaining value, against 10 times d, make up 10^|s| times n. */
  ghost predicate Leading(s: seq<char>, value: nat, n: nat, d: nat) {
    AllDecimal(s) && value < 10 * d && Pow(10, |s|) * n == (10 * DecimalValue(s)) * d + value
  }

  lemma LeadingStep(s: seq<char>, value: nat, digit: nat, rem: nat, n: nat, d: nat)
    requires Leading(s, value, n, d) && digit <= 9 && value == digit * d + rem && rem < d
    ensures Leading(s + [DigitChar(digit)], 10 * rem, n, d)
  {
    DecimalPush(s, DigitChar(digit));
    DigitSplit(Pow(10, |s|) * n, DecimalValue(s), digit, rem, value, d);
    NextScale(|s|, 10 * DecimalValue(s) + digit, rem, n, d);
  }

  /** Generates one digit and scales the rest for the next. */
  method LeadingDigit(numerator: Bignum, denominator: Bignum) returns (digit: nat, ghost rem: nat)
    requires numerator.Valid() && denominator.Valid()
    requires numerator != denominator && numerator.bigits != denominator.bigits
    requires 0 < denominator.Value() && 10 * denominator.Value() < W(CAPACITY)
    requires numerator.Value() < 10 * denominator.Value()
    modifies numerator, numerator.bigits
    ensures numerator.Valid() && denominator.Valid() && denominator.Value() == old(denominator.Value())
    ensures digit <= 9 && rem < denominator.Value() && old(numerator.Value()) == digit * denominator.Value() + rem
    ensures numerator.Value() == 10 * rem
  {
    hide W;
    ghost var d := denominator.Value();
    digit := NextDigit(numerator, denominator);
    rem := numerator.Value();
    TimesTen(numerator, d);
  }

  /** Generates all but the last of count digits; after k of them the prefix and the
      numerator make up 10^k times the ratio. */
  method GenerateLeadingDigits(numerator: Bignum, denominator: Bignum, count: nat, buffer: array<char>)
    requires numerator.Valid() && denominator.Valid()
    requires numerator != denominator && numerator.bigits != denominator.bigits
    requires 0 < denominator.Value() && 10 * denominator.Value() < W(CAPACITY)
    requires numerator.Value() < 10 * denominator.Value()
    requires 0 < count <= buffer.Length
    modifies numerator, numerator.bigits, buffer
    ensures numerator.Valid() && denominator.Valid() && denominator.Value() == old(denominator.Value())
    ensures Leading(buffer[..count - 1], numerator.Value(), old(numerator.Value()), denominator.Value())
  {
    hide W;
    ghost var n, d := numerator.Value(), denominator.Value();
    assert Pow(10, 0) * n == n;
    for i := 0 to count - 1
      invariant numerator.Valid() && denominator.Valid() && denominator.Value() == d
      invariant Leading(buffer[..i], numerator.Value(), n, d)
    {
      ghost var s, value := buffer[..i], numerator.Value();
      var digit, rem := LeadingDigit(numerator, denominator);
      buffer[i] := DigitChar(digit);
      assert buffer[..i + 1] == s + [DigitChar(digit)];
      LeadingStep(s, value, digit, rem, n, d);
    }
  }

  /** Generates count digits of a ratio below 10, rounded half upwards. When rounding
      carries past the first digit the decimal point moves by one. */
  method GenerateCountedDigits(count: nat, point: int, numerator: Bignum, denominator: Bignum, buffer: array<char>)
    returns (length: nat, decimalPoint: int)
    requires numerator.Valid() && denominator.Valid()
    requires numerator != denominator && numerator.bigits != denominator.bigits
    requires 0 < denominator.Value() && 10 * denominator.Value() < W(CAPACITY)
    requires numerator.Value() < 10 * denominator.Value()
    requires 0 < count <= buffer.Length
    modifies numerator, numerator.bigits, buffer
    ensures length == count
    ensures CountedResult(buffer[..count], point, decimalPoint, Scaled(count - 1, old(numerator.Value())),
                          old(denominator.Value()))
    ensures denominator.Valid() && denominator.Value() == old(denominator.Value())
  {
    hide W;
    ghost var n, d := numerator.Value(), denominator.Value();
    GenerateLeadingDigits(numerator, denominator, count, buffer);
    ghost var s, value := buffer[..count - 1], numerator.Value();
    var digit := LastDigit(numerator, denominator);
    ghost var rounded := 10 * DecimalValue(s) + digit;
    RoundLast(Scaled(count - 1, n), DecimalValue(s), value, d, digit);
    buffer[count - 1] := DigitChar(digit);
    assert buffer[..count] == s + [DigitChar(digit)];
    DecimalPush(s, DigitChar(digit));
    decimalPoint := PropagateTens(buffer, count, point);
    length := count;
  }

  /** The last digit, rounded half upwards; it can be 10. */
  method LastDigit(numerator: Bignum, denominator: Bignum) returns (digit: nat)
    requires numerator.Valid() && denominator.Valid()
    requires numerator != denominator && numerator.bigits != denominator.bigits
    requires 0 < denominator.Value() && 10 * denominator.Value() < W(CAPACITY)
    requires numerator.Value() < 10 * denominator.Value()
    modifies numerator, numerator.bigits
    ensures digit <= 10 && denominator.Valid() && denominator.Value() == old(denominator.Value())
    ensures digit == RoundHalfUp(old(numerator.Value()), denominator.Value())
  {
    hide W;
    ghost var value := numerator.Value();
    digit := NextDigit(numerator, denominator);
    RoundedQuotient(value, denominator.Value(), digit, numerator.Value());
    var compare := Bignum.PlusCompare(numerator, numerator, denominator);
    if compare >= 0 {
      digit := digit + 1;
    }
  }

  /** Generates requestedDigits digits after the decimal point, rounded half upwards, of
      the ratio times 10^(point - 1). No digits stand for zero. */
  method BignumToFixed(requestedDigits: nat, point: int, numerator: Bignum, denominator: Bignum, buffer: array<char>)
    returns (length: nat, decimalPoint: int)
    requires numerator.Valid() && denominator.Valid()
    requires numerator != denominator && numerator.bigits != denominator.bigits
    requires 0 < denominator.Value() && 10 * denominator.Value() < W(CAPACITY)
    requires numerator.Value() < 10 * denominator.Value()
    requires 0 < buffer.Length && point + requestedDigits <= buffer.Length
    modifies numerator, numerator.bigits, denominator, denominator.bigits, buffer
    ensures length <= buffer.Length && AllDecimal(buffer[..length])
    ensures -point > requestedDigits ==> length == 0 && decimalPoint == -(requestedDigits as int)
    ensures -point == requestedDigits ==>
              if 2 * old(numerator.Value()) >= 10 * old(denominator.Value())
              then length == 1 && buffer[0] == '1' && decimalPoint == point + 1
              else length == 0 && decimalPoint == point
    ensures -point < requestedDigits ==>
              && length == point + requestedDigits
              && CountedResult(buffer[..length], point, decimalPoint, Scaled(length - 1, old(numerator.Value())),
                               old(denominator.Value()))
  {
    hide W;
    if -point > requestedDigits {
      return 0, -(requestedDigits as int);
    } else if -point == requestedDigits {
      TimesTen(denominator, denominator.Value());
      var compare := Bignum.PlusCompare(numerator, numerator, denominator);
      if compare >= 0 {
        buffer[0] := '1';
        return 1, point + 1;
      }
      return 0, point;
    }
    var neededDigits := point + requestedDigits;
    length, decimalPoint := GenerateCountedDigits(neededDigits, point, numerator, denominator, buffer);
  }

  /** Brings the ratio into the range where its first digit is not zero, and says where
      the decimal point is. */
  method FixupMultiply10(estimatedPower: int, isEven: bool, numerator: Bignum, denominator: Bignum,
                         deltaMinus: Bignum, deltaPlus: Bignum)
    returns (decimalPoint: int)
    requires numerator.Valid() && denominator.Valid() && deltaMinus.Valid() && deltaPlus.Valid()
    requires Separate(numerator, denominator, deltaMinus, deltaPlus)
    requires 10 * denominator.Value() < W(CAPACITY) && deltaMinus.Value() <= numerator.Value()
    modifies numerator, numerator.bigits, deltaMinus, deltaMinus.bigits, deltaPlus, deltaPlus.bigits
    ensures numerator.Valid() && denominator.Valid() && deltaMinus.Valid() && deltaPlus.Valid()
    ensures denominator.Value() == old(denominator.Value())
    ensures var room := old(RoomPlus(numerator.Value(), deltaPlus.Value(), denominator.Value(), isEven));
            var factor := if room then 1 else 10;
            && decimalPoint == (if factor == 1 then estimatedPower + 1 else estimatedPower)
            && numerator.Value() == factor * old(numerator.Value())
            && deltaMinus.Value() == factor * old(deltaMinus.Value())
            && deltaPlus.Value() == factor * old(deltaPlus.Value())
  {
    hide W, Val, AllDigits, Bignum.Clamped;
    var compare := Bignum.PlusCompare(numerator, deltaPlus, denominator);
    var inRange := if isEven then compare >= 0 else compare > 0;
    if inRange {
      decimalPoint := estimatedPower + 1;
    } else {
      decimalPoint := estimatedPower;
      ghost var d := denominator.Value();
      TimesTen(numerator, d);
      var same := Bignum.Equal(deltaMinus, deltaPlus);
      TimesTen(deltaMinus, d);
      if same {
        deltaPlus.AssignBignum(deltaMinus);
      } else {
        TimesTen(deltaPlus, d);
      }
    }
  }

  // The scaled start values: the number f * 2^e / 10^k is f * Upper / Lower.

  /** The range of a double's significand, exponent and estimated decimal power. */
  predicate DoubleRange(significand: nat, exponent: int, power: int) {
    0 < significand < 0x20_0000_0000_0000 && -1074 <= exponent <= 971 && -324 <= power <= 309
  }

  /** Shifts left a number that is far below the capacity. */
  method Shift(x: Bignum, amount: nat, ghost size: nat)
    requires x.Valid() && x.Value() < Pow(2, size) && amount <= 1100 && size + amount <= 3400
    modifies x, x.bigits
    ensures x.Valid() && x.Value() == old(x.Value()) * Pow(2, amount)
    ensures x.Value() < Pow(2, size + amount)
  {
    hide W;
    ghost var v := x.Value();
    x.Range();
    SizeToLength(size);
    if x.BigitLength() > 0 {
      WLess(x.BigitLength() - 1, size / BITS + 1);
    }
    PowAdd(2, size, amount);
    MulStrict(v, Pow(2, size), Pow(2, amount));
    x.ShiftLeft(amount);
  }

  lemma SizeToLength(size: nat)
    ensures Pow(2, size) <= W(size / BITS + 1)
  {
    WPow2(size / BITS + 1);
    PowMono(2, size, BITS * (size / BITS + 1));
  }

  lemma PowZero()
    ensures Pow(2, 0) == 1
  {
  }

  lemma SignificandSize()
    ensures Pow(2, 53) == 0x20_0000_0000_0000
  {
    PowAdd(2, 16, 16);
    PowAdd(2, 32, 16);
    PowAdd(2, 48, 5);
    assert Pow(2, 16) == 0x10000 by { PowAdd(2, 8, 8); assert Pow(2, 8) == 256; }
    assert Pow(2, 5) == 32;
  }

  /** 10^k needs at most four bits a digit. */
  lemma {:induction false} TenSize(k: nat)
    ensures Pow(10, k) < Pow(2, 4 * k + 1)
  {
    if k > 0 {
      TenSize(k - 1);
      assert Pow(2, 4 * k + 1) == 2 * (2 * (2 * (2 * Pow(2, 4 * (k - 1) + 1)))) by {
        assert Pow(2, 4 * k + 1) == 2 * Pow(2, 4 * k);
        assert Pow(2, 4 * k) == 2 * Pow(2, 4 * k - 1);
        assert Pow(2, 4 * k - 1) == 2 * Pow(2, 4 * k - 2);
      }
    }
  }

  /** x holds v, which has at most size bits. */
  ghost predicate Holds(x: Bignum, v: nat, size: nat)
    reads x, x.bigits
  {
    x.Valid() && x.Value() == v && v < Pow(2, size)
  }

  method AssignShifted(x: Bignum, value: nat, amount: nat)
    requires x.bigits.Length == CAPACITY && value < Pow(2, 53) && amount <= 1100
    modifies x, x.bigits
    ensures Holds(x, value * Pow(2, amount), 53 + amount)
  {
    hide W;
    SignificandSize();
    x.AssignUInt64(value);
    Shift(x, amount, 53);
  }

  method AssignTwoPower(x: Bignum, amount: nat)
    requires x.bigits.Length == CAPACITY && amount <= 1100
    modifies x, x.bigits
    ensures Holds(x, Pow(2, amount), amount + 1)
  {
    hide W;
    assert Pow(2, 1) == 2 * Pow(2, 0);
    x.AssignUInt16(1);
    Shift(x, amount, 1);
  }

  method AssignTenPower(x: Bignum, power: nat)
    requires x.bigits.Length == CAPACITY && power <= 330
    modifies x, x.bigits
    ensures Holds(x, Pow(10, power), 4 * power + 1)
  {
    hide W;
    FiveFits(power);
    TenSize(power);
    x.AssignPowerUInt16(10, power);
  }

  method Double(x: Bignum, ghost v: nat, ghost size: nat)
    requires Holds(x, v, size) && size + 1 <= 3400
    modifies x, x.bigits
    ensures Holds(x, 2 * v, size + 1)
  {
    hide W;
    assert Pow(2, 1) == 2 * Pow(2, 0);
    Shift(x, 1, size);
  }

  /** The scaled numbers of one double: the ratio with the common factor c, and the
      distances to the neighbours' midpoints, which only the shortest mode needs. */
  ghost predicate StartValues(numerator: Bignum, denominator: Bignum, deltaMinus: Bignum, deltaPlus: Bignum,
                              significand: nat, u: nat, v: nat, needDeltas: bool)
    reads numerator, numerator.bigits, denominator, denominator.bigits
    reads deltaMinus, deltaMinus.bigits, deltaPlus, deltaPlus.bigits
  {
    var c := if needDeltas then 2 else 1;
    && Holds(numerator, c * (significand * u), 2700) && Holds(denominator, c * v, 2700)
    && (needDeltas ==> Holds(deltaMinus, u, 2700) && Holds(deltaPlus, u, 2700))
  }

  method InitialScaledStartValuesPositiveExponent(
      significand: nat, exponent: int, power: int, needDeltas: bool,
      numerator: Bignum, denominator: Bignum, deltaMinus: Bignum, deltaPlus: Bignum)
    requires Buffers(numerator, denominator, deltaMinus, deltaPlus)
    requires DoubleRange(significand, exponent, power) && exponent >= 0 && power >= 0
    modifies numerator, numerator.bigits, denominator, denominator.bigits
    modifies deltaMinus, deltaMinus.bigits, deltaPlus, deltaPlus.bigits
    ensures StartValues(numerator, denominator, deltaMinus, deltaPlus, significand, Pow(2, exponent), Pow(10, power),
                        needDeltas)
    ensures !needDeltas ==> unchanged(deltaMinus) && unchanged(deltaMinus.bigits)
    ensures !needDeltas ==> unchanged(deltaPlus) && unchanged(deltaPlus.bigits)
  {
    hide W, Pow, Holds;
    SignificandSize();
    ghost var n, d := significand * Pow(2, exponent), Pow(10, power);
    AssignShifted(numerator, significand, exponent);
    AssignTenPower(denominator, power);
    if needDeltas {
      DoubleBoth(numerator, denominator, n, d, 53 + exponent, 4 * power + 1);
      AssignTwoPower(deltaPlus, exponent);
      AssignTwoPower(deltaMinus, exponent);
      Widen(deltaPlus, Pow(2, exponent), exponent + 1, 2700);
      Widen(deltaMinus, Pow(2, exponent), exponent + 1, 2700);
      Widen(numerator, 2 * n, 54 + exponent, 2700);
      Widen(denominator, 2 * d, 4 * power + 2, 2700);
    } else {
      Widen(numerator, n, 53 + exponent, 2700);
      Widen(denominator, d, 4 * power + 1, 2700);
    }
  }

  /** A common denominator of 2 for the distances to the midpoints. */
  method DoubleBoth(numerator: Bignum, denominator: Bignum, ghost n: nat, ghost d: nat, ghost sizeN: nat,
                    ghost sizeD: nat)
    requires numerator != denominator && numerator.bigits != denominator.bigits
    requires Holds(numerator, n, sizeN) && sizeN < 3000 && Holds(denominator, d, sizeD) && sizeD < 3000
    modifies numerator, numerator.bigits, denominator, denominator.bigits
    ensures Holds(numerator, 2 * n, sizeN + 1) && Holds(denominator, 2 * d, sizeD + 1)
  {
    hide W;
    Double(denominator, d, sizeD);
    Double(numerator, n, sizeN);
  }

  /** A number of at most so many bits. */
  lemma Widen(x: Bignum, v: nat, size: nat, limit: nat)
    requires Holds(x, v, size) && size <= limit
    ensures Holds(x, v, limit)
  {
    hide W, Pow;
    PowMono(2, size, limit);
  }

  method InitialScaledStartValuesNegativeExponentPositivePower(
      significand: nat, exponent: int, power: int, needDeltas: bool,
      numerator: Bignum, denominator: Bignum, deltaMinus: Bignum, deltaPlus: Bignum)
    requires Buffers(numerator, denominator, deltaMinus, deltaPlus)
    requires DoubleRange(significand, exponent, power) && exponent < 0 && power >= 0
    modifies numerator, numerator.bigits, denominator, denominator.bigits
    modifies deltaMinus, deltaMinus.bigits, deltaPlus, deltaPlus.bigits
    ensures StartValues(numerator, denominator, deltaMinus, deltaPlus, significand,
                        1, Pow(10, power) * Pow(2, -exponent), needDeltas)
    ensures !needDeltas ==> unchanged(deltaMinus) && unchanged(deltaMinus.bigits)
    ensures !needDeltas ==> unchanged(deltaPlus) && unchanged(deltaPlus.bigits)
  {
    hide W, Pow, Holds;
    SignificandSize();
    PowZero();
    ghost var d, size := Pow(10, power) * Pow(2, -exponent), 4 * power + 1 - exponent;
    AssignShifted(numerator, significand, 0);
    AssignTenTwoPower(denominator, power, -exponent);
    if needDeltas {
      DoubleBoth(numerator, denominator, significand, d, 53, size);
      AssignTwoPower(deltaPlus, 0);
      AssignTwoPower(deltaMinus, 0);
      Widen(deltaPlus, 1, 1, 2700);
      Widen(deltaMinus, 1, 1, 2700);
      Widen(numerator, 2 * significand, 54, 2700);
      Widen(denominator, 2 * d, size + 1, 2700);
    } else {
      Widen(numerator, significand, 53, 2700);
      Widen(denominator, d, size, 2700);
    }
  }

  method AssignTenTwoPower(x: Bignum, power: nat, amount: nat)
    requires x.bigits.Length == CAPACITY && power <= 330 && amount <= 1100
    modifies x, x.bigits
    ensures Holds(x, Pow(10, power) * Pow(2, amount), 4 * power + 1 + amount)
  {
    hide W, Pow;
    AssignTenPower(x, power);
    Shift(x, amount, 4 * power + 1);
  }

  method MultiplyBySignificand(x: Bignum, ghost v: nat, significand: nat, ghost size: nat)
    requires Holds(x, v, size) && size <= 3000 && significand < Pow(2, 53)
    modifies x, x.bigits
    ensures Holds(x, v * significand, size + 53)
  {
    hide W;
    SignificandSize();
    SizeToLength(size + 53);
    PowAdd(2, size, 53);
    MulMono(v, Pow(2, size), significand);
    MulStrict(significand, Pow(2, 53), Pow(2, size));
    WMono((size + 53) / BITS + 1, CAPACITY);
    x.MantissaBelowValue();
    MulMono(x.Mantissa(), v, significand);
    x.MultiplyByUInt64(significand);
  }

  method InitialScaledStartValuesNegativeExponentNegativePower(
      significand: nat, exponent: int, power: int, needDeltas: bool,
      numerator: Bignum, denominator: Bignum, deltaMinus: Bignum, deltaPlus: Bignum)
    requires Buffers(numerator, denominator, deltaMinus, deltaPlus)
    requires DoubleRange(significand, exponent, power) && exponent < 0 && power < 0
    modifies numerator, numerator.bigits, denominator, denominator.bigits
    modifies deltaMinus, deltaMinus.bigits, deltaPlus, deltaPlus.bigits
    ensures StartValues(numerator, denominator, deltaMinus, deltaPlus, significand,
                        Pow(10, -power), Pow(2, -exponent), needDeltas)
    ensures !needDeltas ==> unchanged(deltaMinus) && unchanged(deltaMinus.bigits)
    ensures !needDeltas ==> unchanged(deltaPlus) && unchanged(deltaPlus.bigits)
  {
    hide W, Pow, Holds;
    SignificandSize();
    ghost var ten, size := Pow(10, -power), -4 * power + 1;
    AssignTenPower(numerator, -power);
    if needDeltas {
      CopyTo(deltaPlus, numerator, ten, size);
      CopyTo(deltaMinus, numerator, ten, size);
    }
    SignificandOverTwos(significand, exponent, needDeltas, numerator, denominator, ten, size);
    assert ten * significand == significand * ten;
  }

  method CopyTo(x: Bignum, y: Bignum, ghost v: nat, ghost size: nat)
    requires Holds(y, v, size) && size <= 2700 && x.bigits.Length == CAPACITY && x != y && x.bigits != y.bigits
    modifies x, x.bigits
    ensures Holds(x, v, 2700)
  {
    hide W, Pow;
    x.AssignBignum(y);
    PowMono(2, size, 2700);
  }

  method SignificandOverTwos(significand: nat, exponent: int, needDeltas: bool,
                             numerator: Bignum, denominator: Bignum, ghost ten: nat, ghost size: nat)
    requires numerator != denominator && numerator.bigits != denominator.bigits
    requires Holds(numerator, ten, size) && denominator.bigits.Length == CAPACITY
    requires significand < Pow(2, 53) && -1074 <= exponent < 0 && size <= 1300
    modifies numerator, numerator.bigits, denominator, denominator.bigits
    ensures var c := if needDeltas then 2 else 1;
            Holds(numerator, c * (ten * significand), 2700) && Holds(denominator, c * Pow(2, -exponent), 2700)
  {
    hide W, Pow, Holds;
    MultiplyBySignificand(numerator, ten, significand, size);
    AssignTwoPower(denominator, -exponent);
    if needDeltas {
      DoubleBoth(numerator, denominator, ten * significand, Pow(2, -exponent), size + 53, 1 - exponent);
      Widen(numerator, 2 * (ten * significand), size + 54, 2700);
      Widen(denominator, 2 * Pow(2, -exponent), 2 - exponent, 2700);
    } else {
      Widen(numerator, ten * significand, size + 53, 2700);
      Widen(denominator, Pow(2, -exponent), 1 - exponent, 2700);
    }
  }

  /** The scaled start values of a double, for every sign of its exponents. When the
      lower neighbour is closer everything but the lower distance is doubled once more. */
  method InitialScaledStartValues(
      significand: nat, exponent: int, lowerBoundaryIsCloser: bool, power: int, needDeltas: bool,
      numerator: Bignum, denominator: Bignum, deltaMinus: Bignum, deltaPlus: Bignum)
    requires Buffers(numerator, denominator, deltaMinus, deltaPlus)
    requires DoubleRange(significand, exponent, power) && (exponent >= 0 ==> power >= 0)
    modifies numerator, numerator.bigits, denominator, denominator.bigits
    modifies deltaMinus, deltaMinus.bigits, deltaPlus, deltaPlus.bigits
    ensures var u, v := Upper(exponent, power), Lower(exponent, power);
            var c := if !needDeltas then 1 else if lowerBoundaryIsCloser then 4 else 2;
            && Holds(numerator, c * (significand * u), 2701) && Holds(denominator, c * v, 2701)
            && (needDeltas ==> Holds(deltaMinus, u, 2701))
            && (needDeltas ==> Holds(deltaPlus, if lowerBoundaryIsCloser then 2 * u else u, 2701))
    ensures !needDeltas ==> unchanged(deltaMinus) && unchanged(deltaMinus.bigits)
    ensures !needDeltas ==> unchanged(deltaPlus) && unchanged(deltaPlus.bigits)
  {
    hide W, Pow, Holds, Upper, Lower;
    ghost var u, v := Upper(exponent, power), Lower(exponent, power);
    StartCases(exponent, power);
    if exponent >= 0 {
      InitialScaledStartValuesPositiveExponent(significand, exponent, power, needDeltas,
                                               numerator, denominator, deltaMinus, deltaPlus);
    } else if power >= 0 {
      InitialScaledStartValuesNegativeExponentPositivePower(significand, exponent, power, needDeltas,
                                                            numerator, denominator, deltaMinus, deltaPlus);
    } else {
      InitialScaledStartValuesNegativeExponentNegativePower(significand, exponent, power, needDeltas,
                                                            numerator, denominator, deltaMinus, deltaPlus);
    }
    assert StartValues(numerator, denominator, deltaMinus, deltaPlus, significand, u, v, needDeltas);
    if needDeltas && lowerBoundaryIsCloser {
      Double(denominator, 2 * v, 2700);
      Double(numerator, 2 * (significand * u), 2700);
      Double(deltaPlus, u, 2700);
    } else {
      Widen(denominator, if needDeltas then 2 * v else v, 2700, 2701);
      Widen(numerator, if needDeltas then 2 * (significand * u) else significand * u, 2700, 2701);
      if needDeltas {
        Widen(deltaPlus, u, 2700, 2701);
      }
    }
    if needDeltas {
      Widen(deltaMinus, u, 2700, 2701);
    }
  }

  lemma StartCases(exponent: int, power: int)
    ensures exponent >= 0 && power >= 0 ==>
              Upper(exponent, power) == Pow(2, exponent) && Lower(exponent, power) == Pow(10, power)
    ensures exponent < 0 && power >= 0 ==>
              Upper(exponent, power) == 1 && Lower(exponent, power) == Pow(10, power) * Pow(2, -exponent)
    ensures exponent < 0 && power < 0 ==>
              Upper(exponent, power) == Pow(10, -power) && Lower(exponent, power) == Pow(2, -exponent)
  {
    assert Pow(2, 0) == 1 && Pow(10, 0) == 1;
  }

  /** 2^2701 leaves room for a multiplication by ten. */
  lemma RoomForTen(d: nat)
    requires d < Pow(2, 2701)
    ensures 10 * d < W(CAPACITY)
  {
    hide W, Pow;
    PowAdd(2, 2701, 4);
    SizeToLength(2705);
    WMono(2705 / BITS + 1, CAPACITY);
    Sixteen();
  }

  lemma Sixteen()
    ensures Pow(2, 4) == 16
  {
  }

  /** The scaled start values of the shortest mode as the fixup takes them over. */
  lemma ShortestStart(n: nat, m: nat, p: nat, d: nat, f: nat, e: int, closer: bool, power: int)
    requires BoundaryRange(f, closer) && EstimatedPower(f, e, power)
    requires n == (if closer then 4 else 2) * (f * Upper(e, power)) && d == (if closer then 4 else 2) * Lower(e, power)
    requires m == Upper(e, power) && p == if closer then 2 * Upper(e, power) else Upper(e, power)
    ensures m <= n
    ensures var t := if RoomPlus(n, p, d, f % 2 == 0) then 1 else 10;
            && FixedUp(t, t * n, t * m, t * p, d, f, e, closer, power)
            && FixedUpFits(t * n, t * m, t * p, d, f % 2 == 0)
  {
    hide Pow;
    StartInRange(f, e, closer, power);
    var t := if RoomPlus(n, p, d, f % 2 == 0) then 1 else 10;
    FixedUpInRange(t, t * n, t * m, t * p, d, f, e, closer, power);
  }

  /** What the shortest generation asks of its numbers, for a buffer of 17 digits. */
  ghost predicate FixedUpFits(n: nat, m: nat, p: nat, d: nat, even: bool) {
    && 0 < m && 0 < p && 0 < d && d < Pow(10, 16) * (m + p)
    && (if even then n + p < 10 * d else n + p <= 10 * d)
  }

  /** The start values of the shortest mode, fixed up. */
  method StartShortest(significand: nat, exponent: int, lowerBoundaryIsCloser: bool, estimatedPower: int,
                       numerator: Bignum, denominator: Bignum, deltaMinus: Bignum, deltaPlus: Bignum)
    returns (decimalPoint: int, ghost t: nat)
    requires Buffers(numerator, denominator, deltaMinus, deltaPlus)
    requires DoubleRange(significand, exponent, estimatedPower) && (exponent >= 0 ==> estimatedPower >= 0)
    requires BoundaryRange(significand, lowerBoundaryIsCloser) && EstimatedPower(significand, exponent, estimatedPower)
    modifies numerator, numerator.bigits, denominator, denominator.bigits
    modifies deltaMinus, deltaMinus.bigits, deltaPlus, deltaPlus.bigits
    ensures numerator.Valid() && denominator.Valid() && deltaMinus.Valid() && deltaPlus.Valid()
    ensures 10 * denominator.Value() < W(CAPACITY)
    ensures FixedUp(t, numerator.Value(), deltaMinus.Value(), deltaPlus.Value(), denominator.Value(),
                    significand, exponent, lowerBoundaryIsCloser, estimatedPower)
    ensures FixedUpFits(numerator.Value(), deltaMinus.Value(), deltaPlus.Value(), denominator.Value(),
                        significand % 2 == 0)
    ensures decimalPoint == PointOf(t, estimatedPower)
  {
    hide W, Pow, Val, Upper, Lower, EstimatedPower, FixedUp, FixedUpFits, BoundaryRange;
    InitialScaledStartValues(significand, exponent, lowerBoundaryIsCloser, estimatedPower, true,
                             numerator, denominator, deltaMinus, deltaPlus);
    ghost var n, m, p, d := numerator.Value(), deltaMinus.Value(), deltaPlus.Value(), denominator.Value();
    RoomForTen(d);
    ShortestStart(n, m, p, d, significand, exponent, lowerBoundaryIsCloser, estimatedPower);
    decimalPoint := FixupMultiply10(estimatedPower, significand % 2 == 0, numerator, denominator, deltaMinus,
                                    deltaPlus);
    t := if RoomPlus(n, p, d, significand % 2 == 0) then 1 else 10;
  }

  /** The start values of the other modes, fixed up. The distances are zero. */
  method StartPlain(significand: nat, exponent: int, lowerBoundaryIsCloser: bool, estimatedPower: int,
                    numerator: Bignum, denominator: Bignum, deltaMinus: Bignum, deltaPlus: Bignum)
    returns (decimalPoint: int, ghost t: nat)
    requires Buffers(numerator, denominator, deltaMinus, deltaPlus)
    requires deltaMinus.Valid() && deltaMinus.Value() == 0 && deltaPlus.Valid() && deltaPlus.Value() == 0
    requires DoubleRange(significand, exponent, estimatedPower) && (exponent >= 0 ==> estimatedPower >= 0)
    requires Significand(significand, exponent) && EstimatedPower(significand, exponent, estimatedPower)
    modifies numerator, numerator.bigits, denominator, denominator.bigits
    modifies deltaMinus, deltaMinus.bigits, deltaPlus, deltaPlus.bigits
    ensures numerator.Valid() && denominator.Valid()
    ensures 10 * denominator.Value() < W(CAPACITY)
    ensures PlainUp(t, numerator.Value(), denominator.Value(), significand, exponent, estimatedPower)
    ensures 0 < denominator.Value() <= numerator.Value() < 10 * denominator.Value()
    ensures decimalPoint == PointOf(t, estimatedPower)
  {
    hide W, Pow, Val, Upper, Lower, EstimatedPower, Significand;
    InitialScaledStartValues(significand, exponent, lowerBoundaryIsCloser, estimatedPower, false,
                             numerator, denominator, deltaMinus, deltaPlus);
    ghost var n, d := numerator.Value(), denominator.Value();
    RoomForTen(d);
    decimalPoint := FixupMultiply10(estimatedPower, significand % 2 == 0, numerator, denominator, deltaMinus,
                                    deltaPlus);
    t := if RoomPlus(n, 0, d, significand % 2 == 0) then 1 else 10;
    PlainInRange(t, numerator.Value(), d, significand, exponent, estimatedPower);
  }

  /** What a caller is promised about a string of the given mode. */
  datatype Mode = SHORTEST | SHORTEST_SINGLE | FIXED | PRECISION

  ghost predicate Printed(s: seq<char>, point: int, mode: Mode, requestedDigits: nat, f: nat, e: int, closer: bool) {
    match mode
    case SHORTEST | SHORTEST_SINGLE => |s| <= 17 && ShortestDecimal(s, point, f, e, closer)
    case FIXED => FixedDecimal(s, point, requestedDigits, f, e)
    case PRECISION => |s| == requestedDigits && PreciseDecimal(s, point, f, e)
  }

  /** What each mode asks of its caller: room for the digits and the final zero, and for
      the precision mode at least one digit. */
  predicate ModeRange(mode: Mode, requestedDigits: nat, f: nat, e: int, closer: bool, power: int, room: nat) {
    match mode
    case SHORTEST | SHORTEST_SINGLE => room >= 18 && BoundaryRange(f, closer)
    case FIXED => Significand(f, e) && room >= 2 && power + 1 + requestedDigits < room
    case PRECISION => Significand(f, e) && 0 < requestedDigits < room
  }

  method GenerateShortest(significand: nat, exponent: int, lowerBoundaryIsCloser: bool, estimatedPower: int,
                          numerator: Bignum, denominator: Bignum, deltaMinus: Bignum, deltaPlus: Bignum,
                          buffer: array<char>)
    returns (length: nat, decimalPoint: int)
    requires Buffers(numerator, denominator, deltaMinus, deltaPlus)
    requires DoubleRange(significand, exponent, estimatedPower) && (exponent >= 0 ==> estimatedPower >= 0)
    requires BoundaryRange(significand, lowerBoundaryIsCloser) && EstimatedPower(significand, exponent, estimatedPower)
    requires buffer.Length >= 18
    modifies numerator, numerator.bigits, denominator, denominator.bigits
    modifies deltaMinus, deltaMinus.bigits, deltaPlus, deltaPlus.bigits, buffer
    ensures length <= 17
    ensures ShortestDecimal(buffer[..length], decimalPoint, significand, exponent, lowerBoundaryIsCloser)
  {
    hide W, Pow, Val, FixedUp, ShortestResult, ShortestDecimal, EstimatedPower, BoundaryRange;
    ghost var t: nat;
    decimalPoint, t := StartShortest(significand, exponent, lowerBoundaryIsCloser, estimatedPower,
                                     numerator, denominator, deltaMinus, deltaPlus);
    ghost var n, m, p, d := numerator.Value(), deltaMinus.Value(), deltaPlus.Value(), denominator.Value();
    length := GenerateShortestDigits(numerator, denominator, deltaMinus, deltaPlus, significand % 2 == 0, buffer, 17);
    ShortestMeaning(buffer[..length], t, n, m, p, d, significand, exponent, lowerBoundaryIsCloser, estimatedPower);
  }

  method GenerateFixed(significand: nat, exponent: int, lowerBoundaryIsCloser: bool, estimatedPower: int,
                       requestedDigits: nat,
                       numerator: Bignum, denominator: Bignum, deltaMinus: Bignum, deltaPlus: Bignum,
                       buffer: array<char>)
    returns (length: nat, decimalPoint: int)
    requires Buffers(numerator, denominator, deltaMinus, deltaPlus)
    requires deltaMinus.Valid() && deltaMinus.Value() == 0 && deltaPlus.Valid() && deltaPlus.Value() == 0
    requires DoubleRange(significand, exponent, estimatedPower) && (exponent >= 0 ==> estimatedPower >= 0)
    requires Significand(significand, exponent) && EstimatedPower(significand, exponent, estimatedPower)
    requires 0 < buffer.Length && estimatedPower + 1 + requestedDigits <= buffer.Length
    modifies numerator, numerator.bigits, denominator, denominator.bigits
    modifies deltaMinus, deltaMinus.bigits, deltaPlus, deltaPlus.bigits, buffer
    ensures length <= 1 || length <= estimatedPower + 1 + requestedDigits
    ensures length <= buffer.Length
    ensures FixedDecimal(buffer[..length], decimalPoint, requestedDigits, significand, exponent)
  {
    hide W, Pow, Val, Upper, Lower, EstimatedPower, Significand, FixedDecimal, CountedResult;
    var point;
    ghost var t: nat;
    point, t := StartPlain(significand, exponent, lowerBoundaryIsCloser, estimatedPower,
                           numerator, denominator, deltaMinus, deltaPlus);
    ghost var n := numerator.Value();
    length, decimalPoint := BignumToFixed(requestedDigits, point, numerator, denominator, buffer);
    if -point > requestedDigits {
      NoDigits(t, n, requestedDigits, significand, exponent, estimatedPower);
      assert buffer[..0] == [];
    } else if -point == requestedDigits {
      HalfPlace(t, n, requestedDigits, significand, exponent, estimatedPower);
      assert buffer[..length] == if length == 0 then [] else ['1'];
    } else {
      CountedFixed(buffer[..length], t, n, decimalPoint, requestedDigits, significand, exponent, estimatedPower);
    }
  }

  method GeneratePrecise(significand: nat, exponent: int, lowerBoundaryIsCloser: bool, estimatedPower: int,
                         requestedDigits: nat,
                         numerator: Bignum, denominator: Bignum, deltaMinus: Bignum, deltaPlus: Bignum,
                         buffer: array<char>)
    returns (length: nat, decimalPoint: int)
    requires Buffers(numerator, denominator, deltaMinus, deltaPlus)
    requires deltaMinus.Valid() && deltaMinus.Value() == 0 && deltaPlus.Valid() && deltaPlus.Value() == 0
    requires DoubleRange(significand, exponent, estimatedPower) && (exponent >= 0 ==> estimatedPower >= 0)
    requires Significand(significand, exponent) && EstimatedPower(significand, exponent, estimatedPower)
    requires 0 < requestedDigits <= buffer.Length
    modifies numerator, numerator.bigits, denominator, denominator.bigits
    modifies deltaMinus, deltaMinus.bigits, deltaPlus, deltaPlus.bigits, buffer
    ensures length == requestedDigits && PreciseDecimal(buffer[..length], decimalPoint, significand, exponent)
  {
    hide W, Pow, Val, Upper, Lower, EstimatedPower, Significand, PreciseDecimal, CountedResult;
    var point;
    ghost var t: nat;
    point, t := StartPlain(significand, exponent, lowerBoundaryIsCloser, estimatedPower,
                           numerator, denominator, deltaMinus, deltaPlus);
    ghost var n := numerator.Value();
    length, decimalPoint := GenerateCountedDigits(requestedDigits, point, numerator, denominator, buffer);
    CountedPrecise(buffer[..length], t, n, decimalPoint, significand, exponent, estimatedPower);
  }

  /** Prints the double significand * 2^exponent in the given mode, and ends the string
      with a zero character. The rounding is what floating-point arithmetic adds to the
      estimate of the decimal exponent. */
  method BignumDtoa(significand: nat, exponent: int, lowerBoundaryIsCloser: bool, rounding: real,
                    mode: Mode, requestedDigits: nat, buffer: array<char>)
    returns (length: nat, decimalPoint: int)
    requires 0 < significand < 2 * HIDDEN_BIT && -1074 <= exponent <= 971 && -GUARD < rounding < GUARD
    requires ModeRange(mode, requestedDigits, significand, exponent, lowerBoundaryIsCloser,
                       Estimate(NormalExponent(significand, exponent), rounding), buffer.Length)
    modifies buffer
    ensures length < buffer.Length && buffer[length] == '\0'
    ensures Printed(buffer[..length], decimalPoint, mode, requestedDigits, significand, exponent, lowerBoundaryIsCloser)
  {
    hide EstimatedPower, Printed, ModeRange, Estimate, CeilLog, Pow;
    EstimateServes(significand, exponent, rounding);
    var normalizedExponent := NormalizedExponent(significand, exponent);
    var estimatedPower := EstimatePower(normalizedExponent, rounding);
    length, decimalPoint := PrintScaled(significand, exponent, lowerBoundaryIsCloser, estimatedPower,
                                        mode, requestedDigits, buffer);
  }

  method Terminate(buffer: array<char>, length: nat)
    requires length < buffer.Length
    modifies buffer
    ensures buffer[..length] == old(buffer[..length]) && buffer[length] == '\0'
    ensures length == 0 ==> buffer[..length] == []
  {
    buffer[length] := '\0';
  }

  /** The rest, once the decimal exponent is estimated. */
  method PrintScaled(significand: nat, exponent: int, lowerBoundaryIsCloser: bool, estimatedPower: int,
                     mode: Mode, requestedDigits: nat, buffer: array<char>)
    returns (length: nat, decimalPoint: int)
    requires DoubleRange(significand, exponent, estimatedPower) && (exponent >= 0 ==> estimatedPower >= 0)
    requires EstimatedPower(significand, exponent, estimatedPower)
    requires ModeRange(mode, requestedDigits, significand, exponent, lowerBoundaryIsCloser, estimatedPower,
                       buffer.Length)
    modifies buffer
    ensures length < buffer.Length && buffer[length] == '\0'
    ensures Printed(buffer[..length], decimalPoint, mode, requestedDigits, significand, exponent, lowerBoundaryIsCloser)
  {
    hide W, Pow, Val, Upper, Lower, EstimatedPower, Significand, BoundaryRange;
    hide ShortestDecimal, FixedDecimal, PreciseDecimal, DoubleRange;
    if mode == FIXED && -estimatedPower - 1 > requestedDigits {
      EmptyFixed(significand, exponent, estimatedPower, requestedDigits);
      Terminate(buffer, 0);
      return 0, -(requestedDigits as int);
    }
    var numerator := new Bignum();
    var denominator := new Bignum();
    var deltaMinus := new Bignum();
    var deltaPlus := new Bignum();
    if mode == FIXED {
      length, decimalPoint := GenerateFixed(significand, exponent, lowerBoundaryIsCloser, estimatedPower,
                                            requestedDigits, numerator, denominator, deltaMinus, deltaPlus, buffer);
    } else if mode == PRECISION {
      length, decimalPoint := GeneratePrecise(significand, exponent, lowerBoundaryIsCloser, estimatedPower,
                                              requestedDigits, numerator, denominator, deltaMinus, deltaPlus, buffer);
    } else {
      length, decimalPoint := GenerateShortest(significand, exponent, lowerBoundaryIsCloser, estimatedPower,
                                               numerator, denominator, deltaMinus, deltaPlus, buffer);
    }
    Terminate(buffer, length);
  }

  /** The shortcut of the fixed mode: the double is below a tenth of the last place. */
  lemma EmptyFixed(f: nat, e: int, power: int, decimals: nat)
    requires EstimatedPower(f, e, power) && -power - 1 > decimals
    ensures FixedDecimal([], -(decimals as int), decimals, f, e)
  {
    TwiceAndOne(f, Upper(e, power));
    NoDigits(1, f * Upper(e, power), decimals, f, e, power);
  }

  ghost predicate Buffers(a: Bignum, b: Bignum, c: Bignum, d: Bignum) {
    && Separate(a, b, c, d)
    && a.bigits.Length == b.bigits.Length == c.bigits.Length == d.bigits.Length == CAPACITY
  }

  lemma FiveFits(power: nat)
    requires power <= 350
    ensures PowerSteps.PowerDigits(PowerSteps.OddPart(10), power) + 1 <= CAPACITY
  {
    assert PowerSteps.OddPart(10) == 5;
    assert PowerSteps.BitSize(5) == 3;
  }
}
