// Fixed-point printing of a double with machine words only: the integral digits, then
// the fraction digit by digit, then rounding in the buffer.

module FixedDtoa {
  import opened Arith
  import opened Decimal
  import opened FixedRounding
  import opened Rounding
  import opened Shortest
  import opened WideInt

  const TEN7: nat := 10000000
  const FIVE17: nat := 0xB1_A2BC_2EC5

  function Reversed(s: seq<char>): (r: seq<char>)
    ensures |r| == |s|
  {
    seq(|s|, i requires 0 <= i < |s| => s[|s| - 1 - i])
  }

  lemma ReversedPush(s: seq<char>, c: char)
    ensures Reversed(s + [c]) == [c] + Reversed(s)
  {
  }

  lemma OneDigit(c: char)
    ensures DecimalValue([c]) == DigitValue(c)
  {
    hide DigitValue;
    assert [c][..0] == [];
  }

  lemma PrependDigit(d: nat, t: seq<char>)
    requires d <= 9
    ensures DecimalValue([DigitChar(d)] + t) == d * Pow(10, |t|) + DecimalValue(t)
  {
    hide Pow, DecimalValue;
    OneDigit(DigitChar(d));
    DecimalAppend([DigitChar(d)], t);
  }

  /** Splitting off one more low digit. */
  lemma NextDigitSplit(x: nat, k: nat)
    ensures x % Pow(10, k + 1) == ((x / Pow(10, k)) % 10) * Pow(10, k) + x % Pow(10, k)
    ensures x / Pow(10, k + 1) == (x / Pow(10, k)) / 10
  {
    var p := Pow(10, k);
    var q, r := x / p, x % p;
    DivMod(x, p);
    MulAssoc(q / 10, 10, p);
    Distribute((q / 10) * 10, q % 10, p);
    MulMono(q % 10, 9, p);
    DivUnique(x, 10 * p, q / 10, (q % 10) * p + r);
  }

  /** Writes the number's lowest digits, exactly as many as requested. */
  lemma NoDigit(x: nat)
    ensures Pow(10, 0) == 1 && x / Pow(10, 0) == x && x % Pow(10, 0) == 0 && DecimalValue([]) == 0
  {
  }

  method FillDigits32FixedLength(number: nat, requestedLength: nat, buffer: array<char>, length: nat)
    returns (newLength: nat)
    requires length + requestedLength <= buffer.Length
    modifies buffer
    ensures newLength == length + requestedLength
    ensures buffer[..length] == old(buffer[..length])
    ensures AllDecimal(buffer[length..newLength])
    ensures DecimalValue(buffer[length..newLength]) == number % Pow(10, requestedLength)
  {
    hide IsDecimalDigit, Pow, DecimalValue;
    NoDigit(number);
    var rest, i := number, requestedLength - 1;
    newLength := length + requestedLength;
    assert buffer[newLength..newLength] == [];
    while i >= 0
      invariant -1 <= i < requestedLength
      invariant buffer[..length] == old(buffer[..length])
      invariant AllDecimal(buffer[length + i + 1..newLength])
      invariant rest == number / Pow(10, requestedLength - 1 - i)
      invariant DecimalValue(buffer[length + i + 1..newLength]) == number % Pow(10, requestedLength - 1 - i)
    {
      ghost var t := buffer[length + i + 1..newLength];
      NextDigitSplit(number, requestedLength - 1 - i);
      buffer[length + i] := DigitChar(rest % 10);
      PrependDigit(rest % 10, t);
      assert buffer[length + i..newLength] == [DigitChar(rest % 10)] + t;
      rest := rest / 10;
      i := i - 1;
    }
  }

  /** Exchanges the characters from position lo to hi. */
  method Exchange(buffer: array<char>, lo: nat, hi: nat)
    requires lo <= hi <= buffer.Length
    modifies buffer
    ensures buffer[..lo] == old(buffer[..lo])
    ensures buffer[lo..hi] == Reversed(old(buffer[lo..hi]))
  {
    var i, j := lo, hi - 1;
    while i < j
      invariant lo <= i <= j + 1 <= hi && i - lo == hi - 1 - j
      invariant forall k :: 0 <= k < buffer.Length && (k < lo || i <= k <= j) ==> buffer[k] == old(buffer[k])
      invariant forall k :: lo <= k < i ==> buffer[k] == old(buffer[lo + hi - 1 - k])
      invariant forall k :: j < k < hi ==> buffer[k] == old(buffer[lo + hi - 1 - k])
    {
      buffer[i], buffer[j] := buffer[j], buffer[i];
      i := i + 1;
      j := j - 1;
    }
    forall k | 0 <= k < hi - lo
      ensures buffer[lo..hi][k] == Reversed(old(buffer[lo..hi]))[k]
    {
      assert buffer[lo + k] == old(buffer[hi - 1 - k]);
    }
  }

  /** Writes all digits of a number, none for zero, and no leading zeros. */
  method FillDigits32(number: nat, buffer: array<char>, length: nat, ghost room: nat) returns (newLength: nat)
    requires number < Pow(10, room) && length + room <= buffer.Length
    modifies buffer
    ensures length <= newLength <= length + room
    ensures buffer[..length] == old(buffer[..length])
    ensures AllDecimal(buffer[length..newLength]) && DecimalValue(buffer[length..newLength]) == number
  {
    hide Pow;
    Tens();
    var rest: nat, numberLength: nat := number, 0;
    assert Reversed(buffer[length..length]) == [];
    while rest != 0
      invariant numberLength <= room && buffer[..length] == old(buffer[..length])
      invariant LowDigits(number, rest, Reversed(buffer[length..length + numberLength]), numberLength)
    {
      ghost var s := buffer[length..length + numberLength];
      LowStep(number, rest, Reversed(s), numberLength, room);
      var digit := rest % 10;
      ReversedPush(s, DigitChar(digit));
      rest := rest / 10;
      buffer[length + numberLength] := DigitChar(digit);
      assert buffer[length..length + numberLength + 1] == s + [DigitChar(digit)];
      numberLength := numberLength + 1;
    }
    Exchange(buffer, length, length + numberLength);
    newLength := length + numberLength;
  }

  /** t holds the k lowest digits of the number, and rest the others. */
  ghost predicate LowDigits(number: nat, rest: nat, t: seq<char>, k: nat) {
    && |t| == k && AllDecimal(t)
    && rest * Pow(10, k) + DecimalValue(t) == number
  }

  lemma LowStep(number: nat, rest: nat, t: seq<char>, k: nat, room: nat)
    requires LowDigits(number, rest, t, k) && rest > 0 && number < Pow(10, room)
    ensures k < room && LowDigits(number, rest / 10, [DigitChar(rest % 10)] + t, k + 1)
  {
    hide DecimalValue;
    DecimalBound(t);
    RoomForDigit(rest, k, number, room);
    PrependDigit(rest % 10, t);
    SplitLast(rest, Pow(10, k));
  }

  lemma RoomForDigit(rest: nat, k: nat, number: nat, room: nat)
    requires rest > 0 && rest * Pow(10, k) <= number < Pow(10, room)
    ensures k < room
  {
    MulMono(1, rest, Pow(10, k));
    PowLess(10, k, room);
  }

  lemma SplitLast(rest: nat, p: nat)
    ensures rest * p == (rest / 10) * (10 * p) + (rest % 10) * p
    ensures (rest / 10) * (10 * p) >= 0 && (rest % 10) * p >= 0
  {
    Distribute((rest / 10) * 10, rest % 10, p);
    MulAssoc(rest / 10, 10, p);
    MulPos(rest / 10, 10 * p);
    MulPos(rest % 10, p);
  }

  /** Writes 17 digits. */
  method FillDigits64FixedLength(number: nat, buffer: array<char>, length: nat) returns (newLength: nat)
    requires number < Pow(10, 17) && length + 17 <= buffer.Length
    modifies buffer
    ensures newLength == length + 17
    ensures buffer[..length] == old(buffer[..length])
    ensures AllDecimal(buffer[length..newLength]) && DecimalValue(buffer[length..newLength]) == number
  {
    hide Pow;
    Tens();
    var part2 := U32(number % TEN7);
    var rest := number / TEN7;
    var part1 := U32(rest % TEN7);
    var part0 := U32(rest / TEN7);
    var l0 := FillDigits32FixedLength(part0, 3, buffer, length);
    ghost var s := buffer[length..l0];
    newLength := AppendTwoParts(part1, part2, buffer, length, l0);
  }

  lemma Tens()
    ensures Pow(10, 0) == 1 && Pow(10, 3) == 1000 && Pow(10, 7) == TEN7
    ensures Pow(10, 14) == 100000000000000 && Pow(10, 17) == 100000000000000000
  {
    hide Pow;
    Pow10Values();
    SmallTens();
    PowAdd(10, 7, 7);
  }

  lemma SmallTens()
    ensures Pow(10, 0) == 1 && Pow(10, 3) == 1000
  {
  }

  /** Appends two parts of seven digits to the digits from start on. */
  method AppendTwoParts(part1: nat, part2: nat, buffer: array<char>, ghost start: nat, length: nat)
    returns (newLength: nat)
    requires part1 < TEN7 && part2 < TEN7 && start <= length && length + 14 <= buffer.Length
    requires AllDecimal(buffer[start..length])
    modifies buffer
    ensures newLength == length + 14
    ensures buffer[..length] == old(buffer[..length])
    ensures AllDecimal(buffer[start..newLength])
    ensures DecimalValue(buffer[start..newLength])
              == (old(DecimalValue(buffer[start..length])) * TEN7 + part1) * TEN7 + part2
  {
    var l1 := AppendPart(part1, buffer, start, length);
    newLength := AppendPart(part2, buffer, start, l1);
    assert buffer[..length] == buffer[..l1][..length];
  }

  method AppendPart(part: nat, buffer: array<char>, ghost start: nat, length: nat) returns (newLength: nat)
    requires part < TEN7 && start <= length && length + 7 <= buffer.Length
    requires AllDecimal(buffer[start..length])
    modifies buffer
    ensures newLength == length + 7
    ensures buffer[..length] == old(buffer[..length])
    ensures AllDecimal(buffer[start..newLength])
    ensures DecimalValue(buffer[start..newLength]) == old(DecimalValue(buffer[start..length])) * TEN7 + part
  {
    hide Pow, DecimalValue, IsDecimalDigit;
    Tens();
    ghost var s := buffer[start..length];
    newLength := FillDigits32FixedLength(part, 7, buffer, length);
    assert buffer[start..length] == buffer[..length][start..];
    assert buffer[start..newLength] == s + buffer[length..newLength];
    DecimalAppend(s, buffer[length..newLength]);
  }

  /** Writes all digits of a 64-bit number. */
  method FillDigits64(number: nat, buffer: array<char>, length: nat, ghost room: nat) returns (newLength: nat)
    requires number < TWO64 && number < Pow(10, room) && length + room <= buffer.Length
    modifies buffer
    ensures length <= newLength <= length + room
    ensures buffer[..length] == old(buffer[..length])
    ensures AllDecimal(buffer[length..newLength]) && DecimalValue(buffer[length..newLength]) == number
  {
    hide Pow;
    Tens();
    var part2 := U32(number % TEN7);
    var rest := number / TEN7;
    var part1 := U32(rest % TEN7);
    var part0 := U32(rest / TEN7);
    if part0 != 0 {
      PartRoom(number, part0, 14, room);
      var l0 := FillDigits32(part0, buffer, length, room - 14);
      newLength := AppendTwoParts(part1, part2, buffer, length, l0);
      assert buffer[..length] == buffer[..l0][..length];
    } else if part1 != 0 {
      PartRoom(number, part1, 7, room);
      var l0 := FillDigits32(part1, buffer, length, room - 7);
      newLength := AppendPart(part2, buffer, length, l0);
      assert buffer[..length] == buffer[..l0][..length];
    } else {
      newLength := FillDigits32(part2, buffer, length, room);
    }
  }

  lemma PartRoom(number: nat, part: nat, k: nat, room: nat)
    requires 0 < part && part * Pow(10, k) <= number < Pow(10, room)
    ensures k < room && part < Pow(10, room - k)
  {
    RoomForDigit(part, k, number, room);
    PowAdd(10, k, room - k);
    assert Pow(10, k) * Pow(10, room - k) == Pow(10, room - k) * Pow(10, k);
    MulCancelLess(part, Pow(10, room - k), Pow(10, k));
  }

  /** Adds one to the number in the buffer. An empty buffer stands for zero. */
  method RoundUp(buffer: array<char>, length: nat, point: int) returns (newLength: nat, newPoint: int)
    requires length <= buffer.Length && 0 < buffer.Length && AllDecimal(buffer[..length])
    requires length == 0 ==> point == 0
    modifies buffer
    ensures newLength == (if length == 0 then 1 else length) && AllDecimal(buffer[..newLength])
    ensures newPoint - newLength == point - length || newPoint - newLength == point - length + 1
    ensures DecimalValue(buffer[..newLength]) * (if newPoint - newLength == point - length then 1 else 10)
         == old(DecimalValue(buffer[..length])) + 1
  {
    if length == 0 {
      buffer[0] := '1';
      assert buffer[..1] == [] + ['1'];
      DecimalPush([], '1');
      return 1, 1;
    }
    ghost var s := buffer[..length];
    DecimalUpdate(s, length - 1, NextChar(s[length - 1]));
    assert Pow(10, 0) == 1;
    buffer[length - 1] := NextChar(buffer[length - 1]);
    assert buffer[..length] == s[length - 1 := NextChar(s[length - 1])];
    newPoint := PropagateTens(buffer, length, point);
    newLength := length;
  }

  // Fractions. n / 2^e is the number: its integral digits are in the buffer already, and
  // after i more digits the rest of the fraction is rest / 2^(e - i).

  ghost predicate Converted(n: nat, e: nat, i: nat, s: seq<char>, rest: nat) {
    && i <= e && AllDecimal(s)
    && Pow(10, i) * n == DecimalValue(s) * Pow(2, e) + rest * Pow(2, i)
    && rest < Pow(2, e - i)
  }

  lemma ConvertedStart(n: nat, e: nat, s: seq<char>, fraction: nat)
    requires AllDecimal(s) && n == DecimalValue(s) * Pow(2, e) + fraction && fraction < Pow(2, e)
    ensures Converted(n, e, 0, s, fraction)
  {
    hide Pow, DecimalValue, AllDecimal;
    PowZeros(n, fraction);
  }

  lemma PowZeros(n: nat, x: nat)
    ensures Pow(10, 0) * n == n && x * Pow(2, 0) == x
  {
  }

  /** One more digit: the rest times 5 against one binary place less. */
  lemma ConvertedStep(n: nat, e: nat, i: nat, s: seq<char>, rest: nat, digit: nat, next: nat)
    requires Converted(n, e, i, s, rest) && i < e
    requires 5 * rest == digit * Pow(2, e - i - 1) + next && next < Pow(2, e - i - 1)
    ensures digit <= 9 && Converted(n, e, i + 1, s + [DigitChar(digit)], next)
  {
    hide DecimalValue;
    var half := Pow(2, e - i - 1);
    if digit >= 10 {
      MulMono(10, digit, half);
    }
    DecimalPush(s, DigitChar(digit));
    PowAdd(2, e - i - 1, i + 1);
    DigitSum(Pow(10, i) * n, DecimalValue(s), Pow(2, e), rest, Pow(2, i), digit, half, next);
    MulAssoc(10, Pow(10, i), n);
  }

  lemma DigitSum(x: int, v: int, d: int, rest: int, p: int, digit: int, half: int, next: int)
    requires x == v * d + rest * p && 5 * rest == digit * half + next && d == half * (2 * p)
    ensures 10 * x == (10 * v + digit) * d + next * (2 * p)
  {
    calc {
      10 * x;
      10 * (v * d) + (5 * rest) * (2 * p);
      10 * (v * d) + (digit * half) * (2 * p) + next * (2 * p);
      10 * (v * d) + digit * (half * (2 * p)) + next * (2 * p);
      (10 * v + digit) * d + next * (2 * p);
    }
  }

  /** The next bit of the rest decides the rounding. */
  lemma ConvertedEnd(n: nat, e: nat, i: nat, s: seq<char>, rest: nat, count: nat, up: bool)
    requires Converted(n, e, i, s, rest) && i <= count && (i == count || rest == 0)
    requires up == (rest != 0 && i < e && (rest / Pow(2, e - i - 1)) % 2 == 1)
    ensures RoundHalfUp(Scaled(count, n), Pow(2, e)) == (DecimalValue(s) + (if up then 1 else 0)) * Pow(10, count - i)
  {
    hide Pow, DecimalValue;
    var d, p := Pow(2, e), Pow(2, i);
    DecimalBound(s);
    PowZeros(n, rest);
    Powers(e, i);
    if rest == 0 {
      PowAdd(10, i, count - i);
      ExactFraction(Scaled(count, n), n, Pow(10, i), Pow(10, count - i), DecimalValue(s), d);
    } else {
      var half := Pow(2, e - i - 1);
      HalfBit(rest, half, p, d);
      MulPos(rest, p);
      RoundedQuotient(Scaled(count, n), d, DecimalValue(s), rest * p);
    }
  }

  lemma Powers(e: nat, i: nat)
    requires i <= e
    ensures i < e ==> Pow(2, e - i) == 2 * Pow(2, e - i - 1) && Pow(2, e) == (2 * Pow(2, e - i - 1)) * Pow(2, i)
    ensures i == e ==> Pow(2, e - i) == 1 && Pow(10, 0) == 1
    ensures Pow(10, 0) == 1
  {
    PowAdd(2, e - i, i);
  }

  lemma ExactFraction(a: nat, n: nat, x: nat, y: nat, v: nat, d: nat)
    requires d > 0 && a == (x * y) * n && x * n == v * d
    ensures RoundHalfUp(a, d) == v * y
  {
    assert (x * y) * n == y * (x * n);
    assert y * (v * d) == (v * y) * d;
    MulPos(v, y);
    RoundedQuotient(a, d, v * y, 0);
  }

  lemma HalfBit(rest: nat, half: nat, p: nat, d: nat)
    requires half > 0 && p > 0 && d == (2 * half) * p && rest < 2 * half
    ensures rest * p < d
    ensures (rest / half) % 2 == 1 <==> 2 * (rest * p) >= d
  {
    MulStrict(rest, 2 * half, p);
    assert d == 2 * (half * p);
    if rest >= half {
      DivUnique(rest, half, 1, rest - half);
      MulMono(half, rest, p);
    } else {
      DivUnique(rest, half, 0, rest);
      MulStrict(rest, half, p);
    }
  }

  /** The rest stays below 2^61 from the second digit on, so that five times it fits. */
  ghost predicate NarrowRest(rest: nat, e: nat, i: nat) {
    && e <= 64 && (i == 0 ==> rest < 0x100_0000_0000_0000)
    && (i == 1 ==> rest < 0x500_0000_0000_0000)
    && (i >= 2 ==> rest < 0x2000_0000_0000_0000)
  }

  lemma NarrowStep(e: nat, i: nat, rest: nat, next: nat)
    requires NarrowRest(rest, e, i) && i < e && next < Pow(2, e - i - 1) && next <= 5 * rest
    ensures 5 * rest < TWO64 && NarrowRest(next, e, i + 1)
  {
    hide Pow;
    if i >= 2 {
      PowMono(2, e - i - 1, 61);
      Pow61();
    }
  }

  lemma Pow61()
    ensures Pow(2, 61) == 0x2000_0000_0000_0000
  {
    hide Pow;
    PowTwoWords();
    PowAdd(2, 61, 3);
    PowThree();
  }

  lemma PowThree()
    ensures Pow(2, 3) == 8 && Pow(2, 0) == 1 && Pow(2, 1) == 2
  {
  }

  /** Generates digits of a fraction that one word holds, until there are enough or
      nothing is left; up tells whether the first bit that is cut off is set. */
  method NarrowDigits(fractionals: nat, e: nat, count: nat, buffer: array<char>, length: nat, ghost n: nat)
    returns (newLength: nat, up: bool, ghost rest: nat)
    requires NarrowRest(fractionals, e, 0) && length + count <= buffer.Length
    requires Converted(n, e, 0, buffer[..length], fractionals)
    modifies buffer
    ensures length <= newLength <= length + count && newLength - length <= e
    ensures AllDecimal(buffer[..newLength]) && Converted(n, e, newLength - length, buffer[..newLength], rest)
    ensures newLength == length + count || rest == 0
    ensures var i := newLength - length; up == (rest != 0 && i < e && (rest / Pow(2, e - i - 1)) % 2 == 1)
  {
    hide Pow, Converted, NarrowRest;
    var left: nat, point, i := fractionals, e, 0;
    newLength := length;
    SmallBounds(n, e, 0, buffer[..length], left);
    while i < count && left != 0
      invariant 0 <= i <= count && i <= e && newLength == length + i && point == e - i
      invariant NarrowRest(left, e, i) && (left != 0 ==> i < e)
      invariant Converted(n, e, i, buffer[..newLength], left)
    {
      ghost var s, before := buffer[..newLength], left;
      point := point - 1;
      NarrowRemainder(e, i, before, point);
      var digit: nat;
      digit, left := NextDecimal(left, point);
      ConvertedStep(n, e, i, s, before, digit, left);
      buffer[newLength] := DigitChar(digit);
      newLength := newLength + 1;
      assert buffer[..newLength] == s + [DigitChar(digit)];
      i := i + 1;
      SmallBounds(n, e, i, buffer[..newLength], left);
    }
    rest := left;
    SmallBounds(n, e, i, buffer[..newLength], left);
    up := left != 0 && (left / Pow(2, point - 1)) % 2 == 1;
  }

  lemma NarrowRemainder(e: nat, i: nat, rest: nat, point: nat)
    requires NarrowRest(rest, e, i) && i < e && point == e - i - 1
    ensures 5 * rest < TWO64 && NarrowRest((5 * rest) % Pow(2, point), e, i + 1)
  {
    hide Pow, NarrowRest;
    DivMod(5 * rest, Pow(2, point));
    DigitProduct(5 * rest, (5 * rest) / Pow(2, point), Pow(2, point));
    NarrowStep(e, i, rest, (5 * rest) % Pow(2, point));
  }

  /** Multiplies by 5 and splits at the binary point. */
  method NextDecimal(fractionals: nat, point: nat) returns (digit: nat, rest: nat)
    requires 5 * fractionals < TWO64
    ensures digit == (5 * fractionals) / Pow(2, point) && rest == (5 * fractionals) % Pow(2, point)
    ensures 5 * fractionals == digit * Pow(2, point) + rest && rest < Pow(2, point)
  {
    hide Pow;
    rest := U64(fractionals * 5);
    DivMod(rest, Pow(2, point));
    digit := rest / Pow(2, point);
    DigitProduct(rest, digit, Pow(2, point));
    rest := U64(rest - U64(digit * Pow(2, point)));
  }

  lemma DigitProduct(x: nat, digit: nat, f: nat)
    requires f > 0 && digit == x / f
    ensures 0 <= digit * f <= x && x - digit * f == x % f
  {
    DivMod(x, f);
    MulPos(digit, f);
  }

  /** A rest needs a binary place. */
  lemma SmallBounds(n: nat, e: nat, i: nat, s: seq<char>, rest: nat)
    requires Converted(n, e, i, s, rest)
    ensures i <= e && rest < Pow(2, e - i) && (rest != 0 ==> i < e) && AllDecimal(s)
  {
    assert Pow(2, 0) == 1;
  }

  /** The same for a fraction of up to 128 binary places in two words. */
  ghost predicate WideRest(rest: nat, i: nat) {
    && i <= 20
    && (i == 0 ==> rest < 0x20_0000_0000_0000 * TWO64)
    && (i == 1 ==> rest < 5 * 0x20_0000_0000_0000 * TWO64)
    && (i >= 2 ==> rest < 0x2000_0000_0000_0000 * TWO64)
  }

  lemma WideStep(i: nat, rest: nat, next: nat)
    requires WideRest(rest, i) && i < 20 && next < Pow(2, 127 - i) && next <= 5 * rest
    ensures 5 * rest < TWO128 && WideRest(next, i + 1)
  {
    hide Pow;
    if i >= 2 {
      PowMono(2, 127 - i, 125);
      Pow61();
      PowTwoWords();
      PowAdd(2, 61, 64);
    }
  }

  method NextWideDecimal(fractionals: UInt128, ghost i: nat, point: nat) returns (digit: nat)
    requires fractionals.Valid() && WideRest(fractionals.Value(), i) && i < 20 && point == 127 - i
    requires fractionals.Value() < Pow(2, 128 - i)
    modifies fractionals
    ensures fractionals.Valid() && WideRest(fractionals.Value(), i + 1)
    ensures 5 * old(fractionals.Value()) == digit * Pow(2, point) + fractionals.Value()
    ensures fractionals.Value() < Pow(2, point) && digit <= 9
  {
    hide Pow, WideRest;
    ghost var before, f := fractionals.Value(), Pow(2, point);
    DivMod(5 * before, f);
    DigitProduct(5 * before, (5 * before) / f, f);
    WideStep(i, before, (5 * before) % f);
    HalfPower(128 - i);
    DivLess(5 * before, f, 10);
    fractionals.Multiply(5);
    digit := fractionals.DivModPowerOf2(point);
  }

  lemma HalfPower(k: nat)
    requires k > 0
    ensures Pow(2, k) == 2 * Pow(2, k - 1)
  {
  }

  /** The digits of a fraction in two words, with the binary point at bit 128. */
  method WideDigits(fractionals: UInt128, count: nat, buffer: array<char>, length: nat, ghost n: nat)
    returns (newLength: nat, up: bool, ghost rest: nat)
    requires fractionals.Valid() && WideRest(fractionals.Value(), 0) && length + count <= buffer.Length && count <= 20
    requires Converted(n, 128, 0, buffer[..length], fractionals.Value())
    modifies buffer, fractionals
    ensures length <= newLength <= length + count
    ensures AllDecimal(buffer[..newLength]) && Converted(n, 128, newLength - length, buffer[..newLength], rest)
    ensures newLength == length + count || rest == 0
    ensures var i := newLength - length; up == (rest != 0 && (rest / Pow(2, 127 - i)) % 2 == 1)
  {
    hide Pow, Converted, WideRest;
    var point, i := 128, 0;
    newLength := length;
    SmallBounds(n, 128, 0, buffer[..length], fractionals.Value());
    while i < count && !fractionals.IsZero()
      invariant 0 <= i <= count && newLength == length + i && point == 128 - i
      invariant fractionals.Valid() && WideRest(fractionals.Value(), i)
      invariant Converted(n, 128, i, buffer[..newLength], fractionals.Value())
      invariant fractionals.Value() < Pow(2, 128 - i)
    {
      ghost var s, before := buffer[..newLength], fractionals.Value();
      point := point - 1;
      var digit := NextWideDecimal(fractionals, i, point);
      ConvertedStep(n, 128, i, s, before, digit, fractionals.Value());
      buffer[newLength] := DigitChar(digit);
      newLength := newLength + 1;
      assert buffer[..newLength] == s + [DigitChar(digit)];
      i := i + 1;
    }
    rest := fractionals.Value();
    SmallBounds(n, 128, i, buffer[..newLength], rest);
    var bit := fractionals.BitAt(point - 1);
    ZeroBit(Pow(2, point - 1));
    up := bit == 1;
  }

  lemma ZeroBit(f: nat)
    requires f > 0
    ensures 0 / f == 0
  {
    DivUnique(0, f, 0, 0);
  }

  /** What the digits, with the rounding done, come to: n / 2^e rounded to count decimals. */
  ghost predicate Rounded(s: seq<char>, point: int, n: nat, e: nat, count: nat) {
    && AllDecimal(s) && point - |s| + count >= 0
    && DecimalValue(s) * Pow(10, point - |s| + count) == RoundHalfUp(Scaled(count, n), Pow(2, e))
  }

  /** The digits so far, rounded by what is left, are the whole number rounded. */
  ghost predicate Cut(s: seq<char>, i: nat, up: bool, n: nat, e: nat, count: nat) {
    && i <= count
    && RoundHalfUp(Scaled(count, n), Pow(2, e)) == (DecimalValue(s) + (if up then 1 else 0)) * Pow(10, count - i)
  }

  method NarrowFraction(fractionals: nat, e: nat, count: nat, buffer: array<char>, length: nat, ghost n: nat)
    returns (newLength: nat, up: bool)
    requires e <= 64 && count <= 20 && fractionals < 0x20_0000_0000_0000 && fractionals < Pow(2, e)
    requires length + count <= buffer.Length && AllDecimal(buffer[..length])
    requires n == DecimalValue(buffer[..length]) * Pow(2, e) + fractionals
    modifies buffer
    ensures length <= newLength <= length + count
    ensures AllDecimal(buffer[..newLength]) && Cut(buffer[..newLength], newLength - length, up, n, e, count)
  {
    hide Pow, Converted, RoundHalfUp, DecimalValue, Scaled;
    ghost var rest: nat;
    ConvertedStart(n, e, buffer[..length], fractionals);
    newLength, up, rest := NarrowDigits(fractionals, e, count, buffer, length, n);
    ConvertedEnd(n, e, newLength - length, buffer[..newLength], rest, count, up);
  }

  method WideFraction(fractionals: nat, e: nat, count: nat, buffer: array<char>, length: nat, ghost n: nat)
    returns (newLength: nat, up: bool)
    requires 64 < e <= 128 && count <= 20 && fractionals < 0x20_0000_0000_0000 && fractionals < Pow(2, e)
    requires length + count <= buffer.Length && AllDecimal(buffer[..length])
    requires n == DecimalValue(buffer[..length]) * Pow(2, e) + fractionals
    modifies buffer
    ensures length <= newLength <= length + count
    ensures AllDecimal(buffer[..newLength]) && Cut(buffer[..newLength], newLength - length, up, n, e, count)
  {
    hide Pow, Converted, RoundHalfUp, DecimalValue, Scaled;
    ghost var s := buffer[..length];
    DecimalBound(s);
    ghost var scaled: nat, moved: nat := Shifted(n, e), Shifted(fractionals, e);
    ghost var rest: nat;
    WideShift(fractionals, e, DecimalValue(s), n, count);
    var fractionals128 := new UInt128(fractionals, 0);
    fractionals128.Shift(e - 64);
    ConvertedStart(scaled, 128, s, moved);
    newLength, up, rest := WideDigits(fractionals128, count, buffer, length, scaled);
    ConvertedEnd(scaled, 128, newLength - length, buffer[..newLength], rest, count, up);
  }

  /** x with the binary point moved to bit 128. */
  ghost function Shifted(x: nat, e: nat): nat
    requires e <= 128
  {
    MulPos(x, Pow(2, 128 - e));
    x * Pow(2, 128 - e)
  }

  /** Generates the decimals of fractionals / 2^-exponent, which is below 1, and rounds
      the whole number in the buffer, whose integral digits are there already. */
  method FillFractionals(fractionals: nat, exponent: int, fractionalCount: nat, buffer: array<char>, length: nat,
                         point: int, ghost n: nat)
    returns (newLength: nat, newPoint: int)
    requires -128 <= exponent <= 0 && fractionalCount <= 20 && fractionals < 0x20_0000_0000_0000
    requires fractionals < Pow(2, -exponent)
    requires length <= buffer.Length && AllDecimal(buffer[..length]) && point == length
    requires n == DecimalValue(buffer[..length]) * Pow(2, -exponent) + fractionals
    requires 0 < buffer.Length && length + fractionalCount <= buffer.Length
    modifies buffer
    ensures newLength <= Max(1, length + fractionalCount) && newLength <= buffer.Length
    ensures Rounded(buffer[..newLength], newPoint, n, -exponent, fractionalCount)
  {
    hide Pow, Cut, Rounded, DecimalValue;
    var e: nat := -exponent;
    var up: bool;
    if -exponent <= 64 {
      newLength, up := NarrowFraction(fractionals, e, fractionalCount, buffer, length, n);
    } else {
      newLength, up := WideFraction(fractionals, e, fractionalCount, buffer, length, n);
    }
    newPoint := point;
    ghost var t := buffer[..newLength];
    if up {
      newLength, newPoint := RoundUp(buffer, newLength, newPoint);
    }
    RoundedEnd(t, up, buffer[..newLength], newPoint, length, n, e, fractionalCount);
  }

  lemma RoundedEnd(t: seq<char>, up: bool, s: seq<char>, point: int, length: nat, n: nat, e: nat, count: nat)
    requires AllDecimal(s) && length <= |t| && Cut(t, |t| - length, up, n, e, count)
    requires var x := DecimalValue(t) + (if up then 1 else 0);
             || (point - |s| == length - |t| && DecimalValue(s) == x)
             || (point - |s| == length - |t| + 1 && DecimalValue(s) * 10 == x)
    ensures Rounded(s, point, n, e, count)
  {
    MulAssoc(DecimalValue(s), 10, Pow(10, count - (|t| - length)));
  }

  /** A fraction of more than 64 places, moved to the top of the two words. */
  lemma WideShift(fractionals: nat, e: nat, v: nat, n: nat, count: nat)
    requires 64 < e <= 128 && fractionals < 0x20_0000_0000_0000 && n == v * Pow(2, e) + fractionals
    requires fractionals < Pow(2, e)
    ensures (fractionals * TWO64) / Pow(2, e - 64) == Shifted(fractionals, e) < Pow(2, 128)
    ensures WideRest(Shifted(fractionals, e), 0)
    ensures Shifted(n, e) == v * Pow(2, 128) + Shifted(fractionals, e)
    ensures RoundHalfUp(Scaled(count, Shifted(n, e)), Pow(2, 128)) == RoundHalfUp(Scaled(count, n), Pow(2, e))
  {
    hide Pow, RoundHalfUp;
    var up, down := Pow(2, 128 - e), Pow(2, e - 64);
    PowTwoWords();
    PowAdd(2, 128 - e, e - 64);
    PowAdd(2, e, 128 - e);
    MulAssoc(fractionals, up, down);
    MulPos(fractionals, up);
    DivUnique(fractionals * TWO64, down, fractionals * up, 0);
    MulStrict(fractionals, Pow(2, e), up);
    BelowWord(fractionals, up, down);
    Distribute(v * Pow(2, e), fractionals, up);
    MulAssoc(v, Pow(2, e), up);
    CrossScale(Pow(10, count), n, up, Pow(2, e));
    SameRatio(Scaled(count, n * up), Pow(2, 128), Scaled(count, n), Pow(2, e));
  }

  lemma BelowWord(x: nat, up: nat, down: nat)
    requires up > 0 && down > 0 && up * down == TWO64 && x < 0x20_0000_0000_0000
    ensures x * up < 0x20_0000_0000_0000 * TWO64
  {
    MulMono(1, down, up);
    MulStrict(x, 0x20_0000_0000_0000, up);
  }

  lemma CrossScale(t: int, n: int, up: int, d: int)
    ensures (t * (n * up)) * d == (d * up) * (t * n)
  {
  }

  /** t with its point is s with its point, zeros at both ends removed. */
  ghost predicate Trimmed(s: seq<char>, point: int, t: seq<char>, newPoint: int) {
    var moved := (newPoint - |t|) - (point - |s|);
    && |t| <= |s| && AllDecimal(t) && moved >= 0
    && DecimalValue(t) * Pow(10, moved) == DecimalValue(s)
    && NoZeroEnds(t)
  }

  lemma {:induction false} AllZeros(s: seq<char>)
    requires forall i :: 0 <= i < |s| ==> s[i] == '0'
    ensures DecimalValue(s) == 0
  {
    if |s| > 0 {
      AllZeros(s[..|s| - 1]);
    }
  }

  /** Removes leading and trailing zeros and moves the decimal point accordingly. */
  method TrimZeros(buffer: array<char>, length: nat, point: int) returns (newLength: nat, newPoint: int)
    requires length <= buffer.Length && AllDecimal(buffer[..length])
    modifies buffer
    ensures newLength <= length && Trimmed(old(buffer[..length]), point, buffer[..newLength], newPoint)
  {
    hide Pow, DecimalValue;
    ghost var s := buffer[..length];
    newLength := length;
    PowZeros(0, 0);
    Tens();
    while newLength > 0 && buffer[newLength - 1] == '0'
      invariant newLength <= length && buffer[..length] == s
      invariant DecimalValue(buffer[..newLength]) * Pow(10, length - newLength) == DecimalValue(s)
    {
      DropLast(buffer[..newLength], length - newLength);
      assert buffer[..newLength][..newLength - 1] == buffer[..newLength - 1];
      newLength := newLength - 1;
    }
    var firstNonZero := 0;
    while firstNonZero < newLength && buffer[firstNonZero] == '0'
      invariant firstNonZero <= newLength
      invariant forall i :: 0 <= i < firstNonZero ==> buffer[i] == '0'
    {
      firstNonZero := firstNonZero + 1;
    }
    newPoint := point;
    ghost var t := buffer[..newLength];
    assert t == s[..newLength];
    DropZeros(t, firstNonZero);
    ghost var r := t[firstNonZero..];
    assert AllDecimal(r) && NoZeroEnds(r) by {
      assert |r| > 0 ==> r[0] == t[firstNonZero] && r[|r| - 1] == t[|t| - 1];
    }
    if firstNonZero != 0 {
      MoveForward(buffer, firstNonZero, newLength);
      newLength := newLength - firstNonZero;
      newPoint := point - firstNonZero;
    }
    assert buffer[..newLength] == r;
  }

  lemma DropLast(t: seq<char>, k: nat)
    requires |t| > 0 && t[|t| - 1] == '0'
    ensures DecimalValue(t[..|t| - 1]) * Pow(10, k + 1) == DecimalValue(t) * Pow(10, k)
  {
    MulAssoc(DecimalValue(t[..|t| - 1]), 10, Pow(10, k));
  }

  lemma DropZeros(t: seq<char>, k: nat)
    requires k <= |t| && forall i :: 0 <= i < k ==> t[i] == '0'
    ensures DecimalValue(t[k..]) == DecimalValue(t)
  {
    assert t[..k] + t[k..] == t;
    DecimalAppend(t[..k], t[k..]);
    AllZeros(t[..k]);
  }

  /** Moves the characters from position k up to n to the front. */
  method MoveForward(buffer: array<char>, k: nat, n: nat)
    requires k <= n <= buffer.Length
    modifies buffer
    ensures buffer[..n - k] == old(buffer[k..n])
  {
    for i := k to n
      invariant forall j :: 0 <= j < i - k ==> buffer[j] == old(buffer[j + k])
      invariant forall j :: i <= j < n ==> buffer[j] == old(buffer[j])
    {
      buffer[i - k] := buffer[i];
    }
    forall j | 0 <= j < n - k
      ensures buffer[..n - k][j] == old(buffer[k..n])[j]
    {
      assert buffer[j] == old(buffer[j + k]);
    }
  }

  // What the digits mean for the double.

  lemma RoundedMeaning(s: seq<char>, point: int, f: nat, e: nat, count: nat)
    requires Rounded(s, point, f, e, count)
    ensures FixedDecimal(s, point, count, f, -(e as int))
  {
    PowZeros(1, 1);
    assert Positive(-(e as int)) == 0 && Positive(-(count as int)) == 0;
    assert Upper(-(e as int), -(count as int)) == Pow(10, count);
    assert Lower(-(e as int), -(count as int)) == Pow(2, e);
    Commute(f, Pow(10, count));
  }

  lemma Commute(a: int, b: int)
    ensures a * b == b * a
  {
  }

  /** The digits of an integer. */
  lemma IntegerMeaning(s: seq<char>, f: nat, e: nat, count: nat)
    requires AllDecimal(s) && DecimalValue(s) == f * Pow(2, e)
    ensures FixedDecimal(s, |s|, count, f, e)
  {
    PowZeros(1, 1);
    assert Positive(-(e as int)) == 0 && Positive(-(count as int)) == 0;
    assert Upper(e, -(count as int)) == Pow(2, e) * Pow(10, count);
    assert Lower(e, -(count as int)) == 1;
    MulAssoc(f, Pow(2, e), Pow(10, count));
    MulPos(f, Pow(2, e) * Pow(10, count));
    RoundedQuotient(f * (Pow(2, e) * Pow(10, count)), 1, f * (Pow(2, e) * Pow(10, count)), 0);
  }

  /** Anything below 2^-75 is zero with at most 20 decimals. */
  lemma TinyMeaning(f: nat, e: nat, count: nat)
    requires f < 0x20_0000_0000_0000 && e > 128 && count <= 20
    ensures FixedDecimal([], -(count as int), count, f, -(e as int))
  {
    hide Pow;
    PowZeros(1, 1);
    Tens();
    PowTwoWords();
    PowMono(10, count, 20);
    Pow10Values();
    PowAdd(10, 19, 1);
    Ten1();
    PowMono(2, 128, e);
    MulMono(Pow(10, count), 100000000000000000000, f);
    SmallRounds(Pow(10, count) * f, Pow(2, e));
    MulPos(Pow(10, count), f);
    assert RoundHalfUp(Scaled(count, f), Pow(2, e)) == 0;
    DecimalEmpty();
    RoundedMeaning([], -(count as int), f, e, count);
  }

  lemma Ten1()
    ensures Pow(10, 1) == 10
  {
  }

  lemma DecimalEmpty()
    ensures DecimalValue([]) == 0 && forall x: int {:trigger 0 * x} :: 0 * x == 0
  {
  }

  /** Trimming keeps the number. */
  lemma TrimmedMeaning(s: seq<char>, point: int, t: seq<char>, newPoint: int, count: nat, f: nat, e: int)
    requires FixedDecimal(s, point, count, f, e) && Trimmed(s, point, t, newPoint)
    ensures FixedDecimal(t, if |t| == 0 then -(count as int) else newPoint, count, f, e)
  {
    var k, m := point - |s| + count, (newPoint - |t|) - (point - |s|);
    PowAdd(10, m, k);
    MulAssoc(DecimalValue(t), Pow(10, m), Pow(10, k));
    if |t| == 0 {
      DecimalEmpty();
      MulZero(Pow(10, m), DecimalValue(t));
    }
  }

  /** The first digits of a double of more than 64 bits: a division by 10^17. */
  method SplitLarge(significand: nat, exponent: nat) returns (quotient: nat, remainder: nat)
    requires significand < 0x20_0000_0000_0000 && 11 < exponent <= 20
    ensures quotient < 100000 && remainder < Pow(10, 17)
    ensures quotient * Pow(10, 17) + remainder == significand * Pow(2, exponent)
  {
    hide Pow;
    SmallTwos();
    Tens();
    if exponent > 17 {
      PowAdd(2, exponent - 17, 17);
      MulAssoc(significand, Pow(2, exponent - 17), Pow(2, 17));
      PowMono(2, exponent - 17, 3);
      quotient, remainder := SplitShifted(significand, Pow(2, exponent - 17));
    } else {
      PowAdd(2, 17 - exponent, exponent);
      PowMono(2, 17 - exponent, 5);
      quotient, remainder := SplitScaled(significand, Pow(2, 17 - exponent), Pow(2, exponent));
    }
  }

  lemma SmallTwos()
    ensures Pow(2, 17) == 0x20000 && Pow(2, 3) == 8 && Pow(2, 5) == 32
  {
  }

  method SplitShifted(significand: nat, f: nat) returns (quotient: nat, remainder: nat)
    requires significand < 0x20_0000_0000_0000 && 0 < f <= 8
    ensures quotient < 100000 && remainder < 100000000000000000
    ensures quotient * 100000000000000000 + remainder == (significand * f) * 0x20000
  {
    MulMono(f, 8, significand);
    MulPos(significand, f);
    var dividend := U64(significand * f);
    DivMod(dividend, FIVE17);
    quotient := U32(dividend / FIVE17);
    remainder := U64((dividend % FIVE17) * 0x20000);
  }

  method SplitScaled(significand: nat, g: nat, h: nat) returns (quotient: nat, remainder: nat)
    requires significand < 0x20_0000_0000_0000 && 0 < g <= 32 && h > 0 && g * h == 0x20000
    ensures quotient < 100000 && remainder < 100000000000000000
    ensures quotient * 100000000000000000 + remainder == significand * h
  {
    var divisor := U64(FIVE17 * g);
    DivMod(significand, divisor);
    ghost var q, r := significand / divisor, significand % divisor;
    MulMono(FIVE17, divisor, q);
    quotient := U32(significand / divisor);
    Distribute(q * divisor, r, h);
    MulAssoc(q, divisor, h);
    MulAssoc(FIVE17, g, h);
    MulStrict(r, divisor, h);
    MulPos(r, h);
    remainder := U64((significand % divisor) * h);
  }

  /** Prints an integer: a double with an exponent from 0 to 20. */
  method IntegerDigits(significand: nat, exponent: nat, buffer: array<char>) returns (length: nat)
    requires significand < 0x20_0000_0000_0000 && exponent <= 20 && buffer.Length >= 22
    modifies buffer
    ensures length <= 22 && AllDecimal(buffer[..length])
    ensures DecimalValue(buffer[..length]) == significand * Pow(2, exponent)
  {
    hide Pow, DecimalValue;
    Tens();
    if exponent > 11 {
      var quotient, remainder := SplitLarge(significand, exponent);
      FiveDigits();
      length := FillDigits32(quotient, buffer, 0, 5);
      ghost var s := buffer[..length];
      length := FillDigits64FixedLength(remainder, buffer, length);
      ghost var t := buffer[|s|..length];
      assert buffer[..length] == s + t;
      DecimalAppend(s, t);
    } else {
      PowMono(2, exponent, 11);
      Eleven();
      MulMono(Pow(2, exponent), 0x800, significand);
      length := FillDigits64(U64(significand * Pow(2, exponent)), buffer, 0, 20);
    }
  }

  lemma FiveDigits()
    ensures Pow(10, 5) == 100000
  {
  }

  lemma Eleven()
    ensures Pow(2, 11) == 0x800 && Pow(10, 20) == 100000000000000000000
  {
    hide Pow;
    Pow10Values();
    PowAdd(10, 19, 1);
    Ten1();
    Pow211();
  }

  lemma Pow211()
    ensures Pow(2, 11) == 0x800
  {
  }

  /** Prints a double with integral digits and decimals. */
  method MixedDigits(significand: nat, exponent: int, fractionalCount: nat, buffer: array<char>)
    returns (length: nat, point: int)
    requires significand < 0x20_0000_0000_0000 && -53 < exponent < 0 && fractionalCount <= 20
    requires 16 + fractionalCount <= buffer.Length
    modifies buffer
    ensures length <= Max(1, 16 + fractionalCount)
    ensures Rounded(buffer[..length], point, significand, -exponent, fractionalCount)
  {
    hide Pow, DecimalValue, Rounded;
    ghost var f := Pow(2, -exponent);
    DivMod(significand, f);
    DigitProduct(significand, significand / f, f);
    DivBound(significand, f);
    SixteenDigits();
    var integrals := significand / Pow(2, -exponent);
    var fractionals := U64(significand - U64(integrals * Pow(2, -exponent)));
    if integrals > 0xFFFF_FFFF {
      length := FillDigits64(integrals, buffer, 0, 16);
    } else {
      length := FillDigits32(U32(integrals), buffer, 0, 16);
    }
    assert buffer[0..length] == buffer[..length];
    point := length;
    length, point := FillFractionals(fractionals, exponent, fractionalCount, buffer, length, point, significand);
  }

  lemma DivBound(x: nat, f: nat)
    requires f > 0
    ensures x / f <= x
  {
    DivMod(x, f);
    MulMono(1, f, x / f);
  }

  lemma SixteenDigits()
    ensures Pow(10, 16) == 10000000000000000
  {
    hide Pow;
    Pow10Values();
  }

  /** Prints a double with its exponent up to 20 and at most 20 decimals, rounded half
      upwards, without zeros at either end, and ends the string with a zero character.
      Other doubles are refused. */
  method FastFixedDtoa(significand: nat, exponent: int, fractionalCount: nat, buffer: array<char>)
    returns (ok: bool, length: nat, decimalPoint: int)
    requires significand < 0x20_0000_0000_0000
    requires buffer.Length >= 23 && buffer.Length > 16 + fractionalCount
    modifies buffer
    ensures ok == (exponent <= 20 && fractionalCount <= 20)
    ensures !ok ==> buffer[..] == old(buffer[..])
    ensures ok ==> length < buffer.Length && buffer[length] == '\0'
    ensures ok ==> FixedDecimal(buffer[..length], decimalPoint, fractionalCount, significand, exponent)
    ensures ok ==> NoZeroEnds(buffer[..length]) && (length == 0 ==> decimalPoint == -(fractionalCount as int))
  {
    hide Pow, DecimalValue, Rounded, FixedDecimal, Trimmed, NoZeroEnds;
    if exponent > 20 || fractionalCount > 20 {
      return false, 0, 0;
    }
    length, decimalPoint := 0, 0;
    if exponent >= 0 {
      length := IntegerDigits(significand, exponent, buffer);
      decimalPoint := length;
      IntegerMeaning(buffer[..length], significand, exponent, fractionalCount);
    } else if exponent > -53 {
      length, decimalPoint := MixedDigits(significand, exponent, fractionalCount, buffer);
      RoundedMeaning(buffer[..length], decimalPoint, significand, -exponent, fractionalCount);
    } else if exponent < -128 {
      buffer[0] := '\0';
      length, decimalPoint := 0, -(fractionalCount as int);
      TinyMeaning(significand, -exponent, fractionalCount);
      assert buffer[..0] == [];
    } else {
      Fraction53(significand, -exponent);
      decimalPoint := 0;
      length, decimalPoint := FillFractionals(significand, exponent, fractionalCount, buffer, 0, 0, significand);
      RoundedMeaning(buffer[..length], decimalPoint, significand, -exponent, fractionalCount);
    }
    ghost var s, point := buffer[..length], decimalPoint;
    IsDecimal(s, point, fractionalCount, significand, exponent);
    length, decimalPoint := TrimZeros(buffer, length, decimalPoint);
    ghost var t := buffer[..length];
    TrimmedMeaning(s, point, t, decimalPoint, fractionalCount, significand, exponent);
    TrimmedEnds(s, point, t, decimalPoint);
    buffer[length] := '\0';
    assert buffer[..length] == t;
    if length == 0 {
      decimalPoint := -(fractionalCount as int);
    }
    ok := true;
  }

  lemma Fraction53(f: nat, e: nat)
    requires f < 0x20_0000_0000_0000 && e >= 53
    ensures f < Pow(2, e) && DecimalValue([]) * Pow(2, e) + f == f
  {
    hide Pow;
    PowTwoWords();
    PowMono(2, 53, e);
    PowAdd(2, 53, 11);
    Pow211();
    MulZero(Pow(2, e), DecimalValue([]));
    assert DecimalValue([]) * Pow(2, e) == 0;
  }

  lemma IsDecimal(s: seq<char>, point: int, count: nat, f: nat, e: int)
    requires FixedDecimal(s, point, count, f, e)
    ensures AllDecimal(s)
  {
  }

  lemma TrimmedEnds(s: seq<char>, point: int, t: seq<char>, newPoint: int)
    requires Trimmed(s, point, t, newPoint)
    ensures NoZeroEnds(t) && AllDecimal(t)
  {
  }
}
