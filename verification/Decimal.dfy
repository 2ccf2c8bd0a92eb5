// The numbers that strings of decimal digits denote.

module Decimal {
  import opened Arith

  /** What a character contributes as a digit; the character above '9' counts as 10, as
      it does while a carry is being propagated. */
  function DigitValue(c: char): int {
    c as int - '0' as int
  }

  /** The character of a digit; 10 gives the character above '9'. */
  function DigitChar(d: nat): (c: char)
    requires d <= 10
    ensures DigitValue(c) == d
    ensures d <= 9 ==> IsDecimalDigit(c)
  {
    ('0' as int + d) as char
  }

  predicate IsDecimalDigit(c: char) {
    '0' <= c <= '9'
  }

  /** The digits in order are the ten characters from 0 to 9. */
  lemma DigitTable(d: nat)
    requires d < 10
    ensures DigitChar(d) == "0123456789"[d] && DigitValue("0123456789"[d]) == d
  {
    assert forall i :: 0 <= i < 10 ==> "0123456789"[i] as int == '0' as int + i;
  }

  ghost predicate AllDecimal(s: seq<char>) {
    forall i :: 0 <= i < |s| ==> IsDecimalDigit(s[i])
  }

  /** The integer a digit string denotes, most significant digit first. */
  function DecimalValue(s: seq<char>): int
  {
    if |s| == 0 then 0 else 10 * DecimalValue(s[..|s| - 1]) + DigitValue(s[|s| - 1])
  }

  lemma DecimalPush(s: seq<char>, c: char)
    ensures DecimalValue(s + [c]) == 10 * DecimalValue(s) + DigitValue(c)
  {
    assert (s + [c])[..|s|] == s;
  }

  lemma {:induction false} DecimalAppend(s: seq<char>, t: seq<char>)
    ensures DecimalValue(s + t) == DecimalValue(s) * Pow(10, |t|) + DecimalValue(t)
    decreases |t|
  {
    if |t| == 0 {
      assert s + t == s;
    } else {
      var u := t[..|t| - 1];
      DecimalAppend(s, u);
      assert (s + t)[..|s + t| - 1] == s + u;
      MulAssoc(10, DecimalValue(s), Pow(10, |u|));
      MulAssoc(DecimalValue(s), 10, Pow(10, |u|));
    }
  }

  lemma {:induction false} DecimalBound(s: seq<char>)
    requires AllDecimal(s)
    ensures 0 <= DecimalValue(s) < Pow(10, |s|)
  {
    if |s| > 0 {
      DecimalBound(s[..|s| - 1]);
    }
  }

  /** Changing the digit at position i changes the number by the difference at that
      position's power of ten. */
  lemma {:induction false} DecimalUpdate(s: seq<char>, i: nat, c: char)
    requires i < |s|
    ensures DecimalValue(s[i := c]) == DecimalValue(s) + (DigitValue(c) - DigitValue(s[i])) * Pow(10, |s| - 1 - i)
    decreases |s|
  {
    var last := |s| - 1;
    if i == last {
      assert s[i := c][..last] == s[..last];
    } else {
      DecimalUpdate(s[..last], i, c);
      assert s[i := c][..last] == s[..last][i := c];
      MulAssoc(DigitValue(c) - DigitValue(s[i]), 10, Pow(10, last - 1 - i));
    }
  }

  /** A first digit followed by zeros. */
  lemma {:induction false} DecimalZeros(s: seq<char>)
    requires |s| > 0 && forall i :: 0 < i < |s| ==> s[i] == '0'
    ensures DecimalValue(s) == DigitValue(s[0]) * Pow(10, |s| - 1)
  {
    if |s| > 1 {
      DecimalZeros(s[..|s| - 1]);
      MulAssoc(DigitValue(s[0]), 10, Pow(10, |s| - 2));
    } else {
      assert DecimalValue(s[..0]) == 0;
    }
  }

  /** Digits below position n are decimal digits, except that the digit at position i
      may be 10. */
  ghost predicate CarryAt(s: seq<char>, i: nat)
  {
    && i < |s|
    && (forall j :: 0 <= j < |s| && j != i ==> IsDecimalDigit(s[j]))
    && 0 <= DigitValue(s[i]) <= 10
  }

  /** The next character is the next digit. */
  function NextChar(c: char): (d: char)
    requires IsDecimalDigit(c)
    ensures DigitValue(d) == DigitValue(c) + 1
  {
    c + 1 as char
  }

  /** Moving a 10 one position up as a carry keeps the number. */
  lemma CarryUp(s: seq<char>, i: nat, t: seq<char>)
    requires 0 < i && CarryAt(s, i) && DigitValue(s[i]) == 10
    requires t == s[i := '0'][i - 1 := NextChar(s[i - 1])]
    ensures DecimalValue(t) == DecimalValue(s) && CarryAt(t, i - 1) && t[i] == '0'
  {
    CarryUpValue(s, i, NextChar(s[i - 1]));
    assert forall j :: 0 <= j < |t| && j != i && j != i - 1 ==> t[j] == s[j];
  }

  lemma CarryUpValue(s: seq<char>, i: nat, c: char)
    requires 0 < i < |s| && DigitValue(s[i]) == 10 && DigitValue(c) == DigitValue(s[i - 1]) + 1
    ensures DecimalValue(s[i := '0'][i - 1 := c]) == DecimalValue(s)
  {
    var u, m := s[i := '0'], |s| - 1 - i;
    DecimalUpdate(s, i, '0');
    DecimalUpdate(u, i - 1, c);
    assert u[i - 1] == s[i - 1];
    TenUnits(DecimalValue(s), DecimalValue(u), DecimalValue(u[i - 1 := c]), m);
  }

  /** Ten units at one position are one unit at the next. */
  lemma TenUnits(x: int, y: int, z: int, m: nat)
    requires y == x + (0 - 10) * Pow(10, m) && z == y + 1 * Pow(10, m + 1)
    ensures z == x
  {
  }

  /** Propagates a digit 10 in the last of n positions towards the front, and turns a 10
      that reaches the front into a 1 with the decimal point moved. */
  method PropagateTens(buffer: array<char>, n: nat, point: int) returns (decimalPoint: int)
    requires 0 < n <= buffer.Length && CarryAt(buffer[..n], n - 1)
    modifies buffer
    ensures AllDecimal(buffer[..n])
    ensures forall j :: n <= j < buffer.Length ==> buffer[j] == old(buffer[j])
    ensures decimalPoint == point || decimalPoint == point + 1
    ensures DecimalValue(buffer[..n]) * (if decimalPoint == point then 1 else 10) == old(DecimalValue(buffer[..n]))
    ensures decimalPoint == point + 1 ==> buffer[0] == '1' && DecimalValue(buffer[..n]) == Pow(10, n - 1)
  {
    ghost var v := DecimalValue(buffer[..n]);
    var i := n - 1;
    while i > 0 && DigitValue(buffer[i]) == 10
      invariant 0 <= i < n && CarryAt(buffer[..n], i) && DecimalValue(buffer[..n]) == v
      invariant forall j :: i < j < n ==> i < n - 1 && buffer[j] == '0'
      invariant forall j :: n <= j < buffer.Length ==> buffer[j] == old(buffer[j])
    {
      ghost var s := buffer[..n];
      buffer[i] := '0';
      buffer[i - 1] := NextChar(buffer[i - 1]);
      CarryUp(s, i, buffer[..n]);
      i := i - 1;
    }
    decimalPoint := point;
    if DigitValue(buffer[0]) == 10 {
      DecimalZeros(buffer[..n]);
      buffer[0] := '1';
      DecimalZeros(buffer[..n]);
      decimalPoint := point + 1;
    }
  }

  /** 19 decimal digits fit 64 bits. */
  lemma TenPowers(n: nat)
    requires n <= 19
    ensures Pow(10, n) < TWO64
  {
    PowMono(10, n, 19);
    Pow10Values();
  }

  lemma Pow10Values()
    ensures Pow(10, 7) == 10000000
    ensures Pow(10, 16) == 10000000000000000
    ensures Pow(10, 17) == 100000000000000000
    ensures Pow(10, 19) == 10000000000000000000
  {
    assert Pow(10, 3) == 1000;
    PowAdd(10, 3, 3);
    PowAdd(10, 6, 1);
    PowAdd(10, 7, 7);
    PowAdd(10, 14, 2);
    PowAdd(10, 14, 3);
    assert Pow(10, 2) == 100;
    PowAdd(10, 17, 1);
    PowAdd(10, 18, 1);
    assert Pow(10, 1) == 10;
  }
}
