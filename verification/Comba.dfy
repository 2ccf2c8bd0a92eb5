// Column-wise squaring: the sum of digit products of every column, and why the
// weighted columns add up to the square.

module Comba {
  import opened Arith
  import opened Digits

  const MAX_PRODUCT: nat := 0xFFF_FFFF * 0xFFF_FFFF

  /** The digit products s[j] * s[c - j] for j from lo up to hi. */
  ghost function Conv(s: seq<int>, lo: nat, hi: nat, c: nat): int
    requires lo <= hi <= |s| && hi <= c + 1 && c - lo < |s|
  {
    if hi == lo then 0 else Conv(s, lo, hi - 1, c) + s[hi - 1] * s[c - hi + 1]
  }

  /** Column c of the square of the n digits of s. */
  ghost function Column(s: seq<int>, n: nat, c: nat): int
    requires n <= |s| && c < 2 * n
  {
    Conv(s, Max(0, c - n + 1), Min(c + 1, n), c)
  }

  /** The first k columns, weighed. */
  ghost function Columns(s: seq<int>, n: nat, k: nat): int
    requires n <= |s| && k <= 2 * n
  {
    if k == 0 then 0 else Columns(s, n, k - 1) + Column(s, n, k - 1) * W(k - 1)
  }

  lemma {:induction false} ConvLow(s: seq<int>, lo: nat, hi: nat, c: nat)
    requires lo < hi <= |s| && hi <= c + 1 && c - lo < |s|
    ensures Conv(s, lo, hi, c) == s[lo] * s[c - lo] + Conv(s, lo + 1, hi, c)
    decreases hi
  {
    if hi == lo + 1 {
      assert Conv(s, lo, lo, c) == 0;
    } else {
      ConvLow(s, lo, hi - 1, c);
    }
  }

  lemma DigitProduct(a: int, b: int)
    requires IsDigit(a) && IsDigit(b)
    ensures 0 <= a * b <= MAX_PRODUCT
  {
    MulMono(a, BASE - 1, b);
    MulMono(b, BASE - 1, BASE - 1);
    MulPos(a, b);
  }

  lemma {:induction false} ConvBound(s: seq<int>, n: nat, lo: nat, hi: nat, c: nat)
    requires lo <= hi <= n <= |s| && hi <= c + 1 && c - lo < n && AllDigits(s, n)
    ensures 0 <= Conv(s, lo, hi, c) <= (hi - lo) * MAX_PRODUCT
    decreases hi
  {
    if hi > lo {
      ConvBound(s, n, lo, hi - 1, c);
      DigitProduct(s[hi - 1], s[c - hi + 1]);
    }
  }

  /** Adding a digit on top leaves the columns below it alone. */
  lemma {:induction false} LowColumns(s: seq<int>, n: nat, k: nat)
    requires n + 1 <= |s| && k <= n
    ensures Columns(s, n + 1, k) == Columns(s, n, k)
  {
    if k > 0 {
      LowColumns(s, n, k - 1);
    }
  }

  /** Adding a digit on top adds its two products to each middle column. */
  lemma MiddleColumn(s: seq<int>, n: nat, c: nat)
    requires n + 1 <= |s| && n <= c < 2 * n
    ensures Column(s, n + 1, c) == Column(s, n, c) + 2 * (s[n] * s[c - n])
  {
    ConvLow(s, c - n, n, c);
  }

  lemma {:induction false} MiddleColumns(s: seq<int>, n: nat, k: nat)
    requires n + 1 <= |s| && n <= k <= 2 * n
    ensures Columns(s, n + 1, k) == Columns(s, n, k) + 2 * (s[n] * Val(s, k - n, n))
    decreases k
  {
    if k == n {
      LowColumns(s, n, k);
    } else {
      var c := k - 1;
      MiddleColumns(s, n, c);
      MiddleColumn(s, n, c);
      MiddleStep(s[n], s[c - n], W(c), Column(s, n, c), Val(s, c - n, n));
    }
  }

  lemma MiddleStep(d: int, x: int, w: int, col: int, v: int)
    ensures (col + 2 * (d * x)) * w - col * w == 2 * (d * (v + x * w)) - 2 * (d * v)
  {
    MulAssoc(d, x, w);
    assert (col + 2 * (d * x)) * w == col * w + 2 * ((d * x) * w);
    assert d * (v + x * w) == d * v + d * (x * w);
  }

  lemma TopColumns(s: seq<int>, n: nat)
    requires n + 1 <= |s|
    ensures Columns(s, n + 1, 2 * n + 2) == Columns(s, n + 1, 2 * n) + (s[n] * s[n]) * W(2 * n)
  {
    assert Conv(s, n, n, 2 * n) == 0;
    assert Column(s, n + 1, 2 * n) == s[n] * s[n];
    assert Column(s, n + 1, 2 * n + 1) == 0;
  }

  lemma BinomialSquare(x: int, d: int, w: int)
    ensures (x + d * w) * (x + d * w) == x * x + 2 * (d * (x * w)) + (d * d) * (w * w)
  {
    var y := d * w;
    assert (x + y) * (x + y) == x * x + 2 * (x * y) + y * y;
    MulAssoc(x, d, w);
    MulAssoc(d, x, w);
    MulAssoc(d, w, d * w);
    MulAssoc(w, d, w);
    MulAssoc(d, w, w);
    MulAssoc(d, d, w * w);
  }

  /** The weighted columns of n digits add up to the square. */
  lemma {:induction false} SquareColumns(s: seq<int>, n: nat)
    requires n <= |s|
    ensures Columns(s, n, 2 * n) == Num(s, n) * Num(s, n)
  {
    if n > 0 {
      var m := n - 1;
      SquareColumns(s, m);
      MiddleColumns(s, m, 2 * m);
      TopColumns(s, m);
      ValScale(s, m, m);
      WAdd(m, m);
      BinomialSquare(Num(s, m), s[m], W(m));
    }
  }

  /** Taking the low digit of a wide accumulator through a 32-bit register. */
  lemma LowDigit(acc: nat)
    ensures U32(acc) % BASE == acc % BASE
  {
    var k := acc / TWO32;
    assert acc == k * TWO32 + U32(acc);
    assert acc == (16 * k) * BASE + U32(acc);
    AddMultiple(U32(acc), 16 * k);
  }

  /** One finished column: what the accumulator held is the digit and the new carry. */
  lemma ColumnStep(s: seq<int>, t: seq<int>, s0: seq<int>, n: nat, c: nat, carry: nat, acc: nat)
    requires n <= |s0| && c < 2 * n && c < |s| == |t| && t == s[c := acc % BASE]
    requires acc == carry + Column(s0, n, c)
    requires Num(s, c) + carry * W(c) == Columns(s0, n, c)
    ensures Num(t, c + 1) + (acc / BASE) * W(c + 1) == Columns(s0, n, c + 1)
  {
    var w, col := W(c), Column(s0, n, c);
    ValFrame(s, t, c, 0);
    CarryStep(acc, w);
    assert (carry + col) * w == carry * w + col * w;
  }

  /** Adding one more digit product to a column's sum stays within 64 bits. */
  lemma ProductStep(s: seq<int>, n: nat, lo: nat, j: nat, c: nat, carry: nat, acc: nat)
    requires n <= 64 && n <= |s| && lo <= j < n && j <= c && c - lo < n && AllDigits(s, n)
    requires carry <= n * (BASE - 1) && acc == carry + Conv(s, lo, j, c)
    ensures U64(acc + s[c - j] * s[j]) == carry + Conv(s, lo, j + 1, c)
  {
    ConvBound(s, n, lo, j + 1, c);
    assert s[c - j] * s[j] == s[j] * s[c - j];
  }

  /** The carry out of a column keeps its bound. */
  lemma ColumnCarry(s: seq<int>, n: nat, c: nat, carry: nat, acc: nat)
    requires n <= |s| && c < 2 * n && AllDigits(s, n)
    requires carry <= n * (BASE - 1) && acc == carry + Column(s, n, c)
    ensures acc / BASE <= n * (BASE - 1)
  {
    ConvBound(s, n, Max(0, c - n + 1), Min(c + 1, n), c);
  }

  /** Adds column c, for c below n, to the accumulator. */
  method AddLowColumn(a: array<int>, n: nat, c: nat, carry: nat, ghost s0: seq<int>) returns (acc: nat)
    requires n <= 64 && 2 * n <= a.Length && |s0| == n && AllDigits(s0, n) && c < n
    requires forall j :: 0 <= j < n ==> a[n + j] == s0[j]
    requires carry <= n * (BASE - 1)
    ensures acc == carry + Column(s0, n, c)
  {
    acc := carry;
    var index1, index2 := c, 0;
    while index1 >= 0
      invariant index1 + index2 == c && 0 <= index2 <= c + 1
      invariant acc == carry + Conv(s0, 0, index2, c)
    {
      ProductStep(s0, n, 0, index2, c, carry, acc);
      acc := U64(acc + a[n + index1] * a[n + index2]);
      index1 := index1 - 1;
      index2 := index2 + 1;
    }
  }

  /** Adds column c, for c from n upwards, to the accumulator. */
  method AddHighColumn(a: array<int>, n: nat, c: nat, carry: nat, ghost s0: seq<int>) returns (acc: nat)
    requires n <= 64 && 2 * n <= a.Length && |s0| == n && AllDigits(s0, n) && n <= c < 2 * n
    requires forall j :: c - n < j < n ==> a[n + j] == s0[j]
    requires carry <= n * (BASE - 1)
    ensures acc == carry + Column(s0, n, c)
  {
    acc := carry;
    var index1 := n - 1;
    var index2 := c - index1;
    while index2 < n
      invariant index1 + index2 == c && c - n + 1 <= index2 <= n
      invariant acc == carry + Conv(s0, c - n + 1, index2, c)
    {
      ProductStep(s0, n, c - n + 1, index2, c, carry, acc);
      acc := U64(acc + a[n + index1] * a[n + index2]);
      index1 := index1 - 1;
      index2 := index2 + 1;
    }
  }

  /** Computes the low half of the columns; the digits sit at positions n to 2n. */
  method SquareLow(a: array<int>, n: nat, ghost s0: seq<int>) returns (acc: nat)
    requires n <= 64 && 2 * n <= a.Length && |s0| == n && AllDigits(s0, n)
    requires forall j :: 0 <= j < n ==> a[n + j] == s0[j]
    modifies a
    ensures forall j :: 0 <= j < n ==> a[n + j] == s0[j]
    ensures AllDigits(a[..], n)
    ensures acc <= n * (BASE - 1)
    ensures Num(a[..], n) + acc * W(n) == Columns(s0, n, n)
  {
    acc := 0;
    for c := 0 to n
      invariant forall j :: 0 <= j < n ==> a[n + j] == s0[j]
      invariant AllDigits(a[..], c)
      invariant acc <= n * (BASE - 1)
      invariant Num(a[..], c) + acc * W(c) == Columns(s0, n, c)
    {
      ghost var carry, s := acc, a[..];
      acc := AddLowColumn(a, n, c, acc, s0);
      ColumnCarry(s0, n, c, carry, acc);
      LowDigit(acc);
      a[c] := U32(acc) % BASE;
      ColumnStep(s, a[..], s0, n, c, carry, acc);
      acc := acc / BASE;
    }
  }

  /** Computes the high half of the columns over the digits themselves: column c only
      reads digits that lie above position c. */
  method SquareHigh(a: array<int>, n: nat, carryIn: nat, ghost s0: seq<int>) returns (acc: nat)
    requires n <= 64 && 2 * n <= a.Length && |s0| == n && AllDigits(s0, n)
    requires forall j :: 0 <= j < n ==> a[n + j] == s0[j]
    requires AllDigits(a[..], n) && carryIn <= n * (BASE - 1)
    requires Num(a[..], n) + carryIn * W(n) == Columns(s0, n, n)
    modifies a
    ensures AllDigits(a[..], 2 * n)
    ensures Num(a[..], 2 * n) + acc * W(2 * n) == Columns(s0, n, 2 * n)
  {
    hide W;
    acc := carryIn;
    for c := n to 2 * n
      invariant forall j :: c - n <= j < n ==> a[n + j] == s0[j]
      invariant AllDigits(a[..], c)
      invariant acc <= n * (BASE - 1)
      invariant Num(a[..], c) + acc * W(c) == Columns(s0, n, c)
    {
      ghost var carry, s := acc, a[..];
      acc := AddHighColumn(a, n, c, acc, s0);
      ColumnCarry(s0, n, c, carry, acc);
      LowDigit(acc);
      a[c] := U32(acc) % BASE;
      ColumnStep(s, a[..], s0, n, c, carry, acc);
      acc := acc / BASE;
    }
  }

  /** A square of n digits fits 2n digits, so nothing is left in the accumulator. */
  lemma AccumulatorEmpty(t: seq<int>, s: seq<int>, n: nat, acc: nat)
    requires n <= |s| && 2 * n <= |t| && AllDigits(s, n) && AllDigits(t, 2 * n)
    requires Num(t, 2 * n) + acc * W(2 * n) == Columns(s, n, 2 * n)
    ensures acc == 0 && Num(t, 2 * n) == Num(s, n) * Num(s, n)
  {
    SquareColumns(s, n);
    ValBound(s, n, 0);
    ValBound(t, 2 * n, 0);
    WAdd(n, n);
    var x, w := Num(s, n), W(n);
    MulMono(x, w, x);
    MulStrict(x, w, w);
    if acc > 0 {
      MulMono(1, acc, W(2 * n));
    }
  }

  /** Replaces the n digits, copied to positions n to 2n, by the 2n digits of their
      square. Nothing is left in the accumulator. */
  method SquareDigits(a: array<int>, n: nat, ghost s0: seq<int>)
    requires n <= 64 && 2 * n <= a.Length && |s0| == n && AllDigits(s0, n)
    requires forall j :: 0 <= j < n ==> a[n + j] == s0[j]
    modifies a
    ensures AllDigits(a[..], 2 * n)
    ensures Num(a[..], 2 * n) == Num(s0, n) * Num(s0, n)
  {
    var accumulator := SquareLow(a, n, s0);
    accumulator := SquareHigh(a, n, accumulator, s0);
    AccumulatorEmpty(a[..], s0, n, accumulator);
    assert accumulator == 0;
  }
}
