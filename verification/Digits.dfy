// Positional arithmetic shared by the big-number modules: powers, machine-word
// wrap-around, and the value of a little-endian sequence of 28-bit digits.

module Arith {
  const TWO32: nat := 0x1_0000_0000
  const TWO64: nat := 0x1_0000_0000_0000_0000

  /** What a 16-bit unsigned register keeps of x. */
  function U16(x: int): (r: nat)
    ensures r < 0x10000
    ensures 0 <= x < 0x10000 ==> r == x
  {
    x % 0x10000
  }

  /** What a 32-bit unsigned register keeps of x. */
  function U32(x: int): (r: nat)
    ensures r < TWO32
    ensures 0 <= x < TWO32 ==> r == x
  {
    x % TWO32
  }

  /** What a 64-bit unsigned register keeps of x. */
  function U64(x: int): (r: nat)
    ensures r < TWO64
    ensures 0 <= x < TWO64 ==> r == x
  {
    x % TWO64
  }

  function Pow(b: nat, e: nat): (p: nat)
    ensures b > 0 ==> p > 0
  {
    if e == 0 then 1 else b * Pow(b, e - 1)
  }

  function Min(a: int, b: int): int {
    if a < b then a else b
  }

  function Max(a: int, b: int): int {
    if a < b then b else a
  }

  lemma {:induction false} PowAdd(b: nat, m: nat, n: nat)
    ensures Pow(b, m + n) == Pow(b, m) * Pow(b, n)
  {
    if m == 0 {
    } else {
      PowAdd(b, m - 1, n);
      MulAssoc(b, Pow(b, m - 1), Pow(b, n));
    }
  }

  lemma {:induction false} PowMul(b: nat, m: nat, n: nat)
    ensures Pow(Pow(b, m), n) == Pow(b, m * n)
  {
    if n == 0 {
      assert m * n == 0;
    } else {
      PowMul(b, m, n - 1);
      assert m * n == m + m * (n - 1);
      PowAdd(b, m, m * (n - 1));
    }
  }

  lemma {:induction false} PowBase(a: nat, b: nat, n: nat)
    ensures Pow(a * b, n) == Pow(a, n) * Pow(b, n)
  {
    if n == 0 {
    } else {
      PowBase(a, b, n - 1);
      var x, y := Pow(a, n - 1), Pow(b, n - 1);
      calc {
        (a * b) * (x * y);
        { MulAssoc(a, b, x * y); MulAssoc(b, x, y); MulAssoc(x, b, y); }
        a * (x * (b * y));
        { MulAssoc(a, x, b * y); }
        (a * x) * (b * y);
      }
    }
  }

  lemma {:induction false} PowMono(b: nat, m: nat, n: nat)
    requires b >= 1 && m <= n
    ensures Pow(b, m) <= Pow(b, n)
    decreases n
  {
    if m == n {
    } else {
      PowMono(b, m, n - 1);
      MulMono(1, b, Pow(b, n - 1));
    }
  }

  lemma {:induction false} PowStrict(b: nat, m: nat, n: nat)
    requires b >= 2 && m < n
    ensures Pow(b, m) < Pow(b, n)
  {
    PowMono(b, m, n - 1);
    MulMono(2, b, Pow(b, n - 1));
  }

  /** Powers order their exponents: the contrapositive of monotonicity. */
  lemma PowLess(b: nat, m: nat, n: nat)
    requires b >= 1 && Pow(b, m) < Pow(b, n)
    ensures m < n
  {
    if n <= m {
      PowMono(b, n, m);
    }
  }

  lemma MulAssoc(a: int, b: int, c: int)
    ensures (a * b) * c == a * (b * c)
  {
  }

  lemma Distribute(a: int, b: int, c: int)
    ensures (a + b) * c == a * c + b * c
  {
  }

  lemma MulMono(a: int, b: int, c: int)
    requires a <= b && 0 <= c
    ensures a * c <= b * c
    ensures c * a <= c * b
  {
  }

  lemma MulStrict(a: int, b: int, c: int)
    requires a < b && 0 < c
    ensures a * c < b * c
    ensures c * a < c * b
  {
  }

  /** A strict inequality of products strips a common non-negative factor. */
  lemma MulCancelLess(a: int, b: int, c: int)
    requires a * c < b * c && 0 <= c
    ensures a < b
  {
    if b <= a {
      MulMono(b, a, c);
    }
  }

  lemma MulCancelLeq(a: int, b: int, c: int)
    requires a * c <= b * c && 0 < c
    ensures a <= b
  {
    if b < a {
      MulStrict(b, a, c);
    }
  }

  lemma MulZero(a: int, b: int)
    requires b == 0
    ensures a * b == 0
  {
  }

  lemma MulPos(a: int, b: int)
    requires 0 <= a && 0 <= b
    ensures 0 <= a * b
    ensures 0 < a && 0 < b ==> 0 < a * b
  {
  }

  /** Quotient and remainder are the only pair with the division property. */
  lemma DivUnique(x: int, d: int, q: int, r: int)
    requires 0 < d && x == q * d + r && 0 <= r < d
    ensures x / d == q && x % d == r
  {
    var q', r' := x / d, x % d;
    assert x == q' * d + r';
    assert (q' + 1) * d == q' * d + d && (q + 1) * d == q * d + d;
    MulCancelLess(q, q' + 1, d);
    MulCancelLess(q', q + 1, d);
  }

  lemma DivMod(x: int, d: int)
    requires 0 < d
    ensures x == (x / d) * d + x % d
    ensures 0 <= x % d < d
  {
  }

  /** Dividing by a product is dividing twice. */
  lemma DivDiv(x: nat, a: nat, b: nat)
    requires 0 < a && 0 < b
    ensures 0 < a * b && 0 < b * a && x / (a * b) == (x / a) / b && x / (b * a) == (x / a) / b
  {
    MulPos(a, b);
    var q, r := x / a, x % a;
    var q2, r2 := q / b, q % b;
    assert x == q * a + r;
    assert q == q2 * b + r2;
    calc {
      x;
      (q2 * b + r2) * a + r;
      (q2 * b) * a + r2 * a + r;
      { MulAssoc(q2, b, a); }
      q2 * (b * a) + (r2 * a + r);
    }
    MulMono(r2, b - 1, a);
    assert (b - 1) * a == b * a - a;
    MulPos(r2, a);
    assert a * b == b * a;
    DivUnique(x, a * b, q2, r2 * a + r);
  }
}

/** The value of a little-endian sequence of base-2^28 digits. */
module Digits {
  import opened Arith

  const BASE: int := 0x1000_0000
  const BITS: nat := 28

  predicate IsDigit(d: int) {
    0 <= d < BASE
  }

  /** The weight of digit position n. */
  ghost function W(n: nat): (w: nat)
    ensures w > 0
  {
    if n == 0 then 1 else BASE * W(n - 1)
  }

  /** The number held by the n lowest digits of s when e zero digits lie below them. */
  ghost function Val(s: seq<int>, n: nat, e: nat): int
    requires n <= |s|
  {
    if n == 0 then 0 else Val(s, n - 1, e) + s[n - 1] * W(n - 1 + e)
  }

  /** The number held by the n lowest digits of s. */
  ghost function Num(s: seq<int>, n: nat): int
    requires n <= |s|
  {
    Val(s, n, 0)
  }

  ghost predicate AllDigits(s: seq<int>, n: nat)
    requires n <= |s|
  {
    forall i :: 0 <= i < n ==> IsDigit(s[i])
  }

  lemma {:induction false} WAdd(m: nat, n: nat)
    ensures W(m + n) == W(m) * W(n)
  {
    if m == 0 {
    } else {
      WAdd(m - 1, n);
      MulAssoc(BASE, W(m - 1), W(n));
    }
  }

  lemma {:induction false} WMono(m: nat, n: nat)
    requires m <= n
    ensures W(m) <= W(n)
    decreases n
  {
    if m < n {
      WMono(m, n - 1);
    }
  }

  lemma WNext(n: nat)
    ensures W(n + 1) == BASE * W(n)
  {
  }

  lemma WLess(m: nat, n: nat)
    requires W(m) < W(n)
    ensures m < n
  {
    if n <= m {
      WMono(n, m);
    }
  }

  lemma {:induction false} WPow2(n: nat)
    ensures W(n) == Pow(2, BITS * n)
  {
    if n == 0 {
    } else {
      WPow2(n - 1);
      PowAdd(2, BITS, BITS * (n - 1));
      assert BITS * n == BITS + BITS * (n - 1);
      Pow2Base();
    }
  }

  lemma Pow2Base()
    ensures Pow(2, BITS) == BASE
  {
    assert Pow(2, 7) == 128;
    PowAdd(2, 7, 7);
    PowAdd(2, 14, 14);
  }

  lemma ValNext(s: seq<int>, n: nat, e: nat)
    ensures Val(s, 0, e) == 0
    ensures n < |s| ==> Val(s, n + 1, e) == Val(s, n, e) + s[n] * W(n + e)
  {
  }

  lemma NumNone(s: seq<int>)
    ensures Num(s, 0) == 0
  {
  }

  /** Only the digits below n matter. */
  lemma {:induction false} ValFrame(s: seq<int>, t: seq<int>, n: nat, e: nat)
    requires n <= |s| && n <= |t|
    requires forall i :: 0 <= i < n ==> s[i] == t[i]
    ensures Val(s, n, e) == Val(t, n, e)
  {
    if n == 0 {
    } else {
      ValFrame(s, t, n - 1, e);
    }
  }

  /** Digits shared from k upwards contribute the same to both numbers. */
  lemma {:induction false} ValHighFrame(s: seq<int>, t: seq<int>, k: nat, n: nat, e: nat)
    requires k <= n <= |s| && n <= |t|
    requires forall i :: k <= i < n ==> s[i] == t[i]
    ensures Val(s, n, e) - Val(s, k, e) == Val(t, n, e) - Val(t, k, e)
    decreases n
  {
    if k < n {
      ValHighFrame(s, t, k, n - 1, e);
    }
  }

  /** Zero digits from k upwards do not contribute. */
  lemma {:induction false} ValHighZeros(s: seq<int>, k: nat, n: nat, e: nat)
    requires k <= n <= |s| && forall i :: k <= i < n ==> s[i] == 0
    ensures Val(s, n, e) == Val(s, k, e)
    decreases n
  {
    if n == k {
    } else {
      ValHighZeros(s, k, n - 1, e);
    }
  }

  /** The exponent multiplies the value. */
  lemma {:induction false} ValScale(s: seq<int>, n: nat, e: nat)
    requires n <= |s|
    ensures Val(s, n, e) == Num(s, n) * W(e)
  {
    if n == 0 {
    } else {
      ValScale(s, n - 1, e);
      WAdd(n - 1, e);
      MulAssoc(s[n - 1], W(n - 1), W(e));
      var x, d, w := Num(s, n - 1), s[n - 1], W(n - 1);
      assert (x + d * w) * W(e) == x * W(e) + (d * w) * W(e);
    }
  }

  /** n digits denote a number below the weight of the next position. */
  lemma {:induction false} ValBound(s: seq<int>, n: nat, e: nat)
    requires n <= |s| && AllDigits(s, n)
    ensures 0 <= Val(s, n, e)
    ensures Val(s, n, e) + W(e) <= W(n + e)
  {
    if n == 0 {
    } else {
      ValBound(s, n - 1, e);
      MulMono(s[n - 1], BASE - 1, W(n - 1 + e));
      MulPos(s[n - 1], W(n - 1 + e));
    }
  }

  /** The top digit places a number between two multiples of its weight. */
  lemma ValTop(s: seq<int>, n: nat, e: nat)
    requires 0 < n <= |s| && AllDigits(s, n)
    ensures s[n - 1] * W(n - 1 + e) <= Val(s, n, e) < (s[n - 1] + 1) * W(n - 1 + e)
    ensures s[n - 1] != 0 ==> W(n - 1 + e) <= Val(s, n, e)
    ensures Val(s, n, e) < W(n + e)
  {
    ValBound(s, n, e);
    ValBound(s, n - 1, e);
    var d, w := s[n - 1], W(n - 1 + e);
    assert (d + 1) * w == d * w + w;
    if d != 0 {
      MulMono(1, d, w);
    }
  }

  /** A number at or above the weight of its top position has a non-zero top digit. */
  lemma TopNonZero(s: seq<int>, n: nat, e: nat)
    requires 0 < n <= |s| && AllDigits(s, n) && W(n - 1 + e) <= Val(s, n, e)
    ensures s[n - 1] != 0
  {
    ValBound(s, n - 1, e);
  }

  /** Splitting at position k. */
  lemma {:induction false} ValSplit(s: seq<int>, k: nat, n: nat, e: nat)
    requires k <= n <= |s|
    ensures Val(s, n, e) == Val(s, k, e) + Val(s[k..], n - k, e + k)
    decreases n
  {
    if n == k {
    } else {
      ValSplit(s, k, n - 1, e);
      assert s[k..][n - 1 - k] == s[n - 1];
    }
  }

  /** Storing z of the hidden zero digits explicitly keeps the value. */
  lemma {:induction false} ValShift(s: seq<int>, t: seq<int>, z: nat, n: nat, e: nat)
    requires n <= |s| && n + z <= |t|
    requires forall i :: 0 <= i < z ==> t[i] == 0
    requires forall i :: 0 <= i < n ==> t[z + i] == s[i]
    ensures Val(t, n + z, e) == Val(s, n, e + z)
  {
    ValHighZeros(t, 0, z, e);
    ValSplit(t, z, n + z, e);
    ValFrame(t[z..], s, n, e + z);
  }

  /** The lowest digit is the remainder by the base. */
  lemma {:induction false} NumLow(s: seq<int>, n: nat)
    requires 0 < n <= |s| && AllDigits(s, n)
    ensures Num(s, n) % BASE == s[0]
  {
    if n == 1 {
      assert Num(s, 1) == Num(s, 0) + s[0] * W(0);
    } else {
      NumLow(s, n - 1);
      var x, d, w := Num(s, n - 1), s[n - 1], W(n - 2);
      assert W(n - 1) == BASE * w;
      MulAssoc(BASE, d, w);
      MulAssoc(d, BASE, w);
      assert Num(s, n) == x + BASE * (d * w);
      AddMultiple(x, d * w);
    }
  }

  lemma AddMultiple(x: int, m: int)
    ensures (x + BASE * m) % BASE == x % BASE
  {
  }

  /** Dividing by a weight drops the digits below it. */
  lemma NumDivW(s: seq<int>, n: nat, k: nat)
    requires k <= n <= |s| && AllDigits(s, n)
    ensures Num(s, n) / W(k) == Num(s[k..], n - k)
  {
    ValSplit(s, k, n, 0);
    ValScale(s[k..], n - k, k);
    ValBound(s, k, 0);
    DivUnique(Num(s, n), W(k), Num(s[k..], n - k), Num(s, k));
  }

  /** Each digit can be read off the value by a division and a remainder. */
  lemma NumDigitAt(s: seq<int>, n: nat, k: nat)
    requires k < n <= |s| && AllDigits(s, n)
    ensures (Num(s, n) / W(k)) % BASE == s[k]
  {
    NumDivW(s, n, k);
    NumLow(s[k..], n - k);
  }

  /** Splitting a word into its low digit and the carry above it. */
  lemma SplitWord(x: nat)
    ensures IsDigit(x % BASE)
    ensures x % BASE + BASE * (x / BASE) == x
    ensures x < 2 * BASE ==> x / BASE <= 1
    ensures x < BASE ==> x / BASE == 0 && x % BASE == x
  {
  }

  /** One step of a carry chain: writing the low digit and keeping the quotient as
      carry loses nothing. */
  lemma CarryStep(x: int, w: int)
    ensures (x % BASE) * w + (x / BASE) * (BASE * w) == x * w
  {
    DigitStep(x % BASE, x / BASE, x, w);
  }

  /** A digit and a carry that together make x, at weight w. */
  lemma DigitStep(d: int, c: int, x: int, w: int)
    requires d + BASE * c == x
    ensures d * w + c * (BASE * w) == x * w
  {
    MulAssoc(c, BASE, w);
    MulAssoc(BASE, c, w);
    assert (d + BASE * c) * w == d * w + (BASE * c) * w;
  }
}
