// The texts of JSON values, after RFC 8259, as trees with all their choices: white space,
// the forms of a number, the ways to write a character. The parser reads a text as a value
// exactly when it is the text of a tree for that value.

module JsonGrammar {
  import opened Arith
  import opened JsonSpec
  import opened JsonRoundTrip
  import opened JsonUnicode

  // White space: section 2 of RFC 8259.

  predicate Blank(s: string) {
    forall i :: 0 <= i < |s| ==>
      s[i] as int == 0x20 || s[i] as int == 0x09 || s[i] as int == 0x0A || s[i] as int == 0x0D
  }

  predicate StartsBlank(s: string) {
    s != [] && Blank(s[..1])
  }

  lemma SpaceMeans(c: char)
    ensures IsSpace(c) <==> c as int == 0x20 || c as int == 0x09 || c as int == 0x0A || c as int == 0x0D
  {
  }

  /** Exactly a run of these four characters is skipped. */
  lemma {:induction false} BlankSkipped(t: string, p: nat, q: nat)
    requires p <= q < |t| && Ended(t)
    ensures Blank(t[p..q]) && !Blank([t[q]]) <==> SkipSpace(t, p) == q
    decreases q - p
  {
    SpaceMeans(t[p]);
    SpaceMeans(t[q]);
    assert [t[q]][0] == t[q];
    if p < q {
      assert t[p..q] == [t[p]] + t[p + 1..q];
      BlankSkipped(t, p + 1, q);
    } else if IsSpace(t[p]) {
      assert SkipSpace(t, p) == SkipSpace(t, p + 1);
    }
  }

  // Numbers: section 6.

  /** A number in its parts: the fraction with its point and the exponent with its letter may
      be missing. */
  datatype Num = Num(minus: bool, whole: string, fraction: string, expo: string)

  predicate AreDigits(s: string) {
    forall i :: 0 <= i < |s| ==> '0' <= s[i] <= '9'
  }

  predicate IsWhole(s: string) {
    s == "0" || (s != [] && '1' <= s[0] <= '9' && AreDigits(s[1..]))
  }

  predicate IsFraction(s: string) {
    |s| >= 2 && s[0] == '.' && AreDigits(s[1..])
  }

  predicate IsExpo(s: string) {
    && |s| >= 2 && (s[0] == 'e' || s[0] == 'E')
    && (AreDigits(s[1..]) || (|s| >= 3 && (s[1] == '+' || s[1] == '-') && AreDigits(s[2..])))
  }

  predicate IsNum(n: Num) {
    IsWhole(n.whole) && (n.fraction == [] || IsFraction(n.fraction)) && (n.expo == [] || IsExpo(n.expo))
  }

  function NumText(n: Num): string {
    (if n.minus then "-" else []) + (n.whole + (n.fraction + n.expo))
  }

  /** The number does not go on with this character. */
  predicate NumEnds(n: Num, c: char) {
    if n.expo != [] then !('0' <= c <= '9')
    else if n.fraction != [] then !('0' <= c <= '9') && c != 'e' && c != 'E'
    else (n.whole == "0" || !('0' <= c <= '9')) && c != '.' && c != 'e' && c != 'E'
  }

  function Magnitude(n: Num): int {
    if n.minus then -NatOf(n.whole) else NatOf(n.whole)
  }

  predicate IsInteger(n: Num) {
    n.fraction == [] && n.expo == []
  }

  /** The power of ten the exponent says. */
  function PowerOf(n: Num): int
    requires n.expo == [] || IsExpo(n.expo)
  {
    if n.expo == [] then 0
    else if n.expo[1] == '-' then -NatOf(n.expo[2..])
    else if n.expo[1] == '+' then NatOf(n.expo[2..])
    else NatOf(n.expo[1..])
  }

  /** Integers fit 64 bits, other numbers are below the end of the doubles. */
  predicate InRange(n: Num)
    requires IsNum(n)
  {
    if IsInteger(n) then -0x8000_0000_0000_0000 <= Magnitude(n) < 0x8000_0000_0000_0000
    else if n.fraction == [] then !TooBig(NatOf(n.whole), PowerOf(n))
    else !TooBig(NatOf(n.whole + n.fraction[1..]), PowerOf(n) - (|n.fraction| - 1))
  }

  function NumValue(n: Num): Json {
    if IsInteger(n) then Int(Wrap32(Magnitude(n))) else Number(NumText(n))
  }

  /** An integer keeps its 32 lowest bits; another number is kept as its text. */
  ghost predicate NumMeans(n: Num, v: Json) {
    if IsInteger(n) then v.Int? && -0x8000_0000 <= v.i < 0x8000_0000 && (v.i - Magnitude(n)) % 0x1_0000_0000 == 0
    else v == Number(NumText(n))
  }

  lemma {:induction false} DigitsEndMeans(t: string, p: nat, q: nat)
    requires p <= q < |t| && Ended(t)
    ensures AreDigits(t[p..q]) && !('0' <= t[q] <= '9') <==> DigitsEnd(t, p) == q
    decreases q - p
  {
    if p < q {
      assert t[p..q] == [t[p]] + t[p + 1..q];
      DigitsEndMeans(t, p + 1, q);
    }
  }

  lemma WrapMeans(x: int)
    ensures var i := Wrap32(x); -0x8000_0000 <= i < 0x8000_0000 && (i - x) % 0x1_0000_0000 == 0
  {
    DivMod(x, TWO32);
    var q, r := x / TWO32, x % TWO32;
    if r >= 0x8000_0000 {
      DivUnique(r - TWO32 - x, TWO32, -q - 1, 0);
    } else {
      DivUnique(r - x, TWO32, -q, 0);
    }
  }

  lemma NumValueMeans(n: Num)
    ensures NumMeans(n, NumValue(n))
  {
    hide Wrap32;
    WrapMeans(Magnitude(n));
  }

  lemma WholeEnd(t: string, p: nat, a: nat)
    requires p < |t| && Ended(t) && a < |t|
    ensures var q := if t[p] == '-' then p + 1 else p;
            IntegralEnd(t, p) == Ok(true, a)
            <==> q < a && IsWhole(t[q..a]) && (t[q..a] == "0" || !('0' <= t[a] <= '9'))
  {
    hide DigitsEnd;
    var q := if t[p] == '-' then p + 1 else p;
    if q < a {
      assert t[q..a][0] == t[q] && t[q..a][1..] == t[q + 1..a];
      DigitsEndMeans(t, q + 1, a);
    }
  }

  lemma FractionPart(t: string, p: nat, b: nat)
    requires p < |t| && Ended(t) && b < |t|
    ensures FractionEnd(t, p) == Ok(true, b) <==> b == p && t[p] != '.'
    ensures FractionEnd(t, p) == Ok(false, b) <==> p < b && IsFraction(t[p..b]) && !('0' <= t[b] <= '9')
  {
    hide DigitsEnd;
    if p + 1 < b {
      assert t[p..b][0] == t[p] && t[p..b][1..] == [t[p + 1]] + t[p + 2..b];
      DigitsEndMeans(t, p + 2, b);
    }
  }

  lemma ExponentPart(t: string, p: nat, c: nat)
    requires p < |t| && Ended(t) && c < |t|
    ensures ExponentEnd(t, p) == Ok(true, c) <==> c == p && t[p] != 'e' && t[p] != 'E'
    ensures ExponentEnd(t, p) == Ok(false, c) <==> p < c && IsExpo(t[p..c]) && !('0' <= t[c] <= '9')
  {
    hide DigitsEnd;
    if p + 1 < c {
      var s := t[p..c];
      assert s[0] == t[p] && s[1] == t[p + 1] && s[1..] == [t[p + 1]] + t[p + 2..c];
      DigitsEndMeans(t, p + 2, c);
      if p + 2 < c {
        assert s[2] == t[p + 2] && s[2..] == [t[p + 2]] + t[p + 3..c];
        DigitsEndMeans(t, p + 3, c);
      }
    }
  }

  /** The number n stands in the text, with its parts up to a, b and c. */
  ghost predicate NumAt(t: string, p: nat, n: Num, a: nat, b: nat, c: nat) {
    var q := if n.minus then p + 1 else p;
    && q <= a <= b <= c < |t| && (n.minus <==> t[p] == '-')
    && t[q..a] == n.whole && t[a..b] == n.fraction && t[b..c] == n.expo && IsNum(n) && NumEnds(n, t[c])
  }

  lemma NumParts(t: string, p: nat, n: Num, a: nat, b: nat, c: nat)
    requires p < |t| && Ended(t) && NumAt(t, p, n, a, b, c)
    ensures IntegralEnd(t, p) == Ok(true, a) && FractionEnd(t, a) == Ok(n.fraction == [], b)
    ensures ExponentEnd(t, b) == Ok(n.expo == [], c)
  {
    hide IntegralEnd, FractionEnd, ExponentEnd;
    WholeEnd(t, p, a);
    FractionPart(t, a, b);
    ExponentPart(t, b, c);
    if n.fraction != [] {
      assert t[a..b][0] == t[a];
    }
    if n.expo != [] {
      assert t[b..c][0] == t[b];
    }
  }

  lemma Slices(t: string, i: nat, j: nat, k: nat)
    requires i <= j <= k <= |t|
    ensures t[i..k] == t[i..j] + t[j..k]
  {
  }

  lemma NumTextAt(t: string, p: nat, n: Num, a: nat, b: nat, c: nat)
    requires p < |t| && NumAt(t, p, n, a, b, c)
    ensures t[p..c] == NumText(n) && a > p
  {
    hide IsFraction, IsExpo, NumEnds;
    var q := if n.minus then p + 1 else p;
    Slices(t, a, b, c);
    Slices(t, q, a, c);
    Slices(t, p, q, c);
    assert t[p..q] == if n.minus then "-" else [];
  }

  lemma NumAtText(t: string, p: nat, n: Num) returns (a: nat, b: nat)
    requires At(t, p, NumText(n)) && p + |NumText(n)| < |t| && IsNum(n) && NumEnds(n, t[p + |NumText(n)|])
    ensures NumAt(t, p, n, a, b, p + |NumText(n)|)
  {
    hide IsFraction, IsExpo, NumEnds, At;
    var sign := if n.minus then "-" else [];
    var q := p + |sign|;
    a := q + |n.whole|;
    b := a + |n.fraction|;
    AtSplit(t, p, sign, n.whole + (n.fraction + n.expo));
    AtSplit(t, q, n.whole, n.fraction + n.expo);
    AtSplit(t, a, n.fraction, n.expo);
    AtMeans(t, q, n.whole);
    AtMeans(t, a, n.fraction);
    AtMeans(t, b, n.expo);
    if n.minus {
      AtChar(t, p, sign, 0);
    } else {
      AtChar(t, q, n.whole, 0);
    }
  }

  lemma AtMeans(t: string, p: nat, s: string)
    ensures At(t, p, s) <==> p + |s| <= |t| && t[p..p + |s|] == s
  {
  }

  /** What a number in a text yields. */
  lemma NumYields(t: string, p: nat, n: Num, a: nat, b: nat, c: nat)
    requires p < |t| && Ended(t) && NumAt(t, p, n, a, b, c)
    ensures InRange(n) ==> ParseNumber(t, p) == Ok(NumValue(n), c)
    ensures !InRange(n) ==> ParseNumber(t, p) == Err(NUMBER_TOO_BIG, p)
  {
    hide IntegralEnd, FractionEnd, ExponentEnd, NatOf, TooBig, IsFraction, IsExpo, Wrap32;
    NumParts(t, p, n, a, b, c);
    NumTextAt(t, p, n, a, b, c);
    var q := if n.minus then p + 1 else p;
    var text := t[p..c];
    if IsInteger(n) {
      assert text == (if n.minus then "-" else []) + n.whole;
      WholeInt(n);
    } else {
      DoubleParts(t, p, n, a, b, c);
    }
  }

  lemma WholeInt(n: Num)
    requires IsWhole(n.whole)
    ensures IntOf((if n.minus then "-" else []) + n.whole) == Magnitude(n)
  {
    hide NatOf;
    if n.minus {
      assert ("-" + n.whole)[1..] == n.whole;
    } else {
      assert [] + n.whole == n.whole;
    }
  }

  lemma DoubleParts(t: string, p: nat, n: Num, a: nat, b: nat, c: nat)
    requires p < |t| && Ended(t) && NumAt(t, p, n, a, b, c) && !IsInteger(n) && p < a
    ensures Infinite(t, p, a, b, c) <==> !InRange(n)
  {
    hide NatOf, TooBig;
    if a < b {
      assert t[a + 1..b] == t[a..b][1..];
    } else {
      assert n.whole + [] == n.whole;
    }
    if b < c {
      var e := t[b + 1..c];
      assert e == n.expo[1..] && e[0] == n.expo[1] && e[1..] == n.expo[2..];
    }
  }

  /** Whatever is read as a number is one. */
  lemma NumRecovered(t: string, p: nat) returns (n: Num, a: nat, b: nat)
    requires p < |t| && Ended(t) && ParseNumber(t, p).Ok?
    ensures NumAt(t, p, n, a, b, ParseNumber(t, p).next) && InRange(n) && ParseNumber(t, p).value == NumValue(n)
  {
    hide IntegralEnd, FractionEnd, ExponentEnd, NatOf, TooBig, IsWhole, IsFraction, IsExpo;
    var c := ParseNumber(t, p).next;
    a := IntegralEnd(t, p).next;
    b := FractionEnd(t, a).next;
    IntegralFlag(t, p);
    WholeEnd(t, p, a);
    FractionPart(t, a, b);
    ExponentPart(t, b, c);
    var q := if t[p] == '-' then p + 1 else p;
    n := Num(t[p] == '-', t[q..a], t[a..b], t[b..c]);
    assert IntegralEnd(t, p) == Ok(true, a);
    assert FractionEnd(t, a) == if FractionEnd(t, a).value then Ok(true, b) else Ok(false, b);
    assert ExponentEnd(t, b) == if ExponentEnd(t, b).value then Ok(true, c) else Ok(false, c);
    assert IsNum(n);
    assert NumEnds(n, t[c]);
    NumYields(t, p, n, a, b, c);
  }

  lemma IntegralFlag(t: string, p: nat)
    requires p < |t| && Ended(t)
    ensures IntegralEnd(t, p).Ok? ==> IntegralEnd(t, p).value
  {
  }

  // Strings: section 7. The source takes any letter for a hexadecimal digit.

  predicate IsAlnum(c: char) {
    '0' <= c <= '9' || 'A' <= c <= 'Z' || 'a' <= c <= 'z'
  }

  /** The values of the digits. */
  lemma HexTable()
    ensures HexValue('0') == 0 && HexValue('1') == 1 && HexValue('2') == 2 && HexValue('3') == 3 && HexValue('4') == 4
    ensures HexValue('5') == 5 && HexValue('6') == 6 && HexValue('7') == 7 && HexValue('8') == 8 && HexValue('9') == 9
    ensures HexValue('a') == 10 && HexValue('b') == 11 && HexValue('c') == 12
    ensures HexValue('d') == 13 && HexValue('e') == 14 && HexValue('f') == 15
    ensures HexValue('A') == 10 && HexValue('B') == 11 && HexValue('C') == 12
    ensures HexValue('D') == 13 && HexValue('E') == 14 && HexValue('F') == 15
    ensures forall c :: HexValue(c) >= 0 <==> IsAlnum(c)
    ensures forall c :: HexValue(c) < 16 <==> !('G' <= c <= 'Z' || 'g' <= c <= 'z')
  {
  }

  lemma HexRange(c: char)
    ensures -1 <= HexValue(c) < 36 && (HexValue(c) >= 0 <==> IsAlnum(c)) && HexValue('\0') < 0
  {
  }

  predicate IsUnit(s: string) {
    |s| == 4 && IsAlnum(s[0]) && IsAlnum(s[1]) && IsAlnum(s[2]) && IsAlnum(s[3])
  }

  /** The number of four digits: one that is none puts its bits over those before it. */
  function UnitOf(s: string): nat
    requires IsUnit(s)
  {
    OrDigit(16 * OrDigit(16 * OrDigit(16 * OrDigit(0, HexValue(s[0])), HexValue(s[1])), HexValue(s[2])), HexValue(s[3]))
  }

  lemma HexNext(t: string, p: nat, k: nat, u: nat)
    requires p + 1 < |t| && Ended(t) && t[p] != '\0'
    ensures IsAlnum(t[p + 1]) ==>
              t[p + 1] != '\0' && Hex(t, p, k + 1, u) == Hex(t, p + 1, k, OrDigit(16 * u, HexValue(t[p + 1])))
    ensures !IsAlnum(t[p + 1]) ==> Hex(t, p, k + 1, u).Err?
  {
    hide OrDigit;
    HexRange(t[p + 1]);
  }

  /** Four hexadecimal digits, as far as they are there. */
  lemma HexUnit(t: string, p: nat)
    requires p < |t| && Ended(t) && t[p] != '\0'
    ensures Hex(t, p, 4, 0).Ok? <==> p + 4 < |t| && IsUnit(t[p + 1..p + 5])
    ensures Hex(t, p, 4, 0).Ok? ==> Hex(t, p, 4, 0) == Ok(UnitOf(t[p + 1..p + 5]), p + 4) && t[p + 4] != '\0'
  {
    hide Hex, OrDigit, HexValue;
    HexRange('\0');
    HexNext(t, p, 3, 0);
    if IsAlnum(t[p + 1]) {
      HexRange(t[p + 1]);
      var a := OrDigit(0, HexValue(t[p + 1]));
      HexNext(t, p + 1, 2, a);
      if IsAlnum(t[p + 2]) {
        HexRange(t[p + 2]);
        var b := OrDigit(16 * a, HexValue(t[p + 2]));
        HexNext(t, p + 2, 1, b);
        if IsAlnum(t[p + 3]) {
          HexRange(t[p + 3]);
          var c := OrDigit(16 * b, HexValue(t[p + 3]));
          HexNext(t, p + 3, 0, c);
          if IsAlnum(t[p + 4]) {
            HexRange(t[p + 4]);
            HexDone(t, p + 4, OrDigit(16 * c, HexValue(t[p + 4])));
          }
        }
      }
    }
  }

  /** An escape of a code point: a unit, or two that are a high and a low surrogate. */
  predicate IsPoint(e: string, u: nat) {
    && |e| >= 6 && e[..2] == "\\u" && IsUnit(e[2..6])
    && var h := UnitOf(e[2..6]);
       if 0xD800 <= h <= 0xDBFF then
         && |e| == 12 && e[6..8] == "\\u" && IsUnit(e[8..12]) && 0xDC00 <= UnitOf(e[8..12]) <= 0xDFFF
         && u == (h - 0xD800) * 1024 + (UnitOf(e[8..12]) - 0xDC00) + 0x10000
       else |e| == 6 && u == h
  }

  lemma PointRead(t: string, p: nat, e: string, u: nat)
    requires p < |t| && Ended(t) && t[p] != '\0' && IsPoint(e, u) && At(t, p, e[1..])
    ensures Unicode(t, p) == Ok(u, p + |e| - 2)
  {
    hide Hex, UnitOf, IsUnit;
    var rest := e[6..];
    assert e[1..] == "u" + (e[2..6] + rest);
    AtSplit(t, p, "u", e[2..6] + rest);
    AtSplit(t, p + 1, e[2..6], rest);
    HexUnit(t, p);
    if |e| == 12 {
      assert rest == e[6..8] + e[8..12];
      AtSplit(t, p + 5, e[6..8], e[8..12]);
      AtChar(t, p + 5, e[6..8], 0);
      AtChar(t, p + 5, e[6..8], 1);
      HexUnit(t, p + 6);
    }
  }

  lemma PointFound(t: string, p: nat) returns (e: string)
    requires p < |t| && Ended(t) && t[p] == 'u' && Unicode(t, p).Ok?
    ensures IsPoint(e, Unicode(t, p).value) && At(t, p, e[1..]) && Unicode(t, p).next == p + |e| - 2
  {
    hide Hex, UnitOf, IsUnit;
    HexUnit(t, p);
    var q := Unicode(t, p).next;
    e := "\\" + t[p..q + 1];
    assert e[2..6] == t[p + 1..p + 5];
    assert e[..2] == "\\u";
    if q == p + 4 {
    } else {
      HexUnit(t, p + 6);
      assert e[6..8] == t[p + 5..p + 7] && e[8..12] == t[p + 7..p + 11];
    }
    assert e[1..] == t[p..q + 1];
  }

  /** With digits that are hexadecimal this is the escape of that code point. */
  lemma ProperPoint(e: string, u: nat)
    requires forall i :: 2 <= i < |e| && i != 6 && i != 7 ==> HexValue(e[i]) < 16
    ensures IsPoint(e, u) <==> IsEscape(e, u)
  {
    hide HexValue, UnitOf, IsUnit;
    if |e| >= 6 {
      UnitMeans(e[2..6]);
    }
    if |e| == 12 {
      UnitMeans(e[8..12]);
      assert e[8..] == e[8..12];
    }
    if |e| == 6 {
      assert e[2..] == e[2..6];
    }
  }

  /** A case where they are not: G and Z are no hexadecimal digits, and are read as 16 and 35. */
  lemma OddEscape(e: string, u: nat)
    requires e == "\\u00GZ"
    ensures IsPoint(e, 0x123) && !IsEscape(e, u)
  {
    assert e[..2] == "\\u" && e[2..6] == ['0', '0', 'G', 'Z'];
    assert e[2..] == e[2..6];
  }

  lemma UnitMeans(s: string)
    requires |s| == 4 && forall i :: 0 <= i < 4 ==> HexValue(s[i]) < 16
    ensures IsUnit(s) <==> forall i :: 0 <= i < 4 ==> HexValue(s[i]) >= 0
    ensures IsUnit(s) ==> IsHex(s, UnitOf(s)) && UnitOf(s) < 0x10000
  {
    hide HexValue;
    HexRange(s[0]);
    HexRange(s[1]);
    HexRange(s[2]);
    HexRange(s[3]);
  }

  /** One way to write a character of a string: as it is, with a letter behind a backslash,
      or as a code point. */
  datatype Piece = Plain(c: char) | Short(letter: char) | Point(e: string, u: nat)

  predicate IsPiece(x: Piece) {
    match x
    case Plain(c) => c as int >= 0x20 && c as int != 0x22 && c as int != 0x5C
    case Short(letter) => letter in "\"\\/bfnrt"
    case Point(e, u) => IsPoint(e, u)
  }

  function PieceText(x: Piece): string {
    match x
    case Plain(c) => [c]
    case Short(letter) => ['\\', letter]
    case Point(e, u) => e
  }

  /** The character a letter stands for. */
  function ShortOf(letter: char): char {
    if letter == 'b' then 0x08 as char
    else if letter == 't' then 0x09 as char
    else if letter == 'n' then 0x0A as char
    else if letter == 'f' then 0x0C as char
    else if letter == 'r' then 0x0D as char
    else letter
  }

  lemma ShortTable(c: char)
    ensures Unescaped(c).Ok? <==> c in "\"\\/bfnrt"
    ensures Unescaped(c).Ok? ==> Unescaped(c).value == ShortOf(c)
  {
  }

  /** The bytes it adds to the string. */
  function PieceBytes(x: Piece): string {
    match x
    case Plain(c) => [c]
    case Short(letter) => [ShortOf(letter)]
    case Point(e, u) => EncodeUtf8(u)
  }

  predicate ArePieces(s: seq<Piece>) {
    forall i :: 0 <= i < |s| ==> IsPiece(s[i])
  }

  function PiecesText(s: seq<Piece>): string {
    if s == [] then [] else PieceText(s[0]) + PiecesText(s[1..])
  }

  function PiecesBytes(s: seq<Piece>): string {
    if s == [] then [] else PieceBytes(s[0]) + PiecesBytes(s[1..])
  }

  lemma PlainRead(t: string, p: nat, c: char, read: string)
    requires p + 1 < |t| && Ended(t) && t[p] != '\0' && t[p + 1] == c && IsPiece(Plain(c))
    ensures Scan(t, p, read) == Scan(t, p + 1, read + [c])
  {
    hide Unicode, EncodeUtf8, Unescaped;
  }

  lemma ShortRead(t: string, p: nat, letter: char, read: string)
    requires p + 2 < |t| && Ended(t) && t[p] != '\0' && t[p + 1] == '\\' && t[p + 2] == letter
    requires IsPiece(Short(letter))
    ensures letter != '\0' && Scan(t, p, read) == Scan(t, p + 2, read + [ShortOf(letter)])
  {
    hide Unicode, EncodeUtf8, Unescaped, ShortOf;
    ShortTable(letter);
  }

  lemma PieceRead(t: string, p: nat, x: Piece, read: string)
    requires p < |t| && Ended(t) && t[p] != '\0' && At(t, p + 1, PieceText(x)) && IsPiece(x)
    ensures PieceText(x) != [] && p + |PieceText(x)| < |t| && t[p + |PieceText(x)|] != '\0'
    ensures Scan(t, p, read) == Scan(t, p + |PieceText(x)|, read + PieceBytes(x))
  {
    hide Scan, Unicode, EncodeUtf8, IsPoint, ShortOf;
    match x {
      case Plain(c) =>
        AtChar(t, p + 1, [c], 0);
        PlainRead(t, p, c, read);
      case Short(letter) =>
        AtChar(t, p + 1, ['\\', letter], 0);
        AtChar(t, p + 1, ['\\', letter], 1);
        ShortRead(t, p, letter, read);
      case Point(e, u) =>
        PointStep(t, p, e, u, read);
    }
  }

  lemma PointStep(t: string, p: nat, e: string, u: nat, read: string)
    requires p < |t| && Ended(t) && t[p] != '\0' && At(t, p + 1, e) && IsPoint(e, u)
    ensures |e| >= 6 && p + |e| < |t| && t[p + |e|] != '\0'
    ensures Scan(t, p, read) == Scan(t, p + |e|, read + EncodeUtf8(u))
  {
    hide Unicode, EncodeUtf8, UnitOf, IsUnit;
    assert e[..2][0] == e[0] && e[..2][1] == e[1];
    assert e == "\\" + e[1..];
    AtSplit(t, p + 1, "\\", e[1..]);
    AtChar(t, p + 1, e, 0);
    AtChar(t, p + 1, e, 1);
    PointRead(t, p + 2, e, u);
  }

  lemma PiecesCons(x: Piece, rest: seq<Piece>, read: string)
    ensures PiecesText([x] + rest) + "\"" == PieceText(x) + (PiecesText(rest) + "\"")
    ensures |PiecesText([x] + rest)| == |PieceText(x)| + |PiecesText(rest)|
    ensures read + PiecesBytes([x] + rest) == (read + PieceBytes(x)) + PiecesBytes(rest)
    ensures ArePieces([x] + rest) <==> IsPiece(x) && ArePieces(rest)
  {
    hide PieceText, PieceBytes, IsPiece;
    var s := [x] + rest;
    assert s[0] == x && s[1..] == rest;
    assert forall i :: 0 <= i < |rest| ==> s[i + 1] == rest[i];
  }

  lemma NoPieces(read: string)
    ensures PiecesText([]) + "\"" == "\"" && PiecesText([]) == [] && read + PiecesBytes([]) == read && ArePieces([])
  {
  }

  lemma {:induction false} PiecesRead(t: string, p: nat, s: seq<Piece>, read: string)
    requires p < |t| && Ended(t) && t[p] != '\0' && ArePieces(s) && At(t, p + 1, PiecesText(s) + "\"")
    ensures Scan(t, p, read) == Ok(read + PiecesBytes(s), p + |PiecesText(s)| + 2)
    decreases |s|
  {
    hide Scan, PieceText, PieceBytes, PiecesText, PiecesBytes, IsPiece, ArePieces, At;
    NoPieces(read);
    if s == [] {
      AtChar(t, p + 1, "\"", 0);
      ScanEnd(t, p, read);
    } else {
      var x, rest := s[0], s[1..];
      assert s == [x] + rest;
      PiecesCons(x, rest, read);
      AtSplit(t, p + 1, PieceText(x), PiecesText(rest) + "\"");
      PieceRead(t, p, x, read);
      PiecesRead(t, p + |PieceText(x)|, rest, read + PieceBytes(x));
    }
  }

  lemma PointPiece(t: string, p: nat) returns (x: Piece)
    requires p + 2 < |t| && Ended(t) && t[p + 1] == '\\' && t[p + 2] == 'u' && Unicode(t, p + 2).Ok?
    ensures IsPiece(x) && At(t, p + 1, PieceText(x))
  {
    hide UnitOf, IsUnit, Unicode, IsPoint;
    var e := PointFound(t, p + 2);
    x := Point(e, Unicode(t, p + 2).value);
    PointLength(e, x.u);
    AtOne(t, p + 1, '\\');
    AtJoin(t, p + 1, "\\", e[1..]);
    assert "\\" + e[1..] == e;
  }

  /** The first piece of a string that is read, unless it ends here. */
  lemma PieceFound(t: string, p: nat, read: string) returns (x: Piece)
    requires p < |t| && Ended(t) && t[p] != '\0' && Scan(t, p, read).Ok? && t[p + 1] != '\"'
    ensures IsPiece(x) && At(t, p + 1, PieceText(x))
  {
    hide EncodeUtf8, Unicode, Unescaped, IsPoint;
    var c := t[p + 1];
    if c != '\\' {
      x := Plain(c);
    } else if t[p + 2] != 'u' {
      ShortTable(t[p + 2]);
      x := Short(t[p + 2]);
      AtTwo(t, p + 1);
    } else {
      x := PointPiece(t, p);
    }
  }

  lemma AtTwo(t: string, p: nat)
    requires p + 1 < |t|
    ensures At(t, p, [t[p], t[p + 1]])
  {
  }

  lemma PointLength(e: string, u: nat)
    requires IsPoint(e, u)
    ensures |e| >= 6 && e[0] == '\\'
  {
    assert e[..2][0] == e[0];
  }

  lemma {:induction false} PiecesFound(t: string, p: nat, read: string) returns (s: seq<Piece>)
    requires p < |t| && Ended(t) && t[p] != '\0' && Scan(t, p, read).Ok?
    ensures ArePieces(s) && At(t, p + 1, PiecesText(s) + "\"")
    ensures Scan(t, p, read) == Ok(read + PiecesBytes(s), p + |PiecesText(s)| + 2)
    decreases |t| - p
  {
    hide Scan, PieceText, PieceBytes, PiecesText, PiecesBytes, IsPiece, ArePieces, At;
    NoPieces(read);
    if t[p + 1] == '\"' {
      s := [];
      ScanEnd(t, p, read);
      AtOne(t, p + 1, '\"');
    } else {
      var x := PieceFound(t, p, read);
      PieceRead(t, p, x, read);
      var rest := PiecesFound(t, p + |PieceText(x)|, read + PieceBytes(x));
      s := [x] + rest;
      PiecesCons(x, rest, read);
      AtJoin(t, p + 1, PieceText(x), PiecesText(rest) + "\"");
    }
  }

  lemma AtJoin(t: string, p: nat, a: string, b: string)
    requires At(t, p, a) && At(t, p + |a|, b)
    ensures At(t, p, a + b)
  {
    assert t[p..p + |a + b|] == t[p..p + |a|] + t[p + |a|..p + |a| + |b|];
  }

  // Values: sections 3 to 5.

  datatype Item = Item(before: string, tree: Tree, after: string)

  datatype Entry = Entry(before: string, key: seq<Piece>, mid: string, between: string, tree: Tree, after: string)

  /** A value as it is written. An array or an object without members may hold white space. */
  datatype Tree =
    | NullTree
    | BoolTree(b: bool)
    | NumTree(n: Num)
    | StrTree(pieces: seq<Piece>)
    | ArrTree(blank: string, items: seq<Item>)
    | ObjTree(blank: string, entries: seq<Entry>)

  predicate IsTree(x: Tree) {
    match x
    case NullTree => true
    case BoolTree(b) => true
    case NumTree(n) => IsNum(n) && InRange(n)
    case StrTree(pieces) => ArePieces(pieces)
    case ArrTree(blank, items) =>
      Blank(blank) && forall i :: 0 <= i < |items| ==>
        Blank(items[i].before) && Blank(items[i].after) && IsTree(items[i].tree)
    case ObjTree(blank, entries) =>
      Blank(blank) && forall i :: 0 <= i < |entries| ==>
        && Blank(entries[i].before) && ArePieces(entries[i].key) && Blank(entries[i].mid) && Blank(entries[i].between)
        && IsTree(entries[i].tree) && Blank(entries[i].after)
  }

  function TreeText(x: Tree): string {
    match x
    case NullTree => "null"
    case BoolTree(b) => if b then "true" else "false"
    case NumTree(n) => NumText(n)
    case StrTree(pieces) => "\"" + (PiecesText(pieces) + "\"")
    case ArrTree(blank, items) => "[" + ((if items == [] then blank else ItemsText(items)) + "]")
    case ObjTree(blank, entries) => "{" + ((if entries == [] then blank else EntriesText(entries)) + "}")
  }

  function ItemText(x: Item): string {
    x.before + (TreeText(x.tree) + x.after)
  }

  function ItemsText(items: seq<Item>): string {
    if items == [] then [] else ItemText(items[0]) + (if |items| == 1 then [] else "," + ItemsText(items[1..]))
  }

  function EntryText(x: Entry): string {
    x.before + ("\"" + (PiecesText(x.key) + ("\"" + (x.mid + (":" + (x.between + (TreeText(x.tree) + x.after)))))))
  }

  function EntriesText(entries: seq<Entry>): string {
    if entries == [] then []
    else EntryText(entries[0]) + (if |entries| == 1 then [] else "," + EntriesText(entries[1..]))
  }

  /** What the text says; of two members with the same key the first one counts. */
  function TreeValue(x: Tree): Json {
    match x
    case NullTree => Null
    case BoolTree(b) => Bool(b)
    case NumTree(n) => NumValue(n)
    case StrTree(pieces) => Str(PiecesBytes(pieces))
    case ArrTree(blank, items) => Arr(ItemsValues(items))
    case ObjTree(blank, entries) => Obj(EntriesValues(entries, []))
  }

  function ItemsValues(items: seq<Item>): seq<Json> {
    if items == [] then [] else [TreeValue(items[0].tree)] + ItemsValues(items[1..])
  }

  function EntriesValues(entries: seq<Entry>, read: seq<Member>): seq<Member> {
    if entries == [] then read
    else EntriesValues(entries[1..], Insert(read, PiecesBytes(entries[0].key), TreeValue(entries[0].tree)))
  }

  // Every tree is read as its value.

  /** A value starts with a character that is none of those between values. */
  lemma TreeStart(x: Tree)
    requires IsTree(x)
    ensures var s := TreeText(x);
            s != [] && !Blank([s[0]]) && s[0] != '\0' && s[0] != ']' && s[0] != '}' && s[0] != ',' && s[0] != ':'
  {
    hide ItemsText, EntriesText, IsFraction, IsExpo, InRange, PiecesText;
    var s := TreeText(x);
    assert s != [] ==> [s[0]][0] == s[0];
    if x.NumTree? {
      NumStart(x.n);
    }
  }

  lemma NumStart(n: Num)
    requires IsNum(n)
    ensures NumText(n) != [] && (NumText(n)[0] == '-' || '0' <= NumText(n)[0] <= '9')
  {
    hide IsFraction, IsExpo;
  }

  lemma AfterNumber(n: Num, c: char)
    requires Blank([c]) || c == ',' || c == ']' || c == '}'
    ensures NumEnds(n, c)
  {
    assert [c][0] == c;
  }

  /** Skipping white space in front of something. */
  lemma BlankBefore(t: string, p: nat, blank: string, s: string)
    requires Ended(t) && Blank(blank) && s != [] && !Blank([s[0]]) && At(t, p, blank + s)
    ensures At(t, p, blank) && At(t, p + |blank|, s) && p + |blank| < |t| && t[p + |blank|] == s[0]
    ensures SkipSpace(t, p) == p + |blank|
  {
    hide SkipSpace, Blank;
    AtSplit(t, p, blank, s);
    AtChar(t, p + |blank|, s, 0);
    BlankSkipped(t, p, p + |blank|);
  }

  /** The first character of a text of which the first part may be white space. */
  lemma FirstOf(blank: string, s: string)
    requires Blank(blank) && s != []
    ensures (blank + s)[0] == s[0] || Blank([(blank + s)[0]])
  {
    if blank != [] {
      assert [(blank + s)[0]][0] == blank[0];
    }
  }

  lemma Blanks()
    ensures !Blank(",") && !Blank("]") && !Blank("}") && !Blank(":") && !Blank("\"")
  {
    assert ","[0] == ',' && "]"[0] == ']' && "}"[0] == '}' && ":"[0] == ':' && "\""[0] == '\"';
  }

  /** Where the parts of an item are. */
  lemma ItemParts(t: string, b: nat, x: Item, rest: string)
    requires Ended(t) && Blank(x.before) && Blank(x.after) && IsTree(x.tree) && At(t, b, ItemText(x) + rest)
    requires rest != [] && (rest[0] == ',' || rest[0] == ']' || rest[0] == '}')
    ensures var p := b + |x.before|; var q := p + |TreeText(x.tree)|; var e := q + |x.after|;
            && e < |t| && At(t, p, TreeText(x.tree)) && At(t, e, rest) && t[e] == rest[0]
            && SkipSpace(t, b) == p && SkipSpace(t, q) == e && t[p] == TreeText(x.tree)[0]
            && (Blank([t[q]]) || t[q] == rest[0])
  {
    hide TreeText, IsTree, SkipSpace, Blank, At;
    var s := TreeText(x.tree);
    TreeStart(x.tree);
    assert ItemText(x) + rest == x.before + (s + (x.after + rest));
    assert (s + (x.after + rest))[0] == s[0];
    BlankBefore(t, b, x.before, s + (x.after + rest));
    var p := b + |x.before|;
    AtSplit(t, p, s, x.after + rest);
    var q := p + |s|;
    Separators(rest);
    BlankBefore(t, q, x.after, rest);
    FirstOf(x.after, rest);
    AtChar(t, q, x.after + rest, 0);
  }

  lemma Separators(rest: string)
    requires rest != [] && (rest[0] == ',' || rest[0] == ']' || rest[0] == '}')
    ensures !Blank([rest[0]])
  {
    assert [rest[0]][0] == rest[0];
  }

  lemma {:induction false} TreeReads(x: Tree, t: string, p: nat)
    requires IsTree(x) && Ended(t) && At(t, p, TreeText(x)) && p + |TreeText(x)| < |t|
    requires x.NumTree? ==> NumEnds(x.n, t[p + |TreeText(x)|])
    ensures ParseValue(t, p) == Ok(TreeValue(x), p + |TreeText(x)|)
    decreases x, 1
  {
    hide ParseNumber, Scan, SkipSpace, ParseItems, ParseMembers, ItemsText, EntriesText, PiecesText, PiecesBytes;
    hide ItemsValues, EntriesValues, NumText, NumValue, NumEnds, IsNum, InRange;
    AtChar(t, p, TreeText(x), 0) by {
      TreeStart(x);
    }
    match x {
      case NullTree =>
      case BoolTree(b) =>
      case NumTree(n) =>
        NumReads(n, t, p);
      case StrTree(pieces) =>
        AtSplit(t, p, "\"", PiecesText(pieces) + "\"");
        PiecesRead(t, p, pieces, []);
        assert [] + PiecesBytes(pieces) == PiecesBytes(pieces);
      case ArrTree(blank, items) =>
        ArrayReads(blank, items, t, p);
      case ObjTree(blank, entries) =>
        ObjectReads(blank, entries, t, p);
    }
  }

  lemma NumReads(n: Num, t: string, p: nat)
    requires IsNum(n) && InRange(n) && Ended(t) && At(t, p, NumText(n)) && p + |NumText(n)| < |t|
    requires NumEnds(n, t[p + |NumText(n)|])
    ensures ParseValue(t, p) == Ok(NumValue(n), p + |NumText(n)|)
  {
    hide ParseNumber, NumText, NumValue, NumEnds, InRange, IsNum, NumAt;
    NumStart(n);
    AtChar(t, p, NumText(n), 0);
    var a, b := NumAtText(t, p, n);
    NumYields(t, p, n, a, b, p + |NumText(n)|);
  }

  predicate AreItems(items: seq<Item>) {
    forall i :: 0 <= i < |items| ==> Blank(items[i].before) && Blank(items[i].after) && IsTree(items[i].tree)
  }

  lemma {:induction false} ArrayReads(blank: string, items: seq<Item>, t: string, p: nat)
    requires Blank(blank) && AreItems(items) && Ended(t)
    requires var s := if items == [] then blank else ItemsText(items);
             At(t, p, "[" + (s + "]")) && p + |s| + 2 < |t|
    ensures ParseValue(t, p) == Ok(Arr(ItemsValues(items)), p + |if items == [] then blank else ItemsText(items)| + 2)
    decreases items, 3
  {
    hide ParseNumber, Scan, SkipSpace, ParseItems, ParseMembers, ItemsText, ItemsValues, Blank, At;
    var s := if items == [] then blank else ItemsText(items);
    AtChar(t, p, "[" + (s + "]"), 0);
    AtSplit(t, p, "[", s + "]");
    Blanks();
    if items == [] {
      BlankBefore(t, p + 1, blank, "]");
      NoValues();
    } else {
      ItemsRead(items, t, p + 1, []);
      assert [] + ItemsValues(items) == ItemsValues(items);
    }
  }

  lemma NoValues()
    ensures ItemsValues([]) == [] && forall read :: EntriesValues([], read) == read
  {
  }

  lemma ItemsNext(items: seq<Item>)
    requires items != []
    ensures ItemsText(items) == ItemText(items[0]) + (if |items| == 1 then [] else "," + ItemsText(items[1..]))
    ensures ItemsValues(items) == [TreeValue(items[0].tree)] + ItemsValues(items[1..])
  {
    hide TreeText, TreeValue;
  }

  lemma ItemsCons(x: Item, rest: seq<Item>, read: seq<Json>)
    ensures ItemsText([x] + rest) + "]" == ItemText(x) + (if rest == [] then "]" else "," + (ItemsText(rest) + "]"))
    ensures |ItemsText([x] + rest)| == |ItemText(x)| + if rest == [] then 0 else 1 + |ItemsText(rest)|
    ensures read + ItemsValues([x] + rest) == (read + [TreeValue(x.tree)]) + ItemsValues(rest)
    ensures rest == [] ==> read + ItemsValues([x] + rest) == read + [TreeValue(x.tree)]
  {
    hide ItemsText, ItemsValues, ItemText, TreeValue;
    ItemsNext([x] + rest);
    NoValues();
    assert ([x] + rest)[1..] == rest;
  }

  /** The next item, and what follows it. */
  lemma {:induction false} ItemsRead(items: seq<Item>, t: string, b: nat, read: seq<Json>)
    requires items != [] && AreItems(items) && Ended(t)
    requires At(t, b, ItemsText(items) + "]") && b + |ItemsText(items)| + 1 < |t|
    ensures SkipSpace(t, b) == b + |items[0].before| < |t| && t[SkipSpace(t, b)] != ']'
    ensures ParseItems(t, SkipSpace(t, b), read) == Ok(Arr(read + ItemsValues(items)), b + |ItemsText(items)| + 1)
    decreases items, 2
  {
    hide ParseValue, SkipSpace, ItemsText, ItemsValues, TreeText, TreeValue, IsTree, Blank, At, NumEnds, ParseItems;
    var x, rest := items[0], items[1..];
    var more := if rest == [] then "]" else "," + (ItemsText(rest) + "]");
    assert items == [x] + rest;
    ItemsCons(x, rest, read);
    ItemParts(t, b, x, more);
    TreeStart(x.tree);
    var p := b + |x.before|;
    var q := p + |TreeText(x.tree)|;
    if x.tree.NumTree? {
      AfterNumber(x.tree.n, t[q]);
    }
    TreeReads(x.tree, t, p);
    ItemStep(t, p, read);
    if rest != [] {
      AtSplit(t, q + |x.after|, ",", ItemsText(rest) + "]");
      ItemsRead(rest, t, q + |x.after| + 1, read + [TreeValue(x.tree)]);
    }
  }

  predicate AreEntries(entries: seq<Entry>) {
    forall i :: 0 <= i < |entries| ==>
      && Blank(entries[i].before) && ArePieces(entries[i].key) && Blank(entries[i].mid) && Blank(entries[i].between)
      && IsTree(entries[i].tree) && Blank(entries[i].after)
  }

  lemma {:induction false} ObjectReads(blank: string, entries: seq<Entry>, t: string, p: nat)
    requires Blank(blank) && AreEntries(entries) && Ended(t)
    requires var s := if entries == [] then blank else EntriesText(entries);
             At(t, p, "{" + (s + "}")) && p + |s| + 2 < |t|
    ensures ParseValue(t, p)
            == Ok(Obj(EntriesValues(entries, [])), p + |if entries == [] then blank else EntriesText(entries)| + 2)
    decreases entries, 3
  {
    hide ParseNumber, Scan, SkipSpace, ParseItems, ParseMembers, EntriesText, EntriesValues, Blank, At;
    var s := if entries == [] then blank else EntriesText(entries);
    AtChar(t, p, "{" + (s + "}"), 0);
    AtSplit(t, p, "{", s + "}");
    Blanks();
    if entries == [] {
      BlankBefore(t, p + 1, blank, "}");
      NoValues();
    } else {
      EntriesRead(entries, t, p + 1, []);
    }
  }

  lemma EntriesNext(entries: seq<Entry>, read: seq<Member>)
    requires entries != []
    ensures EntriesText(entries)
            == EntryText(entries[0]) + (if |entries| == 1 then [] else "," + EntriesText(entries[1..]))
    ensures EntriesValues(entries, read)
            == EntriesValues(entries[1..], Insert(read, PiecesBytes(entries[0].key), TreeValue(entries[0].tree)))
  {
    hide TreeText, TreeValue, PiecesText, PiecesBytes, Insert;
  }

  /** The key of a member and the colon behind it. */
  lemma KeyParts(t: string, b: nat, before: string, key: seq<Piece>, mid: string, rest: string)
    requires Ended(t) && Blank(before) && ArePieces(key) && Blank(mid)
    requires At(t, b, before + ("\"" + (PiecesText(key) + ("\"" + (mid + (":" + rest))))))
    ensures var p := b + |before|; var k := p + |PiecesText(key)| + 2; var c := k + |mid|;
            && SkipSpace(t, b) == p < |t| && t[p] == '\"' && Scan(t, p, []) == Ok(PiecesBytes(key), k)
            && k < |t| && SkipSpace(t, k) == c < |t| && t[c] == ':' && At(t, c + 1, rest)
  {
    hide SkipSpace, Scan, PiecesText, PiecesBytes, ArePieces, Blank, At;
    Blanks();
    var p, tail := b + |before|, mid + (":" + rest);
    BlankBefore(t, b, before, "\"" + (PiecesText(key) + ("\"" + tail)));
    AtSplit(t, p, "\"", PiecesText(key) + ("\"" + tail));
    assert PiecesText(key) + ("\"" + tail) == (PiecesText(key) + "\"") + tail;
    AtSplit(t, p + 1, PiecesText(key) + "\"", tail);
    PiecesRead(t, p, key, []);
    assert [] + PiecesBytes(key) == PiecesBytes(key);
    var k := p + |PiecesText(key)| + 2;
    BlankBefore(t, k, mid, ":" + rest);
    AtSplit(t, k + |mid|, ":", rest);
  }

  lemma EntriesCons(x: Entry, rest: seq<Entry>, read: seq<Member>)
    ensures EntriesText([x] + rest) + "}"
            == EntryText(x) + (if rest == [] then "}" else "," + (EntriesText(rest) + "}"))
    ensures |EntriesText([x] + rest)| == |EntryText(x)| + if rest == [] then 0 else 1 + |EntriesText(rest)|
    ensures EntriesValues([x] + rest, read)
            == EntriesValues(rest, Insert(read, PiecesBytes(x.key), TreeValue(x.tree)))
    ensures rest == [] ==> EntriesValues([x] + rest, read) == Insert(read, PiecesBytes(x.key), TreeValue(x.tree))
    ensures AreEntries([x] + rest) <==> AreEntries([x]) && AreEntries(rest)
  {
    hide EntriesText, EntriesValues, EntryText, TreeValue, Blank, ArePieces, IsTree, PiecesBytes, Insert;
    EntriesNext([x] + rest, read);
    NoValues();
    assert ([x] + rest)[1..] == rest && [x][0] == x;
  }

  /** Where the parts of a member are. */
  lemma EntryParts(t: string, b: nat, x: Entry, more: string) returns (p: nat, q: nat)
    requires Ended(t) && AreEntries([x]) && At(t, b, EntryText(x) + more)
    requires more != [] && (more[0] == ',' || more[0] == ']' || more[0] == '}')
    ensures var o := b + |x.before|; SkipSpace(t, b) == o < |t| && t[o] == '\"' && Scan(t, o, []).Ok?
    ensures var key := Scan(t, b + |x.before|, []);
            && key.value == PiecesBytes(x.key) && t[SkipSpace(t, key.next)] == ':'
            && SkipSpace(t, SkipSpace(t, key.next) + 1) == p < |t|
    ensures At(t, p, TreeText(x.tree)) && q == p + |TreeText(x.tree)| < |t| && (Blank([t[q]]) || t[q] == more[0])
    ensures SkipSpace(t, q) == q + |x.after| == b + |EntryText(x)| < |t|
    ensures At(t, q + |x.after|, more) && t[q + |x.after|] == more[0]
  {
    hide SkipSpace, Scan, TreeText, IsTree, Blank, At, PiecesText, PiecesBytes, ArePieces;
    assert [x][0] == x;
    var item := Item(x.between, x.tree, x.after);
    assert EntryText(x) + more
        == x.before + ("\"" + (PiecesText(x.key) + ("\"" + (x.mid + (":" + (ItemText(item) + more))))));
    KeyParts(t, b, x.before, x.key, x.mid, ItemText(item) + more);
    p := b + |x.before| + |PiecesText(x.key)| + 2 + |x.mid| + 1 + |x.between|;
    q := p + |TreeText(x.tree)|;
    ItemParts(t, b + |x.before| + |PiecesText(x.key)| + 2 + |x.mid| + 1, item, more);
    EntryLength(x);
  }

  lemma {:induction false} EntriesRead(entries: seq<Entry>, t: string, b: nat, read: seq<Member>)
    requires entries != [] && AreEntries(entries) && Ended(t)
    requires At(t, b, EntriesText(entries) + "}") && b + |EntriesText(entries)| + 1 < |t|
    ensures SkipSpace(t, b) == b + |entries[0].before| < |t| && t[SkipSpace(t, b)] != '}'
    ensures ParseMembers(t, SkipSpace(t, b), read)
            == Ok(Obj(EntriesValues(entries, read)), b + |EntriesText(entries)| + 1)
    decreases entries, 2
  {
    hide ParseValue, SkipSpace, Scan, EntriesText, EntriesValues, EntryText, TreeText, TreeValue, IsTree, Blank, At;
    hide PiecesText, PiecesBytes, Insert, NumEnds, AreEntries, ParseMembers;
    var x, rest := entries[0], entries[1..];
    var more := if rest == [] then "}" else "," + (EntriesText(rest) + "}");
    assert entries == [x] + rest;
    EntriesCons(x, rest, read);
    var p, q := EntryParts(t, b, x, more);
    EntryTree(x);
    MemberStep(t, b + |x.before|, read);
    if x.tree.NumTree? {
      AfterNumber(x.tree.n, t[q]);
    }
    TreeReads(x.tree, t, p);
    if rest != [] {
      AtSplit(t, q + |x.after|, ",", EntriesText(rest) + "}");
      EntriesRead(rest, t, q + |x.after| + 1, Insert(read, PiecesBytes(x.key), TreeValue(x.tree)));
    }
  }

  lemma EntryTree(x: Entry)
    requires AreEntries([x])
    ensures IsTree(x.tree)
  {
    assert [x][0] == x;
  }

  // Whatever is read is the text of a tree.

  lemma LiteralFound(t: string, p: nat, literal: string, v: Json)
    requires p < |t| && Ended(t) && literal != [] && '\0' !in literal && ParseLiteral(t, p, literal, v).Ok?
    ensures At(t, p, literal) && ParseLiteral(t, p, literal, v) == Ok(v, p + |literal|)
  {
  }

  lemma BlankFound(t: string, p: nat)
    requires p < |t| && Ended(t)
    ensures Blank(t[p..SkipSpace(t, p)]) && At(t, p, t[p..SkipSpace(t, p)])
  {
    BlankSkipped(t, p, SkipSpace(t, p));
  }

  /** The text x stands where tree's text does, and is followed by what ends it. */
  ghost predicate IsTreeAt(t: string, p: nat, x: Tree, r: Parsed<Json>) {
    && r.Ok? && IsTree(x) && At(t, p, TreeText(x)) && r.next == p + |TreeText(x)| < |t| && r.value == TreeValue(x)
    && (x.NumTree? ==> NumEnds(x.n, t[r.next]))
  }

  lemma {:induction false} TreeFound(t: string, p: nat) returns (x: Tree)
    requires p < |t| && Ended(t) && ParseValue(t, p).Ok?
    ensures IsTreeAt(t, p, x, ParseValue(t, p))
    decreases |t| - p, 1
  {
    hide ParseNumber, Scan, SkipSpace, ParseItems, ParseMembers, ParseLiteral, ItemsText, EntriesText, PiecesText;
    hide PiecesBytes, ItemsValues, EntriesValues, NumText, NumValue, NumEnds, IsNum, InRange, Blank, ArePieces, At;
    var c := t[p];
    if c == 't' {
      LiteralFound(t, p, "true", Bool(true));
      x := BoolTree(true);
    } else if c == 'f' {
      LiteralFound(t, p, "false", Bool(false));
      x := BoolTree(false);
    } else if c == 'n' {
      LiteralFound(t, p, "null", Null);
      x := NullTree;
    } else if c == '\"' {
      x := StringFound(t, p);
    } else if c == '[' {
      x := ArrayFound(t, p);
    } else if c == '{' {
      x := ObjectFound(t, p);
    } else {
      x := NumFound(t, p);
    }
  }

  lemma AtOne(t: string, p: nat, c: char)
    requires p < |t| && t[p] == c
    ensures At(t, p, [c])
  {
  }

  lemma StringFound(t: string, p: nat) returns (x: Tree)
    requires p < |t| && Ended(t) && t[p] == '\"' && ParseValue(t, p).Ok?
    ensures IsTreeAt(t, p, x, ParseValue(t, p))
  {
    hide Scan, PiecesText, PiecesBytes, ArePieces, At;
    var pieces := PiecesFound(t, p, []);
    x := StrTree(pieces);
    AtOne(t, p, '\"');
    AtJoin(t, p, "\"", PiecesText(pieces) + "\"");
    assert [] + PiecesBytes(pieces) == PiecesBytes(pieces);
  }

  lemma NumFound(t: string, p: nat) returns (x: Tree)
    requires p < |t| && Ended(t) && ParseNumber(t, p).Ok?
    ensures IsTreeAt(t, p, x, ParseNumber(t, p))
  {
    hide ParseNumber, NumValue, NumText, InRange;
    var n, a, b := NumRecovered(t, p);
    NumTextAt(t, p, n, a, b, ParseNumber(t, p).next);
    x := NumTree(n);
  }

  lemma {:induction false} ArrayFound(t: string, p: nat) returns (x: Tree)
    requires p < |t| && Ended(t) && t[p] == '[' && ParseValue(t, p).Ok?
    ensures IsTreeAt(t, p, x, ParseValue(t, p))
    decreases |t| - p, 0
  {
    hide SkipSpace, ParseItems, ItemsText, ItemsValues, Blank, At;
    AtOne(t, p, '[');
    var q := SkipSpace(t, p + 1);
    var items, blank := [], t[p + 1..q];
    BlankFound(t, p + 1);
    NoValues();
    if t[q] == ']' {
      AtOne(t, q, ']');
      AtJoin(t, p + 1, blank, "]");
    } else {
      items := ItemsFound(t, p + 1, []);
      assert [] + ItemsValues(items) == ItemsValues(items);
    }
    AtJoin(t, p, "[", (if items == [] then blank else ItemsText(items)) + "]");
    x := ArrTree(blank, items);
  }

  lemma ItemJoined(t: string, b: nat, tree: Tree) returns (x: Item)
    requires b < |t| && Ended(t) && At(t, SkipSpace(t, b), TreeText(tree)) && IsTree(tree)
    requires SkipSpace(t, b) + |TreeText(tree)| < |t|
    ensures x.tree == tree && AreItems([x]) && At(t, b, ItemText(x))
    ensures SkipSpace(t, SkipSpace(t, b) + |TreeText(tree)|) == b + |ItemText(x)|
  {
    hide SkipSpace, TreeText, IsTree, Blank, At;
    var p := SkipSpace(t, b);
    var q := p + |TreeText(tree)|;
    BlankFound(t, b);
    BlankFound(t, q);
    x := Item(t[b..p], tree, t[q..SkipSpace(t, q)]);
    AtJoin(t, p, TreeText(tree), x.after);
    AtJoin(t, b, x.before, TreeText(tree) + x.after);
  }

  lemma ItemsAll(x: Item, rest: seq<Item>)
    requires AreItems([x]) && AreItems(rest)
    ensures AreItems([x] + rest)
  {
    hide Blank, IsTree;
    assert [x][0] == x;
  }

  lemma {:induction false} ItemsFound(t: string, b: nat, read: seq<Json>) returns (items: seq<Item>)
    requires b < |t| && Ended(t) && ParseItems(t, SkipSpace(t, b), read).Ok?
    ensures items != [] && AreItems(items) && At(t, b, ItemsText(items) + "]")
    ensures ParseItems(t, SkipSpace(t, b), read) == Ok(Arr(read + ItemsValues(items)), b + |ItemsText(items)| + 1)
    decreases |t| - b, 2
  {
    hide ParseValue, SkipSpace, ItemsText, ItemsValues, TreeText, TreeValue, IsTree, Blank, At, NumEnds, ItemText;
    hide AreItems;
    var p := SkipSpace(t, b);
    var tree := TreeFound(t, p);
    var e := SkipSpace(t, ParseValue(t, p).next);
    var x := ItemJoined(t, b, tree);
    var rest, more := [], "]";
    AtOne(t, e, t[e]);
    NoItems();
    if t[e] == ',' {
      rest := ItemsFound(t, e + 1, read + [TreeValue(tree)]);
      more := "," + (ItemsText(rest) + "]");
      AtJoin(t, e, ",", ItemsText(rest) + "]");
    }
    items := [x] + rest;
    ItemsAll(x, rest);
    AtJoin(t, b, ItemText(x), more);
    ItemsCons(x, rest, read);
  }

  lemma NoItems()
    ensures AreItems([]) && AreEntries([])
  {
  }

  lemma {:induction false} ObjectFound(t: string, p: nat) returns (x: Tree)
    requires p < |t| && Ended(t) && t[p] == '{' && ParseValue(t, p).Ok?
    ensures IsTreeAt(t, p, x, ParseValue(t, p))
    decreases |t| - p, 0
  {
    hide SkipSpace, ParseMembers, EntriesText, EntriesValues, Blank, At;
    AtOne(t, p, '{');
    var q := SkipSpace(t, p + 1);
    var entries, blank := [], t[p + 1..q];
    BlankFound(t, p + 1);
    NoValues();
    if t[q] == '}' {
      AtOne(t, q, '}');
      AtJoin(t, p + 1, blank, "}");
    } else {
      entries := EntriesFound(t, p + 1, []);
    }
    AtJoin(t, p, "{", (if entries == [] then blank else EntriesText(entries)) + "}");
    x := ObjTree(blank, entries);
    ObjectIs(blank, entries);
  }

  lemma ObjectIs(blank: string, entries: seq<Entry>)
    requires Blank(blank) && AreEntries(entries)
    ensures IsTree(ObjTree(blank, entries)) && TreeValue(ObjTree(blank, entries)) == Obj(EntriesValues(entries, []))
    ensures TreeText(ObjTree(blank, entries)) == "{" + ((if entries == [] then blank else EntriesText(entries)) + "}")
  {
    hide Blank, ArePieces, EntriesText, EntriesValues;
  }

  lemma ValueJoined(t: string, c: nat, tree: Tree, p: nat, q: nat, e: nat)
    requires c < p <= q <= e < |t| && t[c] == ':' && At(t, p, TreeText(tree)) && q == p + |TreeText(tree)|
    ensures At(t, c, ":" + (t[c + 1..p] + (TreeText(tree) + t[q..e])))
  {
    hide TreeText, At;
    AtSlice(t, c + 1, p);
    AtSlice(t, q, e);
    AtOne(t, c, ':');
    AtJoin(t, p, TreeText(tree), t[q..e]);
    AtJoin(t, c + 1, t[c + 1..p], TreeText(tree) + t[q..e]);
    AtJoin(t, c, ":", t[c + 1..p] + (TreeText(tree) + t[q..e]));
  }

  /** One member with the white space in it, from its key and its value. */
  lemma EntryJoined(t: string, b: nat, key: seq<Piece>, tree: Tree, o: nat, k: nat, c: nat, p: nat, q: nat, e: nat)
    returns (x: Entry)
    requires Ended(t) && b <= o <= k <= c < p <= q <= e < |t| && ArePieces(key) && IsTree(tree)
    requires Blank(t[b..o]) && Blank(t[k..c]) && Blank(t[c + 1..p]) && Blank(t[q..e])
    requires At(t, o, "\"" + (PiecesText(key) + "\"")) && k == o + |PiecesText(key)| + 2 && t[c] == ':'
    requires At(t, p, TreeText(tree)) && q == p + |TreeText(tree)|
    ensures x.key == key && x.tree == tree && AreEntries([x]) && At(t, b, EntryText(x)) && e == b + |EntryText(x)|
  {
    hide TreeText, IsTree, Blank, At, PiecesText, ArePieces;
    x := Entry(t[b..o], key, t[k..c], t[c + 1..p], tree, t[q..e]);
    AtSlice(t, b, o);
    AtSlice(t, k, c);
    ValueJoined(t, c, tree, p, q, e);
    var tail := TreeText(tree) + x.after;
    var rest := x.mid + (":" + (x.between + tail));
    AtJoin(t, k, x.mid, ":" + (x.between + tail));
    KeyText(PiecesText(key), rest);
    AtJoin(t, o, "\"" + (PiecesText(key) + "\""), rest);
    AtJoin(t, b, x.before, "\"" + (PiecesText(key) + ("\"" + rest)));
    EntryLength(x);
  }

  lemma EntryLength(x: Entry)
    ensures |EntryText(x)|
            == |x.before| + |PiecesText(x.key)| + |x.mid| + |x.between| + |TreeText(x.tree)| + |x.after| + 3
  {
    hide PiecesText, TreeText;
  }

  lemma AtSlice(t: string, p: nat, q: nat)
    requires p <= q <= |t|
    ensures At(t, p, t[p..q])
  {
  }

  lemma KeyText(key: string, rest: string)
    ensures ("\"" + (key + "\"")) + rest == "\"" + (key + ("\"" + rest))
  {
  }

  /** The first member that was read. */
  lemma EntryFound(t: string, b: nat, tree: Tree) returns (x: Entry)
    requires b < |t| && Ended(t) && t[SkipSpace(t, b)] == '\"' && Scan(t, SkipSpace(t, b), []).Ok?
    requires t[SkipSpace(t, Scan(t, SkipSpace(t, b), []).next)] == ':' && IsTree(tree)
    requires var v := SkipSpace(t, SkipSpace(t, Scan(t, SkipSpace(t, b), []).next) + 1);
             At(t, v, TreeText(tree)) && v + |TreeText(tree)| < |t|
    ensures var v := SkipSpace(t, SkipSpace(t, Scan(t, SkipSpace(t, b), []).next) + 1);
            && SkipSpace(t, v + |TreeText(tree)|) == b + |EntryText(x)| && AreEntries([x]) && At(t, b, EntryText(x))
    ensures PiecesBytes(x.key) == Scan(t, SkipSpace(t, b), []).value && x.tree == tree
  {
    hide SkipSpace, Scan, TreeText, EntryText, IsTree, Blank, At, PiecesText, PiecesBytes, ArePieces, AreEntries;
    var o := SkipSpace(t, b);
    var k := Scan(t, o, []).next;
    var c := SkipSpace(t, k);
    var p := SkipSpace(t, c + 1);
    var q := p + |TreeText(tree)|;
    var key := PiecesFound(t, o, []);
    assert [] + PiecesBytes(key) == PiecesBytes(key);
    AtOne(t, o, '\"');
    AtJoin(t, o, "\"", PiecesText(key) + "\"");
    BlankFound(t, b);
    BlankFound(t, k);
    BlankFound(t, c + 1);
    BlankFound(t, q);
    x := EntryJoined(t, b, key, tree, o, k, c, p, q, SkipSpace(t, q));
  }

  lemma {:induction false} EntriesFound(t: string, b: nat, read: seq<Member>) returns (entries: seq<Entry>)
    requires b < |t| && Ended(t) && ParseMembers(t, SkipSpace(t, b), read).Ok?
    ensures entries != [] && AreEntries(entries) && At(t, b, EntriesText(entries) + "}")
    ensures ParseMembers(t, SkipSpace(t, b), read)
            == Ok(Obj(EntriesValues(entries, read)), b + |EntriesText(entries)| + 1)
    decreases |t| - b, 2
  {
    hide ParseValue, SkipSpace, Scan, EntriesText, EntriesValues, TreeText, TreeValue, IsTree, Blank, At, NumEnds;
    hide PiecesText, PiecesBytes, Insert, EntryText, AreEntries, ParseMembers;
    MemberStep(t, SkipSpace(t, b), read);
    var p := SkipSpace(t, SkipSpace(t, Scan(t, SkipSpace(t, b), []).next) + 1);
    var tree := TreeFound(t, p);
    var e := SkipSpace(t, ParseValue(t, p).next);
    var x := EntryFound(t, b, tree);
    var rest, more := [], "}";
    AtOne(t, e, t[e]);
    NoItems();
    if t[e] == ',' {
      rest := EntriesFound(t, e + 1, Insert(read, PiecesBytes(x.key), TreeValue(tree)));
      more := "," + (EntriesText(rest) + "}");
      AtJoin(t, e, ",", EntriesText(rest) + "}");
    }
    entries := [x] + rest;
    AtJoin(t, b, EntryText(x), more);
    EntriesCons(x, rest, read);
  }

  /** The parser reads a value from a position on exactly when the text of a tree for that
      value stands there; of a number it reads as much as there is. */
  lemma GrammarExact(t: string, p: nat, v: Json, q: nat)
    requires p < |t| && Ended(t)
    ensures ParseValue(t, p) == Ok(v, q) <==> exists x :: IsTreeAt(t, p, x, Ok(v, q))
  {
    hide ParseValue, IsTree, TreeText, TreeValue, NumEnds, At;
    if ParseValue(t, p) == Ok(v, q) {
      var x := TreeFound(t, p);
      assert IsTreeAt(t, p, x, Ok(v, q));
    }
    if exists x :: IsTreeAt(t, p, x, Ok(v, q)) {
      var x :| IsTreeAt(t, p, x, Ok(v, q));
      TreeReads(x, t, p);
    }
  }

  /** The text begins, after white space, with the text of a tree for the value. */
  ghost predicate Spells(text: string, v: Json) {
    exists p: nat, x, q :: p <= |text| && Blank(text[..p]) && IsTreeAt(text + ['\0'], p, x, Ok(v, q))
  }

  /** A text is read as a value exactly when it spells that value. */
  lemma TextExact(text: string, v: Json)
    ensures var t := text + ['\0'];
            var r := ParseValue(t, SkipSpace(t, 0));
            r.Ok? && r.value == v <==> Spells(text, v)
  {
    hide ParseValue, SkipSpace, IsTreeAt, Blank;
    var t := text + ['\0'];
    var p := SkipSpace(t, 0);
    var r := ParseValue(t, p);
    BlankFound(t, 0);
    assert t[0..p] == text[..p];
    if r.Ok? && r.value == v {
      GrammarExact(t, p, v, r.next);
    }
    if Spells(text, v) {
      var p': nat, x, q :| p' <= |text| && Blank(text[..p']) && IsTreeAt(t, p', x, Ok(v, q));
      TreeFirst(t, p', x, Ok(v, q));
      assert t[0..p'] == text[..p'];
      BlankSkipped(t, 0, p');
      GrammarExact(t, p', v, q);
    }
  }

  lemma TreeFirst(t: string, p: nat, x: Tree, r: Parsed<Json>)
    requires IsTreeAt(t, p, x, r)
    ensures p < |t| && !Blank([t[p]])
  {
    hide TreeText, TreeValue, IsTree, Blank, NumEnds;
    TreeStart(x);
    AtChar(t, p, TreeText(x), 0);
  }

  /** The order of the keys: the first character in which they differ decides, and a key
      comes before those it begins. */
  lemma {:induction false} KeyOrder(a: string, b: string)
    ensures KeyLess(a, b)
            <==> exists n: nat :: n <= |a| && n < |b| && a[..n] == b[..n] && (n == |a| || a[n] < b[n])
    decreases |a|
  {
    if b != [] && a == [] {
      assert a[..0] == b[..0];
    } else if b != [] {
      KeyOrder(a[1..], b[1..]);
      if a[0] != b[0] {
        forall n: nat | 0 < n <= |a| && n < |b|
          ensures a[..n] != b[..n]
        {
          PrefixHead(a, b, n);
        }
        assert a[..0] == b[..0];
      } else {
        SameRest(a, b);
      }
    }
  }

  lemma PrefixHead(a: string, b: string, n: nat)
    requires 0 < n <= |a| && n <= |b|
    ensures a[..n] == b[..n] ==> a[0] == b[0]
  {
    assert a[..n][0] == a[0] && b[..n][0] == b[0];
  }

  lemma SameRest(a: string, b: string)
    requires a != [] && b != [] && a[0] == b[0]
    ensures (exists n: nat :: n <= |a| && n < |b| && a[..n] == b[..n] && (n == |a| || a[n] < b[n]))
            <==> exists n: nat :: n <= |a| - 1 && n < |b| - 1 && a[1..][..n] == b[1..][..n]
                                  && (n == |a| - 1 || a[1..][n] < b[1..][n])
  {
    if n: nat :| n <= |a| && n < |b| && a[..n] == b[..n] && (n == |a| || a[n] < b[n]) {
      assert a[1..][..n - 1] == a[..n][1..] && b[1..][..n - 1] == b[..n][1..];
    }
    if n: nat :| n <= |a| - 1 && n < |b| - 1 && a[1..][..n] == b[1..][..n]
                 && (n == |a| - 1 || a[1..][n] < b[1..][n]) {
      assert a[..n + 1] == [a[0]] + a[1..][..n] && b[..n + 1] == [b[0]] + b[1..][..n];
    }
  }

  // What the printer writes: the tree without white space, with a short escape where there is
  // one, a code point for the other control characters, and keys as they are.

  function PieceOf(c: char): Piece {
    if c as int == 0x22 || c as int == 0x2F || c as int == 0x5C then Short(c)
    else if c as int == 0x08 then Short('b')
    else if c as int == 0x09 then Short('t')
    else if c as int == 0x0A then Short('n')
    else if c as int == 0x0C then Short('f')
    else if c as int == 0x0D then Short('r')
    else if c as int < 0x20 then
      Point(['\\', 'u', '0', '0', "0123456789ABCDEF"[c as int / 16], "0123456789ABCDEF"[c as int % 16]], c as int)
    else Plain(c)
  }

  function PiecesOf(s: string): seq<Piece> {
    seq(|s|, i requires 0 <= i < |s| => PieceOf(s[i]))
  }

  function KeyOf(s: string): seq<Piece> {
    seq(|s|, i requires 0 <= i < |s| => Plain(s[i]))
  }

  function TreeOf(v: Json): Tree
    requires Good(v)
  {
    match v
    case Null => NullTree
    case Bool(b) => BoolTree(b)
    case Int(i) => NumTree(Num(i < 0, Digits(if i < 0 then -i else i), [], []))
    case Number(text) => NullTree
    case Str(s) => StrTree(PiecesOf(s))
    case Arr(items) =>
      ArrTree([], seq(|items|, i requires 0 <= i < |items| => Item([], TreeOf(items[i]), [])))
    case Obj(members) =>
      ObjTree([], seq(|members|, i requires 0 <= i < |members| =>
        Entry([], KeyOf(members[i].key), [], [], TreeOf(members[i].value), [])))
  }

  lemma HexLetter(d: nat)
    requires d < 16
    ensures HexDigit(d) == "0123456789ABCDEF"[d]
  {
  }

  lemma PrintedChar(c: char)
    ensures PieceText(PieceOf(c)) == PrintChar(c)
  {
    hide HexDigit;
    if c as int < 0x20 {
      HexLetter(c as int / 16);
      HexLetter(c as int % 16);
    }
  }

  lemma {:induction false} PrintedChars(s: string)
    ensures PiecesText(PiecesOf(s)) == PrintChars(s)
  {
    hide PieceOf, PieceText, PrintChar;
    if s != [] {
      PrintedChar(s[0]);
      PrintedChars(s[1..]);
      assert PiecesOf(s)[1..] == PiecesOf(s[1..]);
    }
  }

  lemma {:induction false} PrintedKey(s: string)
    ensures PiecesText(KeyOf(s)) == s
  {
    if s != [] {
      PrintedKey(s[1..]);
      assert KeyOf(s)[1..] == KeyOf(s[1..]);
    }
  }

  /** The printed form of a value is the text of its compact tree. */
  lemma {:induction false} PrintedTree(v: Json)
    requires Good(v)
    ensures TreeText(TreeOf(v)) == Print(v)
    decreases v, 1
  {
    hide PiecesText, PiecesOf, PrintChars, Digits, ItemsText, EntriesText, PrintItems, PrintMembers;
    match v {
      case Null =>
      case Bool(b) =>
      case Number(text) =>
      case Int(i) =>
        var d := Digits(if i < 0 then -i else i);
        assert d + ([] + []) == d;
      case Str(s) =>
        PrintedChars(s);
        assert "\"" + (PrintChars(s) + "\"") == "\"" + PrintChars(s) + "\"";
      case Arr(items) =>
        PrintedItems(items);
        var s := PrintItems(items);
        NoText();
        assert "[" + (s + "]") == "[" + s + "]";
      case Obj(members) =>
        PrintedMembers(members);
        var s := PrintMembers(members);
        NoText();
        assert "{" + (s + "}") == "{" + s + "}";
    }
  }

  lemma NoText()
    ensures PrintItems([]) == [] && PrintMembers([]) == []
  {
  }

  function CompactItems(items: seq<Json>): seq<Item>
    requires forall i :: 0 <= i < |items| ==> Good(items[i])
  {
    seq(|items|, i requires 0 <= i < |items| => Item([], TreeOf(items[i]), []))
  }

  lemma {:induction false} PrintedItems(items: seq<Json>)
    requires forall i :: 0 <= i < |items| ==> Good(items[i])
    ensures ItemsText(CompactItems(items)) == PrintItems(items)
    decreases items, 2
  {
    hide TreeText, TreeOf, Print, Good;
    if items != [] {
      var x := items[0];
      PrintedTree(x);
      PrintedItems(items[1..]);
      assert CompactItems(items)[1..] == CompactItems(items[1..]);
      assert [] + (Print(x) + []) == Print(x);
    }
  }

  function CompactEntries(members: seq<Member>): seq<Entry>
    requires forall i :: 0 <= i < |members| ==> Good(members[i].value)
  {
    seq(|members|, i requires 0 <= i < |members| =>
      Entry([], KeyOf(members[i].key), [], [], TreeOf(members[i].value), []))
  }

  lemma {:induction false} PrintedMembers(members: seq<Member>)
    requires forall i :: 0 <= i < |members| ==> Good(members[i].value)
    ensures EntriesText(CompactEntries(members)) == PrintMembers(members)
    decreases members, 2
  {
    hide TreeText, TreeOf, Print, Good, KeyOf, PiecesText;
    if members != [] {
      var m := members[0];
      PrintedTree(m.value);
      PrintedKey(m.key);
      PrintedMembers(members[1..]);
      assert CompactEntries(members)[1..] == CompactEntries(members[1..]);
      var p := Print(m.value);
      assert [] + ("\"" + (m.key + ("\"" + ([] + (":" + ([] + (p + []))))))) == "\"" + m.key + "\":" + p;
    }
  }
}
