// Code points in JSON strings: the bytes that stand for a code point, and the escapes it
// can be written with.

module JsonUnicode {
  import opened Arith
  import opened JsonSpec
  import opened JsonRoundTrip

  // UTF-8 from the side of a reader, after table 3-6 of the Unicode standard.

  datatype Decoded = CodePoint(value: nat, size: nat) | Malformed

  predicate IsTail(c: char) {
    0x80 <= c as int < 0xC0
  }

  /** What k tail bytes from position i on add to the bits so far. */
  function Tails(s: string, i: nat, k: nat, bits: nat): Decoded
    decreases k
  {
    if k == 0 then CodePoint(bits, i)
    else if i >= |s| || !IsTail(s[i]) then Malformed
    else Tails(s, i + 1, k - 1, bits * 64 + (s[i] as int - 0x80))
  }

  /** The first code point of a string, and how many bytes it takes. The first byte says how
      many follow; no code point may take more bytes than it needs. */
  function Decode(s: string): Decoded {
    if s == [] then Malformed
    else
      var c := s[0] as int;
      if c < 0x80 then CodePoint(c, 1)
      else if 0xC0 <= c < 0xE0 then AtLeast(Tails(s, 1, 1, c - 0xC0), 0x80)
      else if 0xE0 <= c < 0xF0 then AtLeast(Tails(s, 1, 2, c - 0xE0), 0x800)
      else if 0xF0 <= c < 0xF8 then AtLeast(Tails(s, 1, 3, c - 0xF0), 0x10000)
      else Malformed
  }

  function AtLeast(d: Decoded, least: nat): Decoded {
    if d.CodePoint? && least <= d.value <= 0x10FFFF then d else Malformed
  }

  lemma OneTail(s: string, i: nat, k: nat, bits: nat, low: nat)
    requires i < |s| && s[i] == Byte(0x80 + low) && low < 64
    ensures Tails(s, i, k + 1, bits) == Tails(s, i + 1, k, bits * 64 + low)
  {
  }

  lemma NoTails(s: string, i: nat, bits: nat)
    ensures Tails(s, i, 0, bits) == CodePoint(bits, i)
  {
  }

  lemma OneByte(s: string)
    requires |s| >= 1 && s[0] as int < 0x80
    ensures Decode(s) == CodePoint(s[0] as int, 1)
  {
  }

  /** Two bytes: high has five bits. */
  lemma TwoBytes(s: string, high: nat, low: nat)
    requires |s| >= 2 && s[..2] == [Byte(0xC0 + high), Byte(0x80 + low)] && 2 <= high < 32 && low < 64
    ensures Decode(s) == CodePoint(high * 64 + low, 2)
  {
    hide Tails, Byte;
    assert s[0] == s[..2][0] && s[1] == s[..2][1];
    SmallByte(0xC0 + high);
    OneTail(s, 1, 0, high, low);
    NoTails(s, 2, high * 64 + low);
  }

  lemma ThreeBytes(s: string, high: nat, mid: nat, low: nat)
    requires |s| >= 3 && s[..3] == [Byte(0xE0 + high), Byte(0x80 + mid), Byte(0x80 + low)]
    requires high < 16 && mid < 64 && low < 64 && high * 64 + mid >= 32
    ensures Decode(s) == CodePoint((high * 64 + mid) * 64 + low, 3)
  {
    hide Tails, Byte;
    assert s[0] == s[..3][0] && s[1] == s[..3][1] && s[2] == s[..3][2];
    SmallByte(0xE0 + high);
    OneTail(s, 1, 1, high, mid);
    OneTail(s, 2, 0, high * 64 + mid, low);
    NoTails(s, 3, (high * 64 + mid) * 64 + low);
  }

  lemma FourBytes(s: string, top: nat, high: nat, mid: nat, low: nat)
    requires |s| >= 4 && s[..4] == [Byte(0xF0 + top), Byte(0x80 + high), Byte(0x80 + mid), Byte(0x80 + low)]
    requires high < 64 && mid < 64 && low < 64 && 16 <= top * 64 + high < 0x110
    ensures Decode(s) == CodePoint(((top * 64 + high) * 64 + mid) * 64 + low, 4)
  {
    hide Tails, Byte;
    assert s[0] == s[..4][0] && s[1] == s[..4][1] && s[2] == s[..4][2] && s[3] == s[..4][3];
    SmallByte(0xF0 + top);
    OneTail(s, 1, 2, top, high);
    OneTail(s, 2, 1, top * 64 + high, mid);
    OneTail(s, 3, 0, (top * 64 + high) * 64 + mid, low);
    NoTails(s, 4, ((top * 64 + high) * 64 + mid) * 64 + low);
  }

  lemma SmallByte(x: nat)
    requires x < 256
    ensures Byte(x) as int == x
  {
  }

  lemma SplitBits(u: nat)
    ensures u == u / 64 * 64 + u % 64
    ensures u / 64 == u / 4096 * 64 + u / 64 % 64
    ensures u / 4096 == u / 262144 * 64 + u / 4096 % 64
  {
    DivMod(u, 64);
    DivDiv(u, 64, 64);
    DivDiv(u, 4096, 64);
    DivMod(u / 64, 64);
    DivMod(u / 4096, 64);
  }

  /** The bytes of a code point are read as that code point, whatever follows them. */
  lemma DecodeEncode(u: nat, rest: string)
    requires u <= 0x10FFFF
    ensures Decode(EncodeUtf8(u) + rest) == CodePoint(u, |EncodeUtf8(u)|)
  {
    hide Decode, Byte;
    var s, n := EncodeUtf8(u) + rest, |EncodeUtf8(u)|;
    assert s[..n] == EncodeUtf8(u);
    SplitBits(u);
    if u <= 0x7F {
      assert s[0] == s[..1][0];
      SmallByte(u);
      OneByte(s);
    } else if u <= 0x7FF {
      TwoBytes(s, u / 64, u % 64);
    } else if u <= 0xFFFF {
      ThreeBytes(s, u / 4096, u / 64 % 64, u % 64);
    } else {
      FourBytes(s, u / 262144, u / 4096 % 64, u / 64 % 64, u % 64);
    }
  }

  /** So no two code points have the same bytes, nor one the first bytes of the other. */
  lemma EncodingsApart(u: nat, v: nat, a: string, b: string)
    requires u <= 0x10FFFF && v <= 0x10FFFF && EncodeUtf8(u) + a == EncodeUtf8(v) + b
    ensures u == v && a == b
  {
    hide EncodeUtf8, Decode;
    DecodeEncode(u, a);
    DecodeEncode(v, b);
    var n := |EncodeUtf8(u)|;
    assert a == (EncodeUtf8(u) + a)[n..] && b == (EncodeUtf8(v) + b)[n..];
  }

  // Escapes.

  /** Four hexadecimal digits, in small or capital letters, with a value. */
  predicate IsHex(s: string, u: nat) {
    && |s| == 4 && (forall i :: 0 <= i < 4 ==> 0 <= HexValue(s[i]) < 16)
    && u == ((HexValue(s[0]) * 16 + HexValue(s[1])) * 16 + HexValue(s[2])) * 16 + HexValue(s[3])
  }

  /** An escape for a code point: one unit, or a pair of surrogates above 0xFFFF. */
  predicate IsEscape(e: string, u: nat) {
    if u < 0x10000 then
      !(0xD800 <= u <= 0xDBFF) && |e| == 6 && e[..2] == "\\u" && IsHex(e[2..], u)
    else
      && u <= 0x10FFFF && |e| == 12 && e[..2] == "\\u" && e[6..8] == "\\u"
      && IsHex(e[2..6], 0xD800 + (u - 0x10000) / 1024) && IsHex(e[8..], 0xDC00 + (u - 0x10000) % 1024)
  }

  lemma HexStep(t: string, p: nat, k: nat, u: nat, d: nat)
    requires p + 1 < |t| && Ended(t) && t[p] != '\0' && t[p + 1] != '\0' && HexValue(t[p + 1]) == d < 16
    ensures Hex(t, p, k + 1, u) == Hex(t, p + 1, k, u * 16 + d)
  {
  }

  lemma HexRead(t: string, p: nat, s: string, u: nat)
    requires p < |t| && Ended(t) && t[p] != '\0' && At(t, p + 1, s) && IsHex(s, u)
    ensures Hex(t, p, 4, 0) == Ok(u, p + 4) && t[p + 4] != '\0'
  {
    hide Hex, HexValue;
    AtChar(t, p + 1, s, 0);
    AtChar(t, p + 1, s, 1);
    AtChar(t, p + 1, s, 2);
    AtChar(t, p + 1, s, 3);
    NotZero(s, 0);
    NotZero(s, 1);
    NotZero(s, 2);
    NotZero(s, 3);
    HexStep(t, p, 3, 0, HexValue(s[0]));
    HexStep(t, p + 1, 2, HexValue(s[0]), HexValue(s[1]));
    HexStep(t, p + 2, 1, HexValue(s[0]) * 16 + HexValue(s[1]), HexValue(s[2]));
    HexStep(t, p + 3, 0, (HexValue(s[0]) * 16 + HexValue(s[1])) * 16 + HexValue(s[2]), HexValue(s[3]));
    HexDone(t, p + 4, u);
  }

  lemma NotZero(s: string, i: nat)
    requires i < |s| && HexValue(s[i]) >= 0
    ensures s[i] != '\0'
  {
  }

  lemma HexDone(t: string, p: nat, u: nat)
    requires p < |t| && Ended(t) && t[p] != '\0'
    ensures Hex(t, p, 0, u) == Ok(u, p)
  {
  }

  /** An escape for a code point stands in the text, with its letter u at the position. */
  ghost predicate EscapeAt(t: string, p: nat, e: string, u: nat) {
    |e| >= 2 && IsEscape(e, u) && At(t, p, e[1..])
  }

  /** An escape gives its code point, and ends with its last digit; p is at its letter u. */
  lemma EscapeValue(t: string, p: nat, e: string, u: nat)
    requires p < |t| && Ended(t) && t[p] != '\0' && EscapeAt(t, p, e, u)
    ensures Unicode(t, p) == Ok(u, p + |e| - 2)
  {
    hide Hex, HexValue, IsHex;
    if u < 0x10000 {
      assert e[1..] == "u" + e[2..];
      AtSplit(t, p, "u", e[2..]);
      HexRead(t, p, e[2..], u);
    } else {
      var tail := e[6..8] + e[8..];
      assert e[1..] == "u" + (e[2..6] + tail);
      AtSplit(t, p, "u", e[2..6] + tail);
      AtSplit(t, p + 1, e[2..6], tail);
      AtSplit(t, p + 5, e[6..8], e[8..]);
      HexRead(t, p, e[2..6], 0xD800 + (u - 0x10000) / 1024);
      AtChar(t, p + 5, e[6..8], 0);
      AtChar(t, p + 5, e[6..8], 1);
      HexRead(t, p + 6, e[8..], 0xDC00 + (u - 0x10000) % 1024);
    }
  }

  /** In a string an escape in any form stands for the bytes of its code point. */
  lemma EscapeReadBack(t: string, p: nat, e: string, u: nat, read: string)
    requires p < |t| && Ended(t) && t[p] != '\0' && At(t, p + 1, e) && IsEscape(e, u)
    ensures p + |e| < |t| && t[p + |e|] != '\0'
    ensures Scan(t, p, read) == Scan(t, p + |e|, read + EncodeUtf8(u))
  {
    hide Unicode, EncodeUtf8, IsHex;
    assert e == "\\" + e[1..];
    AtSplit(t, p + 1, "\\", e[1..]);
    AtChar(t, p + 1, e, 0);
    AtChar(t, p + 1, e, 1);
    EscapeValue(t, p + 2, e, u);
  }

  /** What the position of an escape is known to give. */
  lemma EscapesRead(t: string, p: nat)
    requires p < |t| && Ended(t) && t[p] != '\0'
    ensures forall e, u: nat :: EscapeAt(t, p, e, u) ==> Unicode(t, p) == Ok(u, p + |e| - 2)
    ensures Unicode(t, p).Ok? ==> Unicode(t, p).value <= 0x10FFFF
  {
    hide Unicode, IsEscape, At;
    if Unicode(t, p).Ok? {
      ScalarUnless(t, p);
    }
    forall e, u: nat | EscapeAt(t, p, e, u)
      ensures Unicode(t, p) == Ok(u, p + |e| - 2)
    {
      EscapeValue(t, p, e, u);
    }
  }

  /** A low surrogate that stands alone is read like any other code point. */
  lemma LoneSurrogate(t: string, p: nat, read: string)
    requires p < |t| && Ended(t) && t[p] != '\0' && At(t, p + 1, "\\uDC00")
    ensures Scan(t, p, read) == Scan(t, p + 6, read + EncodeUtf8(0xDC00))
  {
    hide Scan, EncodeUtf8;
    var e := "\\uDC00";
    assert e[..2] == "\\u" && e[2..] == "DC00";
    EscapeReadBack(t, p, e, 0xDC00, read);
  }

  /** Whatever an escape gives is a code point. It is a surrogate exactly when a low one
      stands alone, which the source lets pass. */
  lemma ScalarUnless(t: string, p: nat)
    requires p < |t| && Ended(t) && t[p] != '\0' && Unicode(t, p).Ok?
    ensures Hex(t, p, 4, 0).Ok?
    ensures Unicode(t, p).value <= 0x10FFFF
    ensures 0xD800 <= Unicode(t, p).value <= 0xDFFF <==> 0xDC00 <= Hex(t, p, 4, 0).value <= 0xDFFF
  {
    hide Hex;
    HexBound(t, p, 4, 0);
  }

  /** Even with the letters up to Z four digits stay far below the largest code point. */
  lemma {:induction false} HexBound(t: string, p: nat, k: nat, u: nat)
    requires p < |t| && Ended(t) && t[p] != '\0' && Hex(t, p, k, u).Ok?
    ensures Hex(t, p, k, u).value < (u + 3) * Pow(16, k)
    decreases k
  {
    if k > 0 {
      var d := HexValue(t[p + 1]);
      HexBound(t, p + 1, k - 1, OrDigit(u * 16, d));
      assert OrDigit(u * 16, d) + 3 <= (u + 3) * 16;
      MulMono(OrDigit(u * 16, d) + 3, (u + 3) * 16, Pow(16, k - 1));
      MulAssoc(u + 3, 16, Pow(16, k - 1));
    }
  }
}
