// Frames as they are on the wire, octet by octet, and what the parser delivers for them.

module WebSocketWire {
  import opened Arith
  import opened WebSocketSpec
  import opened WebSocketFrames

  /** The number that octets stand for, highest first. */
  function Octets(b: seq<byte>): nat {
    if b == [] then 0 else 256 * Octets(b[..|b| - 1]) + b[|b| - 1]
  }

  /** A header, written out: the final bit and the opcode; the mask bit and the shortest of
      the three forms of the length; and the key of a masked frame. */
  predicate IsHeader(h: seq<byte>, fin: bool, opcode: nat, n: nat, mask: bool, key: seq<byte>) {
    var tail := if mask then key else [];
    && |h| >= 2 + |tail| && h[0] == (if fin then 128 else 0) + opcode && h[|h| - |tail|..] == tail
    && (if n < 126 then
          |h| == 2 + |tail| && h[1] == (if mask then 128 else 0) + n
        else if n < 65536 then
          |h| == 4 + |tail| && h[1] == (if mask then 128 else 0) + 126 && Octets(h[2..4]) == n
        else
          |h| == 10 + |tail| && h[1] == (if mask then 128 else 0) + 127 && Octets(h[2..10]) == n)
  }

  lemma {:induction false} OctetsCons(x: byte, b: seq<byte>)
    ensures Octets([x] + b) == x * Pow(256, |b|) + Octets(b)
    decreases |b|
  {
    if b == [] {
      assert [x] + b == [x] && [x][..0] == [];
    } else {
      var n := |b| - 1;
      assert ([x] + b)[..n + 1] == [x] + b[..n];
      OctetsCons(x, b[..n]);
      TimesPower(x, Pow(256, n));
    }
  }

  lemma TimesPower(x: nat, p: nat)
    ensures 256 * (x * p) == x * (256 * p)
  {
    MulAssoc(x, 256, p);
  }

  /** The octets of a length that has no more of them stand for it. */
  lemma {:induction false} OctetsOfLength(n: nat, k: nat)
    ensures Octets(BigEndian(n, k)) + Shr(n, k) * Pow(256, k) == n
  {
    if k > 0 {
      OctetsOfLength(n, k - 1);
      OctetsCons(Shr(n, k - 1) % 256, BigEndian(n, k - 1));
      var x, p := Shr(n, k - 1), Pow(256, k - 1);
      DivMod(x, 256);
      Distribute(x / 256 * 256, x % 256, p);
      MulAssoc(x / 256, 256, p);
    }
  }

  lemma {:induction false} SameOctets(a: seq<byte>, b: seq<byte>)
    requires |a| == |b| && Octets(a) == Octets(b)
    ensures a == b
    decreases |a|
  {
    if a != [] {
      var n := |a| - 1;
      LastOctet(Octets(a[..n]), a[n], Octets(b[..n]), b[n]);
      SameOctets(a[..n], b[..n]);
      assert a == a[..n] + [a[n]] && b == b[..n] + [b[n]];
    }
  }

  lemma LastOctet(x: nat, a: byte, y: nat, b: byte)
    requires 256 * x + a == 256 * y + b
    ensures a == b && x == y
  {
  }

  lemma LengthOctets(n: nat)
    requires n < TWO64
    ensures n < 65536 ==> Octets(BigEndian(n, 2)) == n
    ensures Octets(BigEndian(n, 8)) == n
  {
    hide Shr, BigEndian, Pow;
    ShrZero(n);
    OctetsOfLength(n, 2);
    OctetsOfLength(n, 8);
  }

  lemma Parts(h: seq<byte>, k: nat)
    requires |h| >= 2 + k
    ensures h == [h[0], h[1]] + h[2..2 + k] + h[2 + k..]
  {
  }

  /** The encoder's headers are of that form, and there is no other of that form. */
  lemma HeaderOctets(h: seq<byte>, fin: bool, opcode: nat, n: nat, mask: bool, key: seq<byte>)
    requires opcode < 16 && n < TWO64 && |key| == 4
    ensures IsHeader(h, fin, opcode, n, mask, key) <==> h == Header(fin, opcode, n, mask, key)
  {
    hide BigEndian, Octets;
    LengthOctets(n);
    var tail := if mask then key else [];
    var g, k := Header(fin, opcode, n, mask, key), if n < 126 then 0 else if n < 65536 then 2 else 8;
    assert g[|g| - |tail|..] == tail && g[2..2 + k] == if n < 126 then [] else BigEndian(n, k);
    if IsHeader(h, fin, opcode, n, mask, key) {
      assert |h| == |g| == 2 + k + |tail| && h[2 + k..] == tail == g[2 + k..];
      Parts(h, k);
      Parts(g, k);
      if n >= 126 {
        SameOctets(h[2..2 + k], BigEndian(n, k));
      } else {
        assert h[2..2] == g[2..2];
      }
    }
  }

  // Masked payloads.

  lemma {:induction false} SameBits(a: nat, b: nat, n: nat)
    requires a < Pow(2, n) && b < Pow(2, n) && forall k: nat :: k < n ==> (Bit(a, k) <==> Bit(b, k))
    ensures a == b
  {
    hide Bit;
    if n > 0 {
      LowBit(a);
      LowBit(b);
      forall k: nat | k < n - 1
        ensures Bit(a / 2, k) <==> Bit(b / 2, k)
      {
        HigherBit(a, k + 1);
        HigherBit(b, k + 1);
      }
      SameBits(a / 2, b / 2, n - 1);
    }
  }

  /** There is only one plain text. */
  lemma MaskedOnce(plain: seq<byte>, wire: seq<byte>, key: seq<byte>)
    requires |key| == 4
    ensures MaskedBy(plain, wire, key, 0) <==> plain == Unmask(wire, key, 0)
  {
    hide Unmask, Bit, Pow;
    UnmaskBits(wire, key, 0);
    EightBits();
    if MaskedBy(plain, wire, key, 0) {
      forall i | 0 <= i < |wire|
        ensures plain[i] == Unmask(wire, key, 0)[i]
      {
        var x, y := plain[i], Unmask(wire, key, 0)[i];
        assert forall k: nat :: k < 8 ==> (Bit(x, k) <==> Bit(y, k));
        SameBits(x, y, 8);
      }
    }
  }

  /** A frame on the wire is a header and the payload, masked bit by bit if the frame is. */
  ghost predicate OnWire(h: seq<byte>, wire: seq<byte>, f: Fragment)
    requires GoodFragment(f)
  {
    && IsHeader(h, f.fin, f.opcode, |f.payload|, f.mask, f.key)
    && if f.mask then MaskedBy(f.payload, wire, f.key, 0) else wire == f.payload
  }

  /** The encoded frames are exactly those of that form. */
  lemma FrameOctets(h: seq<byte>, wire: seq<byte>, f: Fragment)
    requires GoodFragment(f) && |wire| == |f.payload|
    ensures OnWire(h, wire, f) <==> h + wire == Encode(f)
  {
    hide IsHeader, Header, Unmask, MaskedBy;
    HeaderOctets(h, f.fin, f.opcode, |f.payload|, f.mask, f.key);
    MaskedOnce(f.payload, wire, f.key);
    UnmaskTwice(f.payload, f.key, 0);
    UnmaskTwice(wire, f.key, 0);
    var g := Header(f.fin, f.opcode, |f.payload|, f.mask, f.key);
    if h + wire == Encode(f) {
      assert h == (h + wire)[..|g|] && wire == (h + wire)[|g|..];
    }
  }

  /** A final frame with a payload that arrives between messages is delivered at once, with
      the plain text of what is on the wire. */
  lemma FrameDelivered(s: State, h: seq<byte>, wire: seq<byte>, f: Fragment)
    requires Sound(s) && Idle(s) && GoodFragment(f) && f.fin && f.opcode != 0 && f.payload != []
    requires |wire| == |f.payload| && OnWire(h, wire, f)
    ensures var o := Run(s, h + wire);
            Idle(o.state) && !o.failed && o.messages == [Message(f.opcode, f.mask, f.payload)]
  {
    hide Run, Encode, OnWire;
    FrameOctets(h, wire, f);
    FrameAtOnce(s, f);
    assert [] + f.payload == f.payload;
  }

  /** A masked text of one letter. */
  lemma MaskedLetter(s: State)
    requires Sound(s) && Idle(s)
    ensures Run(s, [0x81, 0x81, 1, 2, 3, 4, 0x40]).messages == [Message(1, true, [0x41])]
  {
    hide Run, Encode, IsHeader, Bit;
    var h, wire, key, plain := [0x81, 0x81, 1, 2, 3, 4], [0x40], [1, 2, 3, 4], [0x41];
    var f := Fragment(true, 1, true, key, plain);
    LetterHeader(h, key);
    LetterBits();
    forall i: nat, k: nat | i < 1 && k < 8
      ensures Bit(plain[i], k) <==> Bit(wire[i], k) != Bit(key[(0 + i) % 4], k)
    {
    }
    FrameDelivered(s, h, wire, f);
    assert h + wire == [0x81, 0x81, 1, 2, 3, 4, 0x40];
  }

  lemma LetterHeader(h: seq<byte>, key: seq<byte>)
    requires h == [0x81, 0x81, 1, 2, 3, 4] && key == [1, 2, 3, 4]
    ensures IsHeader(h, true, 1, 1, true, key)
  {
  }

  lemma LetterBits()
    ensures forall k: nat :: k < 8 ==> (Bit(0x41, k) <==> Bit(0x40, k) != Bit(1, k))
  {
    hide Bit;
    forall k: nat | k < 8
      ensures Bit(0x41, k) <==> Bit(0x40, k) != Bit(1, k)
    {
      if k == 0 {
        LowBit(0x41);
        LowBit(0x40);
        LowBit(1);
      } else {
        HigherBit(0x41, k);
        HigherBit(0x40, k);
        HigherBit(1, k);
        NoBits(k - 1);
      }
    }
  }

  lemma NoBits(k: nat)
    ensures !Bit(0, k)
  {
  }

  /** What the first octet of a frame says; the reserved bits are kept and not looked at. */
  lemma FirstOctetFields(s: State, fin: bool, rsv: nat, opcode: nat)
    requires Sound(s) && AtFrame(s) && rsv < 8 && opcode < 16
    ensures var o := Run(s, [(if fin then 128 else 0) + 16 * rsv + opcode]);
            && !o.failed && o.messages == [] && o.state.frame.fin == fin && o.state.frame.rsv == rsv
            && (if opcode != 0 && !s.isContinuation then o.state.frame.opcode == opcode && o.state.frame.payload == []
                else o.state.frame.opcode == s.frame.opcode && o.state.frame.payload == s.frame.payload)
  {
    hide Run;
    var b: byte := (if fin then 128 else 0) + 16 * rsv + opcode;
    RunTake(s, [b]);
    RunEmpty(FirstByte(s, b));
    assert [b][1..] == [];
    DivUnique(b, 16, (if fin then 8 else 0) + rsv, opcode);
  }
}
