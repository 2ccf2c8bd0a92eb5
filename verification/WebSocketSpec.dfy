// The WebSocket frame machine, one byte at a time (sections 5.2 to 5.4 of RFC 6455), and
// what it makes of a stream: independence of how the stream is cut into buffers, and the
// reassembly of fragmented messages.

module WebSocketSpec {
  import opened Arith

  type byte = x: int | 0 <= x < 256

  const LIMIT_PAYLOAD_LEN: nat := 1024 * 1024

  datatype Status = FinAndOpcode | PayloadLenAndMask | PayloadLen | MaskKey | Payload

  datatype Frame = Frame(fin: bool, rsv: nat, opcode: nat, mask: bool, payloadLen: nat,
                         maskKey: seq<byte>, payload: seq<byte>)

  datatype State = State(status: Status, byteNeed: nat, isContinuation: bool, maskIndex: nat, frame: Frame)

  /** What the completion callback sees. */
  datatype Message = Message(opcode: nat, masked: bool, payload: seq<byte>)

  datatype Outcome = Outcome(state: State, messages: seq<Message>, failed: bool)

  /** Exclusive or of the k lowest bits. */
  function XorBits(a: nat, b: nat, k: nat): (r: nat)
    ensures r < Pow(2, k)
  {
    if k == 0 then 0
    else (if a % 2 != b % 2 then 1 else 0) + 2 * XorBits(a / 2, b / 2, k - 1)
  }

  function Xor(a: byte, b: byte): byte {
    EightBits();
    XorBits(a, b, 8)
  }

  lemma EightBits()
    ensures Pow(2, 8) == 256
  {
  }

  lemma {:induction false} XorBitsTwice(a: nat, b: nat, k: nat)
    requires a < Pow(2, k)
    ensures XorBits(XorBits(a, b, k), b, k) == a
  {
    if k > 0 {
      var y, x := XorBits(a / 2, b / 2, k - 1), XorBits(a, b, k);
      assert x / 2 == y && x % 2 == if a % 2 != b % 2 then 1 else 0;
      XorBitsTwice(a / 2, b / 2, k - 1);
    }
  }

  /** Masking twice with the same key octet gives the octet back. */
  lemma XorTwice(a: byte, b: byte)
    ensures Xor(Xor(a, b), b) == a
  {
    hide Pow, XorBits;
    EightBits();
    XorBitsTwice(a, b, 8);
  }

  /** Bit k of a number. */
  predicate Bit(x: nat, k: nat) {
    (x / Pow(2, k)) % 2 == 1
  }

  lemma {:induction false} XorBitsMeaning(a: nat, b: nat, n: nat, k: nat)
    requires k < n
    ensures Bit(XorBits(a, b, n), k) <==> Bit(a, k) != Bit(b, k)
  {
    hide Pow;
    var x, y := XorBits(a, b, n), XorBits(a / 2, b / 2, n - 1);
    assert x / 2 == y && x % 2 == if a % 2 != b % 2 then 1 else 0;
    if k == 0 {
      LowBit(x);
      LowBit(a);
      LowBit(b);
    } else {
      HigherBit(x, k);
      HigherBit(a, k);
      HigherBit(b, k);
      XorBitsMeaning(a / 2, b / 2, n - 1, k - 1);
    }
  }

  lemma LowBit(x: nat)
    ensures Bit(x, 0) <==> x % 2 == 1
  {
  }

  lemma HigherBit(x: nat, k: nat)
    requires k > 0
    ensures Bit(x, k) <==> Bit(x / 2, k - 1)
  {
    DivDiv(x, 2, Pow(2, k - 1));
  }

  /** A bit of the result is set exactly when the two bits differ. */
  lemma XorMeaning(a: byte, b: byte)
    ensures forall k: nat :: k < 8 ==> (Bit(Xor(a, b), k) <==> Bit(a, k) != Bit(b, k))
  {
    hide XorBits, Bit, Pow;
    EightBits();
    forall k: nat | k < 8
      ensures Bit(Xor(a, b), k) <==> Bit(a, k) != Bit(b, k)
    {
      XorBitsMeaning(a, b, 8, k);
    }
  }

  // The machine.

  function Start(): State {
    State(FinAndOpcode, 1, false, 0, Frame(false, 0, 0, false, 0, [], []))
  }

  /** What follows the payload length: the masking key or the payload. */
  function SwitchToMask(s: State): State {
    if s.frame.mask then s.(status := MaskKey, byteNeed := 4, frame := s.frame.(maskKey := []))
    else s.(status := Payload, byteNeed := s.frame.payloadLen)
  }

  /** The octet with the given index in the payload, unmasked when the frame is masked. */
  function Plain(s: State, b: byte): byte
    requires s.frame.mask ==> s.maskIndex < |s.frame.maskKey|
  {
    if s.frame.mask then Xor(b, s.frame.maskKey[s.maskIndex]) else b
  }

  /** The end of a frame: the last frame of a message delivers it. */
  function Complete(s: State): Outcome {
    var next := s.(status := FinAndOpcode, byteNeed := 0, maskIndex := 0, isContinuation := !s.frame.fin);
    Outcome(next, if s.frame.fin then [Message(s.frame.opcode, s.frame.mask, s.frame.payload)] else [], false)
  }

  predicate HasKey(s: State) {
    s.frame.mask ==> |s.frame.maskKey| == 4
  }

  /** What every reachable state keeps. */
  ghost predicate Sound(s: State) {
    && s.maskIndex < 4
    && (s.status == PayloadLen ==> 0 < s.byteNeed <= 8)
    && (s.status == MaskKey ==> 0 < s.byteNeed <= 4 && |s.frame.maskKey| == 4 - s.byteNeed)
    && (s.status == Payload ==> HasKey(s) && (s.byteNeed == 0 ==> s.frame.payloadLen == 0))
    && (s.status != Payload || s.frame.payloadLen > LIMIT_PAYLOAD_LEN ==> s.maskIndex == 0)
  }

  /** A frame without payload waits for the next byte before it completes. */
  predicate Pending(s: State) {
    s.status == Payload && s.byteNeed == 0 && s.frame.payloadLen <= LIMIT_PAYLOAD_LEN
  }

  function FirstByte(s: State, b: byte): State {
    var f := s.frame.(fin := b >= 128, rsv := (b / 16) % 8);
    var opcode := b % 16;
    var g := if !s.isContinuation && opcode != 0 then f.(opcode := opcode, maskKey := [], payload := []) else f;
    s.(status := PayloadLenAndMask, frame := g)
  }

  function SecondByte(s: State, b: byte): State {
    var n := b % 128;
    var t := s.(frame := s.frame.(mask := b >= 128, payloadLen := if n <= 125 then n else 0));
    if n <= 125 then SwitchToMask(t)
    else t.(status := PayloadLen, byteNeed := if n == 126 then 2 else 8)
  }

  function LengthByte(s: State, b: byte): State
    requires s.byteNeed > 0
  {
    var t := s.(byteNeed := s.byteNeed - 1, frame := s.frame.(payloadLen := U64(s.frame.payloadLen * 256 + b)));
    if t.byteNeed == 0 then SwitchToMask(t) else t
  }

  function KeyByte(s: State, b: byte): State
    requires s.byteNeed > 0
  {
    var t := s.(byteNeed := s.byteNeed - 1, frame := s.frame.(maskKey := s.frame.maskKey + [b]));
    if t.byteNeed == 0 then t.(status := Payload, byteNeed := s.frame.payloadLen) else t
  }

  function PayloadByte(s: State, b: byte): State
    requires Sound(s) && s.status == Payload && s.byteNeed > 0
  {
    s.(byteNeed := s.byteNeed - 1, maskIndex := if s.frame.mask then (s.maskIndex + 1) % 4 else s.maskIndex,
       frame := s.frame.(payload := s.frame.payload + [Plain(s, b)]))
  }

  /** A byte for a state that is not waiting to complete. */
  function Take(s: State, b: byte): (o: Outcome)
    requires Sound(s) && !Pending(s)
    ensures Sound(o.state)
  {
    match s.status
    case FinAndOpcode => Outcome(FirstByte(s, b), [], false)
    case PayloadLenAndMask => Outcome(SecondByte(s, b), [], false)
    case PayloadLen => Outcome(LengthByte(s, b), [], false)
    case MaskKey => Outcome(KeyByte(s, b), [], false)
    case Payload =>
      if s.frame.payloadLen > LIMIT_PAYLOAD_LEN then
        Outcome(s.(status := FinAndOpcode, isContinuation := false), [], true)
      else
        var t := PayloadByte(s, b);
        if t.byteNeed == 0 then Complete(t) else Outcome(t, [], false)
  }

  function Prepend(messages: seq<Message>, o: Outcome): Outcome {
    o.(messages := messages + o.messages)
  }

  /** Completes a frame without payload. */
  function Settle(s: State): (o: Outcome)
    requires Sound(s)
    ensures Sound(o.state) && !Pending(o.state) && !o.failed
  {
    if Pending(s) then Complete(s) else Outcome(s, [], false)
  }

  function Feed(s: State, b: byte): (o: Outcome)
    requires Sound(s)
    ensures Sound(o.state)
  {
    var settled := Settle(s);
    Prepend(settled.messages, Take(settled.state, b))
  }

  /** What a stream leads to: the bytes in order, up to the first error. */
  function Run(s: State, bytes: seq<byte>): (o: Outcome)
    requires Sound(s)
    ensures Sound(o.state)
    decreases |bytes|
  {
    if bytes == [] then Outcome(s, [], false)
    else
      var first := Feed(s, bytes[0]);
      if first.failed then first else Prepend(first.messages, Run(first.state, bytes[1..]))
  }

  function Then(o: Outcome, bytes: seq<byte>): Outcome
    requires Sound(o.state)
  {
    if o.failed then o else Prepend(o.messages, Run(o.state, bytes))
  }

  /** Buffers parsed one after the other, up to the first error. */
  function RunChunks(s: State, chunks: seq<seq<byte>>): (o: Outcome)
    requires Sound(s)
    ensures Sound(o.state)
    decreases |chunks|
  {
    if chunks == [] then Outcome(s, [], false)
    else
      var first := Run(s, chunks[0]);
      if first.failed then first else Prepend(first.messages, RunChunks(first.state, chunks[1..]))
  }

  function Concat(chunks: seq<seq<byte>>): seq<byte> {
    if chunks == [] then [] else chunks[0] + Concat(chunks[1..])
  }

  /** Parsing on is the same as parsing it all. */
  lemma {:induction false} RunAppend(s: State, a: seq<byte>, b: seq<byte>)
    requires Sound(s)
    ensures Run(s, a + b) == Then(Run(s, a), b)
    decreases |a|
  {
    hide Take, Settle, Feed;
    if a == [] {
      assert a + b == b;
    } else {
      assert (a + b)[0] == a[0] && (a + b)[1..] == a[1..] + b;
      var first := Feed(s, a[0]);
      if !first.failed {
        RunAppend(first.state, a[1..], b);
      }
    }
  }

  /** However a stream is cut into buffers, the messages, the final state and the failure
      are those of the whole stream. */
  lemma {:induction false} ChunkIndependence(s: State, chunks: seq<seq<byte>>)
    requires Sound(s)
    ensures RunChunks(s, chunks) == Run(s, Concat(chunks))
    decreases |chunks|
  {
    if chunks != [] {
      RunAppend(s, chunks[0], Concat(chunks[1..]));
      var first := Run(s, chunks[0]);
      if !first.failed {
        ChunkIndependence(first.state, chunks[1..]);
      }
    }
  }

  /** Two ways to cut the same stream. */
  lemma SameStream(s: State, a: seq<seq<byte>>, b: seq<seq<byte>>)
    requires Sound(s) && Concat(a) == Concat(b)
    ensures RunChunks(s, a) == RunChunks(s, b)
  {
    ChunkIndependence(s, a);
    ChunkIndependence(s, b);
  }

  // The payload in bulk.

  /** Payload octets, unmasked from the given position of the key on. */
  function Unmask(bytes: seq<byte>, key: seq<byte>, index: nat): (r: seq<byte>)
    requires |key| == 4
    ensures |r| == |bytes|
  {
    seq(|bytes|, i requires 0 <= i < |bytes| => Xor(bytes[i], key[(index + i) % 4]))
  }

  /** Bit by bit: an octet of the plain text differs from that on the wire exactly in the bits
      that are set in the octet of the key it falls on. */
  ghost predicate MaskedBy(plain: seq<byte>, wire: seq<byte>, key: seq<byte>, index: nat)
    requires |key| == 4
  {
    && |plain| == |wire|
    && forall i: nat, k: nat :: i < |wire| && k < 8 ==>
         (Bit(plain[i], k) <==> Bit(wire[i], k) != Bit(key[(index + i) % 4], k))
  }

  lemma UnmaskBits(wire: seq<byte>, key: seq<byte>, index: nat)
    requires |key| == 4
    ensures MaskedBy(Unmask(wire, key, index), wire, key, index)
  {
    hide Xor, Bit;
    forall i: nat, k: nat | i < |wire| && k < 8
      ensures Bit(Unmask(wire, key, index)[i], k) <==> Bit(wire[i], k) != Bit(key[(index + i) % 4], k)
    {
      XorMeaning(wire[i], key[(index + i) % 4]);
    }
  }

  /** The state after several payload octets of a frame. */
  function ReadMany(s: State, bytes: seq<byte>): State
    requires HasKey(s) && s.status == Payload && |bytes| <= s.byteNeed
  {
    var plain := if s.frame.mask then Unmask(bytes, s.frame.maskKey, s.maskIndex) else bytes;
    s.(byteNeed := s.byteNeed - |bytes|,
       maskIndex := if s.frame.mask then (s.maskIndex + |bytes|) % 4 else s.maskIndex,
       frame := s.frame.(payload := s.frame.payload + plain))
  }

  /** The frame is done when no octet is missing. */
  function Finish(s: State): Outcome {
    if s.byteNeed == 0 then Complete(s) else Outcome(s, [], false)
  }

  lemma ReadOne(s: State, bytes: seq<byte>)
    requires Sound(s) && s.status == Payload && 0 < |bytes| <= s.byteNeed
    ensures var t := PayloadByte(s, bytes[0]);
            HasKey(t) && ReadMany(t, bytes[1..]) == ReadMany(s, bytes)
  {
    hide Xor, Unmask;
    var t := PayloadByte(s, bytes[0]);
    if s.frame.mask {
      UnmaskCons(bytes, s.frame.maskKey, s.maskIndex);
      ModNext(s.maskIndex, |bytes| - 1);
    }
    assert [bytes[0]] + bytes[1..] == bytes;
  }

  lemma ModNext(index: nat, i: nat)
    ensures ((index + 1) % 4 + i) % 4 == (index + (i + 1)) % 4
  {
    var a, b := index + 1, (index + 1) % 4 + i;
    DivMod(a, 4);
    DivMod(b, 4);
    DivUnique(index + (i + 1), 4, a / 4 + b / 4, b % 4);
  }

  lemma UnmaskCons(bytes: seq<byte>, key: seq<byte>, index: nat)
    requires |key| == 4 && index < 4 && |bytes| > 0
    ensures Unmask(bytes, key, index) == [Xor(bytes[0], key[index])] + Unmask(bytes[1..], key, (index + 1) % 4)
  {
    hide Xor;
    forall i | 0 < i < |bytes|
      ensures Unmask(bytes, key, index)[i] == Unmask(bytes[1..], key, (index + 1) % 4)[i - 1]
    {
      ModNext(index, i - 1);
    }
  }

  /** Reading a stretch of payload at once is the same as reading it byte by byte. */
  lemma {:induction false} BulkRead(s: State, bytes: seq<byte>, n: nat)
    requires Sound(s) && s.status == Payload && s.frame.payloadLen <= LIMIT_PAYLOAD_LEN
    requires 0 < n <= s.byteNeed && n <= |bytes|
    ensures Sound(Finish(ReadMany(s, bytes[..n])).state)
    ensures Run(s, bytes) == Then(Finish(ReadMany(s, bytes[..n])), bytes[n..])
    decreases n
  {
    hide Xor, Unmask, ReadMany, Plain, HasKey;
    var t := PayloadByte(s, bytes[0]);
    ReadOne(s, bytes[..n]);
    assert bytes[..n][1..] == bytes[1..][..n - 1];
    if n > 1 {
      BulkRead(t, bytes[1..], n - 1);
      assert bytes[1..][n - 1..] == bytes[n..];
    } else {
      ReadNone(t);
    }
  }

  lemma ReadNone(t: State)
    requires HasKey(t) && t.status == Payload && t.maskIndex < 4
    ensures ReadMany(t, []) == t
  {
  }

  /** A byte for a state that is not waiting to complete. */
  lemma RunTake(s: State, bytes: seq<byte>)
    requires Sound(s) && !Pending(s) && bytes != []
    ensures Run(s, bytes) == Then(Take(s, bytes[0]), bytes[1..])
  {
    assert Feed(s, bytes[0]) == Take(s, bytes[0]);
  }

  /** A waiting frame completes before the next byte is taken. */
  lemma RunPending(s: State, bytes: seq<byte>)
    requires Sound(s) && Pending(s) && bytes != []
    ensures Sound(Complete(s).state) && !Pending(Complete(s).state)
    ensures Run(s, bytes) == Then(Complete(s), bytes)
  {
    var t := Complete(s);
    assert Settle(t.state).messages == [];
    assert t.messages + (Take(t.state, bytes[0]).messages + Run(Take(t.state, bytes[0]).state, bytes[1..]).messages)
        == t.messages + Take(t.state, bytes[0]).messages + Run(Take(t.state, bytes[0]).state, bytes[1..]).messages;
  }

  lemma ThenAppend(done: seq<Message>, o: Outcome, bytes: seq<byte>)
    requires Sound(o.state)
    ensures Prepend(done, Then(o, bytes)) == Then(Prepend(done, o), bytes)
  {
  }
}
