// Encoded frames and what the parser makes of them: every message, fragmented or not,
// masked or not, is delivered once and whole, however the stream is cut into buffers.

module WebSocketFrames {
  import opened Arith
  import opened WebSocketSpec

  /** One frame of a message. */
  datatype Fragment = Fragment(fin: bool, opcode: nat, mask: bool, key: seq<byte>, payload: seq<byte>)

  predicate GoodFragment(f: Fragment) {
    f.opcode < 16 && |f.key| == 4 && |f.payload| <= LIMIT_PAYLOAD_LEN
  }

  /** n without its k lowest octets. */
  function Shr(n: nat, k: nat): nat {
    if k == 0 then n else Shr(n, k - 1) / 256
  }

  /** The k lowest octets of n, highest first. */
  function BigEndian(n: nat, k: nat): (s: seq<byte>)
    ensures |s| == k
  {
    if k == 0 then [] else [Shr(n, k - 1) % 256] + BigEndian(n, k - 1)
  }

  function LengthBytes(n: nat, mask: bool): seq<byte> {
    var bit := if mask then 128 else 0;
    if n < 126 then [bit + n]
    else if n < 0x10000 then [bit + 126] + BigEndian(n, 2)
    else [bit + 127] + BigEndian(n, 8)
  }

  function FirstOctet(fin: bool, opcode: nat): byte
    requires opcode < 16
  {
    (if fin then 128 else 0) + opcode
  }

  /** The header of a frame: the first octet, the length, and the key of a masked frame. */
  function Header(fin: bool, opcode: nat, n: nat, mask: bool, key: seq<byte>): seq<byte>
    requires opcode < 16 && n < TWO64
  {
    [FirstOctet(fin, opcode)] + LengthBytes(n, mask) + (if mask then key else [])
  }

  function Encode(f: Fragment): seq<byte>
    requires GoodFragment(f)
  {
    Header(f.fin, f.opcode, |f.payload|, f.mask, f.key) + (if f.mask then Unmask(f.payload, f.key, 0) else f.payload)
  }

  /** Waiting for the first byte of a frame. */
  predicate AtFrame(s: State) {
    s.status == FinAndOpcode
  }

  /** The state after a frame, and what it delivers. */
  function AfterFrame(s: State, f: Fragment): Outcome {
    var reset := !s.isContinuation && f.opcode != 0;
    var payload := (if reset then [] else s.frame.payload) + f.payload;
    var opcode := if reset then f.opcode else s.frame.opcode;
    var key := if f.mask then f.key else if reset then [] else s.frame.maskKey;
    var frame := Frame(f.fin, 0, opcode, f.mask, |f.payload|, key, payload);
    Outcome(State(FinAndOpcode, 0, !f.fin, 0, frame), if f.fin then [Message(opcode, f.mask, payload)] else [], false)
  }

  /** Parsing followed by the completion of a frame without payload that is waiting. */
  function RunSettled(s: State, bytes: seq<byte>): (o: Outcome)
    requires Sound(s)
    ensures Sound(o.state)
  {
    var o := Run(s, bytes);
    if o.failed then o else Prepend(o.messages, Settle(o.state))
  }

  // Length octets.

  lemma {:induction false} ShrBound(n: nat, k: nat)
    ensures Shr(n, k) * Pow(256, k) <= n
  {
    if k > 0 {
      ShrBound(n, k - 1);
      var a, p := Shr(n, k - 1), Pow(256, k - 1);
      MulAssoc(a / 256, 256, p);
      MulMono(a / 256 * 256, a, p);
    }
  }

  lemma ShrZero(n: nat)
    ensures n < 0x10000 ==> Shr(n, 2) == 0
    ensures n < TWO64 ==> Shr(n, 8) == 0
  {
    ShrBound(n, 2);
    ShrBound(n, 8);
    Powers256();
    if Shr(n, 8) >= 1 {
      MulMono(1, Shr(n, 8), Pow(256, 8));
    }
  }

  lemma Powers256()
    ensures Pow(256, 2) == 0x10000 && Pow(256, 8) == TWO64
  {
    hide Pow;
    Power256Small();
    PowAdd(256, 2, 2);
    PowAdd(256, 4, 4);
  }

  lemma Power256Small()
    ensures Pow(256, 2) == 0x10000
  {
  }

  lemma {:induction false} LengthRun(s: State, n: nat, k: nat)
    requires Sound(s) && s.status == PayloadLen && s.byteNeed == k > 0 && n < TWO64
    requires s.frame.payloadLen == Shr(n, k)
    ensures var t := SwitchToMask(s.(byteNeed := 0, frame := s.frame.(payloadLen := n)));
            Sound(t) && Run(s, BigEndian(n, k)) == Outcome(t, [], false)
    decreases k
  {
    hide Run, Settle;
    var bytes := BigEndian(n, k);
    RunTake(s, bytes);
    assert bytes[1..] == BigEndian(n, k - 1);
    var t := LengthByte(s, bytes[0]);
    ShrBound(n, k - 1);
    MulMono(1, Pow(256, k - 1), Shr(n, k - 1));
    assert s.frame.payloadLen * 256 + bytes[0] == Shr(n, k - 1);
    if k > 1 {
      LengthRun(t, n, k - 1);
    } else {
      RunEmpty(t);
      assert Shr(n, 0) == n;
    }
  }

  lemma RunEmpty(s: State)
    requires Sound(s)
    ensures Run(s, []) == Outcome(s, [], false)
  {
  }

  /** The length octets lead to the masking key or the payload. */
  lemma LengthBytesRun(s: State, n: nat, mask: bool)
    requires Sound(s) && s.status == PayloadLenAndMask && n < TWO64
    ensures var t := SwitchToMask(s.(byteNeed := 0, frame := s.frame.(mask := mask, payloadLen := n)));
            Sound(t) && Run(s, LengthBytes(n, mask)) == Outcome(t, [], false)
  {
    hide Run, Settle, Sound, BigEndian;
    var bytes := LengthBytes(n, mask);
    RunTake(s, bytes);
    var t := SecondByte(s, bytes[0]);
    ShrZero(n);
    if n < 126 {
      RunEmpty(t);
      assert bytes[1..] == [];
    } else {
      var k := if n < 0x10000 then 2 else 8;
      assert bytes[1..] == BigEndian(n, k);
      LengthRun(t, n, k);
    }
  }

  lemma {:induction false} KeyRun(s: State, key: seq<byte>)
    requires Sound(s) && s.status == MaskKey && |key| == s.byteNeed
    ensures var t := s.(status := Payload, byteNeed := s.frame.payloadLen,
                        frame := s.frame.(maskKey := s.frame.maskKey + key));
            Sound(t) && Run(s, key) == Outcome(t, [], false)
    decreases |key|
  {
    hide Run, Settle;
    RunTake(s, key);
    var t := KeyByte(s, key[0]);
    if |key| > 1 {
      KeyRun(t, key[1..]);
      assert s.frame.maskKey + [key[0]] + key[1..] == s.frame.maskKey + key;
    } else {
      RunEmpty(t);
      assert key == [key[0]];
    }
  }

  /** Unmasking what was masked with the same key. */
  lemma UnmaskTwice(payload: seq<byte>, key: seq<byte>, index: nat)
    requires |key| == 4
    ensures Unmask(Unmask(payload, key, index), key, index) == payload
  {
    hide Xor;
    forall i | 0 <= i < |payload|
      ensures Unmask(Unmask(payload, key, index), key, index)[i] == payload[i]
    {
      XorTwice(payload[i], key[(index + i) % 4]);
    }
  }

  /** The state a frame's payload starts in. */
  predicate AtPayload(s: State, f: Fragment) {
    && s.status == Payload && s.maskIndex == 0 && s.byteNeed == s.frame.payloadLen == |f.payload|
    && s.frame.mask == f.mask && (f.mask ==> s.frame.maskKey == f.key)
  }

  function Masked(f: Fragment): seq<byte>
    requires |f.key| == 4
  {
    if f.mask then Unmask(f.payload, f.key, 0) else f.payload
  }

  /** The payload is appended in plain, and the frame completes. */
  lemma PayloadRun(s: State, f: Fragment)
    requires GoodFragment(f) && Sound(s) && AtPayload(s, f)
    ensures RunSettled(s, Masked(f)) == Complete(s.(frame := s.frame.(payload := s.frame.payload + f.payload)))
  {
    hide Run, Unmask;
    var bytes := Masked(f);
    if f.payload == [] {
      assert bytes == [];
      RunEmpty(s);
      assert s.frame.payload + f.payload == s.frame.payload;
    } else {
      BulkRead(s, bytes, |bytes|);
      assert bytes[..|bytes|] == bytes && bytes[|bytes|..] == [];
      if f.mask {
        UnmaskTwice(f.payload, f.key, 0);
      }
      var o := Finish(ReadMany(s, bytes));
      RunEmpty(o.state);
    }
  }

  /** Headers are never taken for a waiting frame, so what follows may be settled last. */
  lemma SettledAppend(s: State, a: seq<byte>, b: seq<byte>)
    requires Sound(s) && !Run(s, a).failed
    ensures RunSettled(s, a + b) == Prepend(Run(s, a).messages, RunSettled(Run(s, a).state, b))
  {
    hide Run, Settle;
    RunAppend(s, a, b);
    var o, u := Run(s, a), Run(Run(s, a).state, b);
    assert o.messages + (u.messages + Settle(u.state).messages) == o.messages + u.messages + Settle(u.state).messages;
  }

  /** The state after a header: the payload is next. */
  function AfterHeader(s: State, fin: bool, opcode: nat, n: nat, mask: bool, key: seq<byte>): State
    requires opcode < 16
  {
    var t := FirstByte(s, FirstOctet(fin, opcode)).frame;
    s.(status := Payload, byteNeed := n,
       frame := t.(mask := mask, payloadLen := n, maskKey := if mask then key else t.maskKey))
  }

  /** A header leads to its payload. */
  lemma HeaderRun(s: State, fin: bool, opcode: nat, n: nat, mask: bool, key: seq<byte>)
    requires Sound(s) && AtFrame(s) && opcode < 16 && n < TWO64 && |key| == 4
    ensures Run(s, Header(fin, opcode, n, mask, key)) == Outcome(AfterHeader(s, fin, opcode, n, mask, key), [], false)
  {
    hide Run, Settle, LengthBytes;
    var octet, length, rest := [FirstOctet(fin, opcode)], LengthBytes(n, mask), if mask then key else [];
    RunTake(s, octet);
    assert octet[1..] == [];
    var s1 := FirstByte(s, octet[0]);
    RunEmpty(s1);
    LengthBytesRun(s1, n, mask);
    var s2 := Run(s1, length).state;
    RunEmpty(s2);
    if mask {
      KeyRun(s2, key);
      assert [] + key == key;
    }
    RunAppend(s, octet, length);
    RunAppend(s, octet + length, rest);
  }

  /** A frame, from its first byte on. */
  lemma FrameRun(s: State, f: Fragment)
    requires GoodFragment(f) && Sound(s) && AtFrame(s)
    ensures RunSettled(s, Encode(f)) == AfterFrame(s, f)
  {
    hide Run, Settle, Unmask, RunSettled, Header;
    HeaderRun(s, f.fin, f.opcode, |f.payload|, f.mask, f.key);
    var t := AfterHeader(s, f.fin, f.opcode, |f.payload|, f.mask, f.key);
    SettledAppend(s, Header(f.fin, f.opcode, |f.payload|, f.mask, f.key), Masked(f));
    PayloadRun(t, f);
  }

  /** A frame with a payload completes with its last byte. */
  lemma FrameAtOnce(s: State, f: Fragment)
    requires GoodFragment(f) && Sound(s) && AtFrame(s) && f.payload != []
    ensures Run(s, Encode(f)) == AfterFrame(s, f)
  {
    hide Run, Encode;
    FrameRun(s, f);
    assert !Pending(Run(s, Encode(f)).state);
  }

  // Messages.

  function EncodeAll(fragments: seq<Fragment>): seq<byte>
    requires forall f :: f in fragments ==> GoodFragment(f)
  {
    if fragments == [] then [] else Encode(fragments[0]) + EncodeAll(fragments[1..])
  }

  function Payloads(fragments: seq<Fragment>): seq<byte> {
    if fragments == [] then [] else fragments[0].payload + Payloads(fragments[1..])
  }

  /** The frames after the first of a message: continuation frames, only the last final. */
  ghost predicate IsTail(fragments: seq<Fragment>) {
    && |fragments| > 0
    && (forall i :: 0 <= i < |fragments| ==> GoodFragment(fragments[i]) && fragments[i].opcode == 0)
    && (forall i :: 0 <= i < |fragments| ==> (fragments[i].fin <==> i == |fragments| - 1))
  }

  /** A message: one frame, or a first frame and continuation frames. */
  ghost predicate IsMessage(fragments: seq<Fragment>) {
    && |fragments| > 0 && GoodFragment(fragments[0]) && fragments[0].opcode != 0
    && (fragments[0].fin <==> |fragments| == 1)
    && (|fragments| > 1 ==> IsTail(fragments[1..]))
  }

  /** What a message is delivered as: the opcode of its first frame, all payloads. */
  function MessageOf(fragments: seq<Fragment>): Message
    requires |fragments| > 0
  {
    Message(fragments[0].opcode, fragments[|fragments| - 1].mask, Payloads(fragments))
  }

  /** What follows an encoded frame finds it completed, with or without payload. */
  lemma SettledThen(s: State, a: seq<byte>, b: seq<byte>)
    requires Sound(s) && b != [] && !RunSettled(s, a).failed
    ensures RunSettled(s, a + b) == Prepend(RunSettled(s, a).messages, RunSettled(RunSettled(s, a).state, b))
  {
    hide Run, Take;
    var o := Run(s, a);
    RunAppend(s, a, b);
    if Pending(o.state) {
      RunPending(o.state, b);
    }
    var t := RunSettled(s, a);
    var u := Run(t.state, b);
    assert o.messages + (Settle(o.state).messages + u.messages) == t.messages + u.messages;
    assert t.messages + (u.messages + Settle(u.state).messages) == t.messages + u.messages + Settle(u.state).messages;
  }

  /** Between messages. */
  predicate Idle(s: State) {
    AtFrame(s) && !s.isContinuation && s.maskIndex == 0
  }

  lemma {:induction false} TailRun(s: State, fragments: seq<Fragment>)
    requires Sound(s) && AtFrame(s) && s.isContinuation && IsTail(fragments)
    ensures var o := RunSettled(s, EncodeAll(fragments));
            && Idle(o.state) && !o.failed
            && o.messages == [Message(s.frame.opcode, fragments[|fragments| - 1].mask,
                                      s.frame.payload + Payloads(fragments))]
    decreases |fragments|
  {
    hide Run, RunSettled, Encode;
    var f, rest := fragments[0], fragments[1..];
    FrameRun(s, f);
    if rest == [] {
      assert Encode(f) + EncodeAll(rest) == Encode(f);
      assert s.frame.payload + Payloads(fragments) == s.frame.payload + f.payload;
    } else {
      NotEmpty(rest);
      SettledThen(s, Encode(f), EncodeAll(rest));
      var t := AfterFrame(s, f).state;
      TailRun(t, rest);
      assert s.frame.payload + f.payload + Payloads(rest) == s.frame.payload + Payloads(fragments);
    }
  }

  lemma NotEmpty(fragments: seq<Fragment>)
    requires |fragments| > 0 && forall f :: f in fragments ==> GoodFragment(f)
    ensures EncodeAll(fragments) != []
  {
  }

  /** A message is delivered once, with the payloads of its frames in order, and the parser
      is ready for the next one. */
  lemma MessageRun(s: State, fragments: seq<Fragment>)
    requires Sound(s) && Idle(s) && IsMessage(fragments)
    ensures var o := RunSettled(s, EncodeAll(fragments));
            Idle(o.state) && !o.failed && o.messages == [MessageOf(fragments)]
  {
    hide Run, RunSettled, Encode;
    var f, rest := fragments[0], fragments[1..];
    FrameRun(s, f);
    if rest == [] {
      assert Encode(f) + EncodeAll(rest) == Encode(f);
      assert [] + f.payload == f.payload + Payloads(rest);
    } else {
      NotEmpty(rest);
      SettledThen(s, Encode(f), EncodeAll(rest));
      TailRun(AfterFrame(s, f).state, rest);
      assert [] + f.payload + Payloads(rest) == Payloads(fragments);
    }
  }

  ghost predicate AreMessages(stream: seq<seq<Fragment>>) {
    forall i :: 0 <= i < |stream| ==> IsMessage(stream[i])
  }

  lemma MessageFragments(fragments: seq<Fragment>)
    requires IsMessage(fragments)
    ensures forall f :: f in fragments ==> GoodFragment(f)
  {
    forall f | f in fragments
      ensures GoodFragment(f)
    {
      var i :| 0 <= i < |fragments| && fragments[i] == f;
      if i > 0 {
        assert f == fragments[1..][i - 1];
      }
    }
  }

  ghost function EncodeStream(stream: seq<seq<Fragment>>): seq<byte>
    requires AreMessages(stream)
  {
    if stream == [] then []
    else
      MessageFragments(stream[0]);
      EncodeAll(stream[0]) + EncodeStream(stream[1..])
  }

  ghost function MessagesOf(stream: seq<seq<Fragment>>): seq<Message>
    requires AreMessages(stream)
  {
    if stream == [] then [] else [MessageOf(stream[0])] + MessagesOf(stream[1..])
  }

  lemma {:induction false} StreamRun(s: State, stream: seq<seq<Fragment>>)
    requires Sound(s) && Idle(s) && AreMessages(stream)
    ensures var o := RunSettled(s, EncodeStream(stream));
            Idle(o.state) && !o.failed && o.messages == MessagesOf(stream)
    decreases |stream|
  {
    hide Run, RunSettled, EncodeAll;
    if stream == [] {
      IdleEmpty(s);
    } else {
      MessageFragments(stream[0]);
      MessageRun(s, stream[0]);
      var rest := EncodeStream(stream[1..]);
      var t := RunSettled(s, EncodeAll(stream[0])).state;
      StreamRun(t, stream[1..]);
      if rest == [] {
        assert EncodeAll(stream[0]) + rest == EncodeAll(stream[0]);
        IdleEmpty(t);
        assert RunSettled(t, rest).messages == [];
      } else {
        SettledThen(s, EncodeAll(stream[0]), rest);
      }
    }
  }

  lemma IdleEmpty(s: State)
    requires Sound(s) && AtFrame(s)
    ensures RunSettled(s, []) == Outcome(s, [], false)
  {
  }

  /** Any stream of messages, each in any number of frames with or without masks and
      payloads, cut into buffers in any way, is delivered message by message. What a last
      frame without payload delivers waits for the next byte. */
  lemma Reassembly(s: State, stream: seq<seq<Fragment>>, chunks: seq<seq<byte>>)
    requires Sound(s) && Idle(s) && AreMessages(stream) && Concat(chunks) == EncodeStream(stream)
    ensures var o := RunChunks(s, chunks);
            && !o.failed && o.messages + Settle(o.state).messages == MessagesOf(stream)
            && Idle(Settle(o.state).state)
  {
    hide Run;
    ChunkIndependence(s, chunks);
    StreamRun(s, stream);
  }

  /** A payload length above the limit is refused with the first byte after the header,
      masked or not, and only then. */
  lemma LimitEnforced(s: State, fin: bool, opcode: nat, n: nat, mask: bool, key: seq<byte>, b: byte)
    requires Sound(s) && AtFrame(s) && opcode < 16 && n < TWO64 && |key| == 4
    ensures Run(s, Header(fin, opcode, n, mask, key) + [b]).failed <==> n > 0x10_0000
    ensures !Run(s, Header(fin, opcode, n, mask, key)).failed
  {
    hide Run, Settle, Header, Feed;
    HeaderRun(s, fin, opcode, n, mask, key);
    RunAppend(s, Header(fin, opcode, n, mask, key), [b]);
    LastByte(AfterHeader(s, fin, opcode, n, mask, key), b);
  }

  lemma LastByte(s: State, b: byte)
    requires Sound(s) && s.status == Payload && s.byteNeed == s.frame.payloadLen
    ensures Run(s, [b]).failed <==> s.frame.payloadLen > LIMIT_PAYLOAD_LEN
  {
    hide Xor;
    var o := Feed(s, b);
    assert [b][1..] == [];
    if !o.failed {
      RunEmpty(o.state);
    }
  }

  // The frames the server sends: final, without a mask.

  /** The header of a frame for a payload of the given length. */
  method FrameHeader(opcode: nat, payloadLen: nat) returns (header: seq<byte>)
    requires opcode < 16 && payloadLen < TWO64
    ensures header == [FirstOctet(true, opcode)] + LengthBytes(payloadLen, false)
  {
    header := [128 + opcode];
    if payloadLen < 126 {
      header := header + [payloadLen];
    } else if payloadLen < 0x10000 {
      header := header + [126];
      header := header + [(payloadLen / 256) % 256];
      header := header + [payloadLen % 256];
      TwoOctets(payloadLen);
    } else {
      header := header + [127];
      header := LongLength(header, payloadLen);
    }
  }

  /** Appends the eight octets of a length, highest first. */
  method LongLength(start: seq<byte>, payloadLen: nat) returns (header: seq<byte>)
    ensures header == start + BigEndian(payloadLen, 8)
  {
    hide BigEndian;
    header := start;
    var i := 7;
    while i >= 0
      invariant -1 <= i <= 7
      invariant header + BigEndian(payloadLen, i + 1) == start + BigEndian(payloadLen, 8)
    {
      NextOctet(payloadLen, i);
      assert header + ([Shr(payloadLen, i) % 256] + BigEndian(payloadLen, i))
          == header + [Shr(payloadLen, i) % 256] + BigEndian(payloadLen, i);
      header := header + [Shr(payloadLen, i) % 256];
      i := i - 1;
    }
    NoOctets(payloadLen);
    assert header + [] == header;
  }

  lemma NextOctet(n: nat, i: nat)
    ensures BigEndian(n, i + 1) == [Shr(n, i) % 256] + BigEndian(n, i)
  {
  }

  lemma NoOctets(n: nat)
    ensures BigEndian(n, 0) == []
  {
  }

  lemma TwoOctets(n: nat)
    ensures BigEndian(n, 2) == [(n / 256) % 256, n % 256]
  {
    assert Shr(n, 0) == n && Shr(n, 1) == n / 256;
    assert BigEndian(n, 0) == [];
    assert BigEndian(n, 1) == [n % 256] + BigEndian(n, 0);
    assert BigEndian(n, 2) == [(n / 256) % 256] + BigEndian(n, 1);
  }

  /** A frame of the server with 1 to 2^20 octets of payload parses back at once. */
  lemma ServerFrame(s: State, opcode: nat, payload: seq<byte>)
    requires Sound(s) && Idle(s) && 0 < opcode < 16 && 0 < |payload| <= LIMIT_PAYLOAD_LEN
    ensures var o := Run(s, [FirstOctet(true, opcode)] + LengthBytes(|payload|, false) + payload);
            Idle(o.state) && !o.failed && o.messages == [Message(opcode, false, payload)]
  {
    hide Run, RunSettled, LengthBytes;
    var f := Fragment(true, opcode, false, [0, 0, 0, 0], payload);
    FrameAtOnce(s, f);
    assert Encode(f) == [FirstOctet(true, opcode)] + LengthBytes(|payload|, false) + payload;
    assert [] + payload == payload;
  }
}
