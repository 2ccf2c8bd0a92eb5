// The incremental WebSocket parser as it runs: one object that is fed buffers, with the
// payload copied in bulk, and the encoder of the frames the server sends.

module WebSocketParser {
  import opened Arith
  import opened WebSocketSpec

  datatype ParseError = SUCCESS | INVALID_PAYLOAD_LEN

  class WsFrame {
    var fin: bool
    var rsv: nat
    var opcode: nat
    var mask: bool
    var payloadLen: nat
    var maskKey: seq<byte>
    var payload: seq<byte>

    ghost function Value(): Frame
      reads this
    {
      Frame(fin, rsv, opcode, mask, payloadLen, maskKey, payload)
    }

    constructor ()
      ensures Value() == Start().frame
    {
      fin, rsv, opcode, mask, payloadLen, maskKey, payload := false, 0, 0, false, 0, [], [];
    }
  }

  class Parser {
    var status: Status
    var byteNeed: nat
    var isContinuation: bool
    var maskIndex: nat
    var delivered: seq<Message>   // what the completion callback was called with

    constructor ()
      ensures status == FinAndOpcode && byteNeed == 1 && !isContinuation && maskIndex == 0 && delivered == []
      ensures Start() == State(status, byteNeed, isContinuation, maskIndex, Start().frame)
    {
      status, byteNeed, isContinuation, maskIndex, delivered := FinAndOpcode, 1, false, 0, [];
    }

    ghost function Abs(frame: WsFrame): State
      reads this, frame
    {
      State(status, byteNeed, isContinuation, maskIndex, frame.Value())
    }

    /** The effect of a step: the new state and what was delivered. */
    twostate predicate Moved(frame: WsFrame, o: Outcome)
      reads this, frame
    {
      Abs(frame) == o.state && delivered == old(delivered) + o.messages
    }

    method StepFirst(frame: WsFrame, b: byte)
      requires Sound(Abs(frame)) && status == FinAndOpcode
      modifies this, frame
      ensures Moved(frame, Take(old(Abs(frame)), b))
    {
      frame.fin := b >= 128;
      frame.rsv := (b / 16) % 8;
      var opcode := b % 16;
      if !isContinuation && opcode != 0 {
        frame.opcode := opcode;
        frame.maskKey := [];
        frame.payload := [];
      }
      status := PayloadLenAndMask;
    }

    method EnterMask(frame: WsFrame)
      modifies this, frame
      ensures Abs(frame) == SwitchToMask(old(Abs(frame))) && delivered == old(delivered)
    {
      if frame.mask {
        status, byteNeed := MaskKey, 4;
        frame.maskKey := [];
      } else {
        status, byteNeed := Payload, frame.payloadLen;
      }
    }

    method StepSecond(frame: WsFrame, b: byte)
      requires Sound(Abs(frame)) && status == PayloadLenAndMask
      modifies this, frame
      ensures Moved(frame, Take(old(Abs(frame)), b))
    {
      frame.mask := b >= 128;
      frame.payloadLen := b % 128;
      if frame.payloadLen <= 125 {
        EnterMask(frame);
      } else if frame.payloadLen == 126 {
        frame.payloadLen := 0;
        status, byteNeed := PayloadLen, 2;
      } else {
        frame.payloadLen := 0;
        status, byteNeed := PayloadLen, 8;
      }
    }

    method StepLength(frame: WsFrame, b: byte)
      requires Sound(Abs(frame)) && status == PayloadLen
      modifies this, frame
      ensures Moved(frame, Take(old(Abs(frame)), b))
    {
      if byteNeed != 0 {
        frame.payloadLen := U64(frame.payloadLen * 256 + b);
        byteNeed := byteNeed - 1;
      }
      if byteNeed == 0 {
        EnterMask(frame);
      }
    }

    method StepKey(frame: WsFrame, b: byte)
      requires Sound(Abs(frame)) && status == MaskKey
      modifies this, frame
      ensures Moved(frame, Take(old(Abs(frame)), b))
    {
      if byteNeed != 0 {
        frame.maskKey := frame.maskKey + [b];
        byteNeed := byteNeed - 1;
      }
      if byteNeed == 0 {
        status, byteNeed := Payload, frame.payloadLen;
      }
    }

    /** Ends a frame, and delivers the message it may be the last one of. */
    method CompleteFrame(frame: WsFrame)
      modifies this
      ensures Moved(frame, Complete(old(Abs(frame))))
    {
      maskIndex, byteNeed, status := 0, 0, FinAndOpcode;
      if frame.fin {
        isContinuation := false;
        delivered := delivered + [Message(frame.opcode, frame.mask, frame.payload)];
      } else {
        isContinuation := true;
      }
    }

    /** Unmasks n octets of payload, going round the key from the current position. */
    method UnmaskPayload(frame: WsFrame, data: array<byte>, ch: nat, n: nat)
      requires |frame.maskKey| == 4 && maskIndex < 4 && ch + n <= data.Length
      modifies this`maskIndex, frame`payload
      ensures frame.payload == old(frame.payload) + Unmask(data[ch..ch + n], frame.maskKey, old(maskIndex))
      ensures maskIndex == (old(maskIndex) + n) % 4
      ensures |frame.payload| == |old(frame.payload)| + n
      ensures MaskedBy(frame.payload[|old(frame.payload)|..], data[ch..ch + n], frame.maskKey, old(maskIndex))
    {
      hide Unmask, Xor, MaskedBy;
      ghost var start, before, bytes := maskIndex, frame.payload, data[ch..ch + n];
      UnmaskNone(frame.maskKey, start);
      for i := 0 to n
        invariant data[ch..ch + n] == bytes && frame.maskKey == old(frame.maskKey)
        invariant frame.payload == before + Unmask(bytes[..i], frame.maskKey, start)
        invariant maskIndex == (start + i) % 4
      {
        assert data[ch + i] == bytes[i];
        UnmaskNext(bytes, i, frame.maskKey, start);
        frame.payload := frame.payload + [Xor(data[ch + i], frame.maskKey[maskIndex])];
        NextIndex(start, i);
        maskIndex := (maskIndex + 1) % 4;
      }
      assert bytes[..n] == bytes;
      UnmaskBits(bytes, frame.maskKey, start);
      assert frame.payload[|before|..] == Unmask(bytes, frame.maskKey, start);
    }

    /** Copies n octets of payload from position ch on, unmasking them if need be. */
    method CopyPayload(frame: WsFrame, data: array<byte>, ch: nat, n: nat)
      requires Sound(Abs(frame)) && status == Payload && n <= byteNeed && ch + n <= data.Length
      modifies this, frame
      ensures Abs(frame) == ReadMany(old(Abs(frame)), data[ch..ch + n]) && delivered == old(delivered)
    {
      hide Unmask, Xor;
      if frame.mask {
        UnmaskPayload(frame, data, ch, n);
      } else {
        frame.payload := frame.payload + data[ch..ch + n];
      }
      byteNeed := byteNeed - n;
    }

    /** The payload part of a round: the bytes at hand, or none when the frame has none. */
    method StepPayload(data: array<byte>, ch: nat, len: nat, frame: WsFrame) returns (next: int, ghost o: Outcome)
      requires ch < len <= data.Length && Sound(Abs(frame)) && status == Payload
      requires frame.payloadLen <= LIMIT_PAYLOAD_LEN
      modifies this, frame
      ensures ch <= next + 1 <= len && (next + 1 == ch ==> Pending(old(Abs(frame))) && status != Payload)
      ensures Moved(frame, o) && Sound(o.state) && !o.failed
      ensures Run(old(Abs(frame)), data[ch..len]) == Then(o, data[next + 1..len])
    {
      hide Run, ReadMany, Take;
      ghost var s, rest := Abs(frame), data[ch..len];
      var toRead := Min(len - ch, byteNeed);
      if toRead == 0 {
        NothingToRead(s, rest);
        o := Complete(s);
      } else {
        assert rest[..toRead] == data[ch..ch + toRead] && rest[toRead..] == data[ch + toRead..len];
        BulkRead(s, rest, toRead);
        o := Finish(ReadMany(s, data[ch..ch + toRead]));
      }
      CopyPayload(frame, data, ch, toRead);
      next := ch + toRead - 1;
      if byteNeed == 0 {
        CompleteFrame(frame);
      }
    }

    /** One round of the loop: consumes at least a byte, unless it completes a frame that
        has no payload. */
    method Step(data: array<byte>, ch: nat, len: nat, frame: WsFrame)
      returns (next: nat, err: ParseError, ghost o: Outcome)
      requires ch < len <= data.Length && Sound(Abs(frame))
      modifies this, frame
      ensures Moved(frame, o) && Sound(o.state) && err == (if o.failed then INVALID_PAYLOAD_LEN else SUCCESS)
      ensures ch <= next <= len && (next == ch && !o.failed ==> Pending(old(Abs(frame))) && !Pending(o.state))
      ensures Run(old(Abs(frame)), data[ch..len]) == Then(o, data[next..len])
    {
      hide Run, Take;
      ghost var s, rest := Abs(frame), data[ch..len];
      assert rest[1..] == data[ch + 1..len];
      if !Pending(s) {
        RunTake(s, rest);
        o := Take(s, data[ch]);
      }
      err, next := SUCCESS, ch;
      match status {
        case FinAndOpcode =>
          StepFirst(frame, data[ch]);
        case PayloadLenAndMask =>
          StepSecond(frame, data[ch]);
        case PayloadLen =>
          StepLength(frame, data[ch]);
        case MaskKey =>
          StepKey(frame, data[ch]);
        case Payload =>
          if frame.payloadLen > LIMIT_PAYLOAD_LEN {
            TooLong(s, data[ch]);
            status := FinAndOpcode;
            isContinuation := false;
            return next, INVALID_PAYLOAD_LEN, o;
          }
          var c;
          c, o := StepPayload(data, ch, len, frame);
          return c + 1, SUCCESS, o;
      }
      NoFailure(s, data[ch]);
      next := ch + 1;
    }

    /** Parses the first len bytes of a buffer. */
    method Parse(data: array<byte>, len: nat, frame: WsFrame) returns (err: ParseError)
      requires len <= data.Length && Sound(Abs(frame))
      modifies this, frame
      ensures var o := Run(old(Abs(frame)), data[..len]);
              Moved(frame, o) && Sound(Abs(frame)) && err == (if o.failed then INVALID_PAYLOAD_LEN else SUCCESS)
    {
      hide Sound, Run, Pending;
      ghost var goal, done := Run(Abs(frame), data[..len]), [];
      var ch: nat := 0;
      while ch != len
        invariant ch <= len && Sound(Abs(frame)) && delivered == old(delivered) + done
        invariant goal == Prepend(done, Run(Abs(frame), data[ch..len]))
        decreases len - ch, if Pending(Abs(frame)) then 1 else 0
      {
        ghost var o: Outcome;
        ch, err, o := Step(data, ch, len, frame);
        ThenAppend(done, o, data[ch..len]);
        done := done + o.messages;
        if err != SUCCESS {
          return;
        }
      }
      RunNone(Abs(frame));
      assert data[len..len] == [];
      err := SUCCESS;
    }
  }

  lemma RunNone(s: State)
    requires Sound(s)
    ensures Run(s, []) == Outcome(s, [], false)
  {
  }

  lemma UnmaskNone(key: seq<byte>, index: nat)
    requires |key| == 4
    ensures Unmask([], key, index) == []
  {
  }

  lemma NothingToRead(s: State, rest: seq<byte>)
    requires Sound(s) && s.status == Payload && s.frame.payloadLen <= LIMIT_PAYLOAD_LEN && s.byteNeed == 0 && rest != []
    ensures Pending(s) && Sound(Complete(s).state) && Run(s, rest) == Then(Complete(s), rest)
    ensures forall bytes: seq<byte> :: bytes == [] ==> ReadMany(s, bytes) == s
  {
    hide Run;
    RunPending(s, rest);
    ReadNone(s);
  }

  lemma NoFailure(s: State, b: byte)
    requires Sound(s) && s.status != Payload
    ensures !Take(s, b).failed
  {
  }

  lemma TooLong(s: State, b: byte)
    requires Sound(s) && s.status == Payload && s.frame.payloadLen > LIMIT_PAYLOAD_LEN
    ensures Take(s, b) == Outcome(s.(status := FinAndOpcode, isContinuation := false), [], true)
  {
  }

  /** The position of the key goes round. */
  lemma NextIndex(start: nat, i: nat)
    ensures ((start + i) % 4 + 1) % 4 == (start + (i + 1)) % 4
  {
    DivMod(start + i, 4);
    DivMod((start + i) % 4 + 1, 4);
    DivUnique(start + (i + 1), 4, (start + i) / 4 + ((start + i) % 4 + 1) / 4, ((start + i) % 4 + 1) % 4);
  }

  /** One more octet. */
  lemma UnmaskNext(bytes: seq<byte>, i: nat, key: seq<byte>, start: nat)
    requires i < |bytes| && |key| == 4
    ensures Unmask(bytes[..i + 1], key, start) == Unmask(bytes[..i], key, start) + [Xor(bytes[i], key[(start + i) % 4])]
  {
    hide Unmask, Xor;
    assert bytes[..i] + [bytes[i]] == bytes[..i + 1];
    UnmaskPush(bytes[..i], bytes[i], key, start);
  }

  lemma UnmaskPush(bytes: seq<byte>, b: byte, key: seq<byte>, index: nat)
    requires |key| == 4
    ensures Unmask(bytes + [b], key, index) == Unmask(bytes, key, index) + [Xor(b, key[(index + |bytes|) % 4])]
  {
    hide Xor;
  }
}
