/** The frame decoder and the frame encoders (internal/msp/framing.go). */
module Framing {
  import opened Bytes
  import opened Registers
  import opened Crc
  import CrcTheory
  import Format
  import Streams
  import opened Wire
  import opened DecoderSteps

  /** A decoded frame; its payload is an array of its own. */
  datatype Received = Received(version: int, direction: byte, code: nat, payload: array<byte>)

  /** What a decoded frame says. */
  ghost predicate Says(f: Received, m: Message)
    reads f.payload
  {
    m == Message(f.version, f.direction, f.code, f.payload[..])
  }

  /** CRC8DVBS2(payload, CRC8DVBS2(header, 0)) is the checksum of both in one pass. */
  method ContinuedCrc(table: array<Reg>, header: seq<byte>, payload: seq<byte>) returns (crc: byte)
    requires TableReady(table)
    ensures crc == Checksum(2, header + payload)
  {
    var first := Crc8DvbS2(table, header, Reg(0));
    var whole := Crc8DvbS2(table, payload, first);
    CrcTheory.DvbConcat(header, payload, Reg(0));
    crc := ToByte(whole);
  }

  /** A v1 request. The length byte is the payload length modulo 256. */
  method EncodeV1(code: byte, payload: seq<byte>) returns (buf: seq<byte>)
    ensures buf == Frame(Checksum, Message(1, TO_FC, code, payload), 0) && Format.IsRequestV1(buf, code, payload)
  {
    hide Format.IsRequestV1, Frame, Body, Lo, XorAll;
    buf := [DOLLAR, LETTER_M, TO_FC];
    buf := buf + [Lo(|payload|), code];
    buf := buf + payload;
    AssembledV1(code, payload);
    var crc := Crc8Xor(buf[3..]);
    buf := buf + [ToByte(crc)];
    Format.RequestV1InBytes(code, payload);
  }

  lemma AssembledV1(code: byte, payload: seq<byte>)
    ensures var buf := [DOLLAR, LETTER_M, TO_FC] + [Lo(|payload|), code] + payload;
            Frame(Checksum, Message(1, TO_FC, code, payload), 0) == buf + [ToByte(XorAll(buf[3..]))]
  {
    assert Lo(code) == code;
    hide Lo, XorAll, ToByte;
    var body := Body(Message(1, TO_FC, code, payload), 0);
    var pre := [DOLLAR, LETTER_M, TO_FC];
    assert (pre + [Lo(|payload|), code] + payload)[3..] == body && pre + [Lo(|payload|), code] + payload == pre + body;
    Streams.Associative(pre, body, [ToByte(XorAll(body))]);
  }

  /** A v2 request. The length field is the payload length modulo 65536. */
  method EncodeV2(table: array<Reg>, code: nat, payload: seq<byte>) returns (buf: seq<byte>)
    requires TableReady(table) && code < 65536
    ensures buf == Frame(Checksum, Message(2, TO_FC, code, payload), 0) && Format.IsRequestV2(buf, code, payload)
  {
    hide Format.IsRequestV2, Frame, Body, Lo, Hi, Dvb, TableReady;
    buf := [DOLLAR, LETTER_X, TO_FC];
    buf := buf + [0];
    buf := buf + [Lo(code), Hi(code)];
    buf := buf + [Lo(|payload|), Hi(|payload|)];
    buf := buf + payload;
    AssembledV2(code, payload);
    var crc := Crc8DvbS2(table, buf[3..], Reg(0));
    buf := buf + [ToByte(crc)];
    Format.RequestV2InBytes(code, payload);
  }

  lemma AssembledV2(code: nat, payload: seq<byte>)
    ensures var buf := [DOLLAR, LETTER_X, TO_FC] + [0] + [Lo(code), Hi(code)] + [Lo(|payload|), Hi(|payload|)] + payload;
            Frame(Checksum, Message(2, TO_FC, code, payload), 0) == buf + [ToByte(Dvb(buf[3..], Reg(0)))]
  {
    hide Lo, Hi, Dvb, ToByte;
    var body := Body(Message(2, TO_FC, code, payload), 0);
    BehindPreamble([DOLLAR, LETTER_X, TO_FC], [0], [Lo(code), Hi(code)], [Lo(|payload|), Hi(|payload|)], payload);
    assert [0] + [Lo(code), Hi(code)] + [Lo(|payload|), Hi(|payload|)] + payload == body;
    Streams.Associative([DOLLAR, LETTER_X, TO_FC], body, [ToByte(Dvb(body, Reg(0)))]);
  }

  lemma BehindPreamble<T>(pre: seq<T>, a: seq<T>, b: seq<T>, c: seq<T>, d: seq<T>)
    requires |pre| == 3
    ensures var buf := pre + a + b + c + d; buf[3..] == a + b + c + d && buf == pre + (a + b + c + d)
  {
  }

  class FrameDecoder {
    var frames: seq<Received>
    var state: Phase
    var version: int
    var direction: byte
    var code: nat
    var size: nat
    var payloadLen: nat          // payload is payloadBuf[..payloadLen]; nil has length 0
    var payloadBuf: array<byte>  // reused from frame to frame, replaced only by a larger one
    var payloadIdx: nat
    var checksum: byte
    const v2Header: array<byte>
    var v2HeaderLen: nat
    const crc8Table: array<Reg>

    ghost const sum: Sum              // the checksum functions, kept abstract where they do not matter
    ghost var tail: seq<byte>         // the bytes fed since the decoder was last idle
    ghost var decoded: seq<Message>   // what the frames say

    /** sum is the checksum function. Only a mention of Checksum makes the solver look it up. */
    ghost predicate Bound()
    {
      forall v: int, s: seq<byte> {:trigger Checksum(v, s)} :: sum(v, s) == Checksum(v, s)
    }

    ghost predicate FramesHold()
      reads this, set f <- frames :: f.payload
    {
      && |frames| == |decoded|
      && (forall i :: 0 <= i < |frames| ==> Says(frames[i], decoded[i]))
    }

    ghost predicate Separate()
      reads this
    {
      && v2Header != payloadBuf && v2Header.Length == 5
      && (forall f <- frames :: f.payload != payloadBuf && f.payload != v2Header)
    }

    /** The fields represent the abstract decoder state a; in particular the payload index stays within the
        payload, and the payload within the buffer. */
    ghost predicate Represents(a: State)
      reads this, payloadBuf, v2Header
    {
      && state == a.phase && version == a.version && direction == a.direction && code == a.code && size == a.size
      && payloadIdx == |a.got| && payloadIdx <= payloadLen <= payloadBuf.Length
      && payloadBuf[..payloadIdx] == a.got
      && payloadLen == (if HasPayload(state) then size else 0)
      && (state == V1Code || state == V1Payload || state == V1Checksum ==> checksum == sum(1, a.summed))
      && (InV2Header(state) || state == V2Payload || state == V2Checksum ==>
            && v2Header.Length == 5
            && v2HeaderLen == |a.summed| - |a.got| <= 5 && 0 <= v2HeaderLen
            && v2Header[..v2HeaderLen] == a.summed[..v2HeaderLen])
    }

    ghost predicate Valid()
      reads this, payloadBuf, v2Header, crc8Table, set f <- frames :: f.payload
    {
      && TableReady(crc8Table) && Bound()
      && Separate() && FramesHold()
      && Unfinished(tail) && Represents(StateAfter(tail))
    }

    constructor (table: array<Reg>)
      requires TableReady(table)
      ensures Valid() && fresh(payloadBuf) && fresh(v2Header) && crc8Table == table && sum == Checksum
      ensures tail == [] && decoded == [] && frames == []
    {
      frames := [];
      state := Idle;
      version, direction, code, size := 0, 0, 0, 0;
      payloadLen, payloadIdx := 0, 0;
      payloadBuf := new byte[0];
      checksum := 0;
      v2Header := new byte[5];
      v2HeaderLen := 0;
      crc8Table := table;
      sum := Checksum;
      tail, decoded := [], [];
    }

    method Reset()
      modifies this`state, this`version, this`direction, this`code, this`size
      modifies this`payloadLen, this`payloadIdx, this`checksum, this`v2HeaderLen
      ensures Represents(IDLE)
    {
      state := Idle;
      version, direction, code, size := 0, 0, 0, 0;
      payloadLen, payloadIdx := 0, 0;
      checksum := 0;
      v2HeaderLen := 0;
    }

    /** States stateIdle, stateProtoV1M and stateDirection. */
    method ProcessPreamble(b: byte, ghost a: State)
      requires Represents(a) && Sound(a) && InPreamble(state)
      modifies this`state, this`version, this`direction, this`code, this`size
      modifies this`payloadLen, this`payloadIdx, this`checksum, this`v2HeaderLen
      ensures Represents(Step(sum, a, b).0)
    {
      match state
      case Idle =>
        if b == DOLLAR {
          state := ProtoV1M;
        }
      case ProtoV1M =>
        if b == LETTER_M {
          version := 1;
          state := Direction;
        } else if b == LETTER_X {
          version := 2;
          state := Direction;
        } else {
          Reset();
        }
      case Direction =>
        if b == TO_FC || b == FROM_FC || b == FC_ERROR {
          direction := b;
          if version == 1 {
            state := V1Len;
          } else {
            state := V2Flag;
          }
        } else {
          Reset();
        }
      case _ =>
    }

    /** Points the payload at the buffer, which is replaced if it is too small. */
    method StartPayload()
      requires Separate()
      modifies this`payloadBuf, this`payloadLen, this`payloadIdx
      ensures payloadBuf == old(payloadBuf) || fresh(payloadBuf)
      ensures payloadLen == size <= payloadBuf.Length && payloadIdx == 0 && Separate()
    {
      if size > payloadBuf.Length {
        payloadBuf := new byte[size];
      }
      payloadLen := size;
      payloadIdx := 0;
    }

    /** checksum ^= b */
    method AddToChecksum(b: byte, ghost summed: seq<byte>)
      requires Bound() && checksum == sum(1, summed)
      modifies this`checksum
      ensures checksum == sum(1, summed + [b])
    {
      ghost var sums := (Checksum(1, summed), Checksum(1, summed + [b]));
      XorAllNext(summed, b);
      RegOfByte(XorAll(summed));
      checksum := XorByte(checksum, b);
    }

    method StartChecksum(b: byte)
      requires Bound()
      modifies this`checksum
      ensures checksum == sum(1, [b])
    {
      checksum := b;
      XorAllOne(b);
      assert sum(1, [b]) == Checksum(1, [b]);
    }

    /** State stateV1Len. */
    method ProcessV1Len(b: byte, ghost a: State)
      requires Represents(a) && Sound(a) && state == V1Len && Bound()
      modifies this`state, this`size, this`checksum
      ensures Represents(Step(sum, a, b).0)
    {
      size := b;
      StartChecksum(b);
      state := V1Code;
      assert a.summed + [b] == [b];
    }

    /** State stateV1Code. */
    method ProcessV1Code(b: byte, ghost a: State)
      requires Represents(a) && Sound(a) && state == V1Code && Separate() && Bound()
      modifies this`state, this`code, this`checksum, this`payloadBuf, this`payloadLen, this`payloadIdx
      ensures payloadBuf == old(payloadBuf) || fresh(payloadBuf)
      ensures Represents(Step(sum, a, b).0) && Separate()
    {
      assert Step(sum, a, b).0
          == a.(code := b, summed := a.summed + [b], phase := if size == 0 then V1Checksum else V1Payload);
      hide Step, StepInside, Sound;
      code := b;
      AddToChecksum(b, a.summed);
      if size == 0 {
        state := V1Checksum;
      } else {
        StartPayload();
        state := V1Payload;
      }
    }

    /** State stateV1Payload. */
    method ProcessV1Payload(b: byte, ghost a: State)
      requires Represents(a) && Sound(a) && state == V1Payload && Separate() && Bound()
      modifies this`state, this`checksum, this`payloadIdx, payloadBuf
      ensures Represents(Step(sum, a, b).0)
    {
      assert Step(sum, a, b).0
          == a.(got := a.got + [b], summed := a.summed + [b],
                phase := if payloadIdx + 1 == size then V1Checksum else V1Payload);
      hide Step, StepInside, Sound;
      payloadBuf[payloadIdx] := b;
      payloadIdx := payloadIdx + 1;
      AddToChecksum(b, a.summed);
      if payloadIdx == size {
        state := V1Checksum;
      }
      assert payloadBuf[..payloadIdx] == a.got + [b];
    }

    /** v2Header[i] = b; v2HeaderLen = i + 1 */
    method AddToHeader(i: nat, b: byte)
      requires i < v2Header.Length
      modifies this`v2HeaderLen, v2Header
      ensures v2HeaderLen == i + 1 && v2Header[..i + 1] == old(v2Header[..i]) + [b]
    {
      v2Header[i] := b;
      v2HeaderLen := i + 1;
    }

    /** States stateV2Flag and stateV2CodeLo. */
    method ProcessV2CodeLo(b: byte, ghost a: State)
      requires Represents(a) && Sound(a) && (state == V2Flag || state == V2CodeLo) && Separate()
      modifies this`state, this`code, this`v2HeaderLen, v2Header
      ensures Represents(Step(sum, a, b).0)
    {
      assert v2Header[..|a.summed|] == a.summed;
      if state == V2Flag {
        AddToHeader(0, b);
        state := V2CodeLo;
      } else {
        code := b;
        AddToHeader(1, b);
        state := V2CodeHi;
      }
    }

    /** States stateV2CodeHi and stateV2LenLo. */
    method ProcessV2CodeHi(b: byte, ghost a: State)
      requires Represents(a) && Sound(a) && (state == V2CodeHi || state == V2LenLo) && Separate()
      modifies this`state, this`code, this`size, this`v2HeaderLen, v2Header
      ensures Represents(Step(sum, a, b).0)
    {
      assert v2Header[..|a.summed|] == a.summed;
      if state == V2CodeHi {
        code := code + 256 * b as int; // code |= b << 8, on a code below 256
        AddToHeader(2, b);
        state := V2LenLo;
      } else {
        size := b;
        AddToHeader(3, b);
        state := V2LenHi;
      }
    }

    /** State stateV2LenHi. */
    method ProcessV2LenHi(b: byte, ghost a: State)
      requires Represents(a) && Sound(a) && state == V2LenHi && Separate()
      modifies this`state, this`size, this`v2HeaderLen, v2Header, this`payloadBuf, this`payloadLen, this`payloadIdx
      ensures payloadBuf == old(payloadBuf) || fresh(payloadBuf)
      ensures Represents(Step(sum, a, b).0) && Separate()
    {
      size := size + 256 * b as int; // size |= b << 8, on a size below 256
      assert v2Header[..4] == a.summed;
      AddToHeader(4, b);
      if size == 0 {
        state := V2Checksum;
      } else {
        StartPayload();
        state := V2Payload;
      }
    }

    /** State stateV2Payload. */
    method ProcessV2Payload(b: byte, ghost a: State)
      requires Represents(a) && Sound(a) && state == V2Payload && Separate()
      modifies this`state, this`payloadIdx, payloadBuf
      ensures Represents(Step(sum, a, b).0)
    {
      payloadBuf[payloadIdx] := b;
      payloadIdx := payloadIdx + 1;
      if payloadIdx == size {
        state := V2Checksum;
      }
      assert payloadBuf[..payloadIdx] == a.got + [b];
      assert (a.summed + [b])[..5] == a.summed[..5];
    }

    /** Copies the payload into an array of its own. */
    method CopyPayload() returns (pl: array<byte>)
      requires payloadLen <= payloadBuf.Length
      ensures fresh(pl) && pl[..] == payloadBuf[..payloadLen]
    {
      pl := new byte[payloadLen];
      for i := 0 to payloadLen
        invariant pl[..i] == payloadBuf[..i]
      {
        pl[i] := payloadBuf[i];
      }
    }

    /** States stateV1Checksum and stateV2Checksum, up to the reset. */
    method ProcessChecksum(b: byte, ghost a: State)
      requires Represents(a) && Sound(a) && AtChecksum(state) && TableReady(crc8Table) && Bound()
      requires Separate() && FramesHold()
      modifies this`frames, this`decoded
      ensures Separate() && FramesHold() && old(frames) <= frames
      ensures decoded == old(decoded) + Step(sum, a, b).1
    {
      var expected := checksum;
      if state == V2Checksum {
        expected := V2Expected(a);
      }
      if b == expected {
        var pl := CopyPayload();
        frames := frames + [Received(version, direction, code, pl)];
        decoded := decoded + [Message(version, direction, code, pl[..])];
      }
    }

    /** The header's checksum continued over the payload. */
    method V2Expected(ghost a: State) returns (expected: byte)
      requires Represents(a) && Sound(a) && state == V2Checksum && TableReady(crc8Table) && Bound()
      ensures expected == sum(2, a.summed)
    {
      hide TableReady, Dvb, XorAll;
      assert a.summed == a.summed[..5] + a.summed[5..];
      assert v2Header[..v2HeaderLen] == a.summed[..5] && payloadBuf[..payloadLen] == a.summed[5..];
      expected := ContinuedCrc(crc8Table, v2Header[..v2HeaderLen], payloadBuf[..payloadLen]);
      assert sum(2, a.summed) == Checksum(2, a.summed);
    }

    /** The v1 path. */
    method ProcessV1(b: byte, ghost a: State)
      requires Represents(a) && Sound(a) && InV1(state) && Separate() && Bound()
      modifies this`state, this`code, this`size, this`checksum
      modifies this`payloadBuf, this`payloadLen, this`payloadIdx, payloadBuf
      ensures payloadBuf == old(payloadBuf) || fresh(payloadBuf)
      ensures Represents(Step(sum, a, b).0) && Separate()
    {
      if state == V1Len {
        ProcessV1Len(b, a);
      } else if state == V1Code {
        ProcessV1Code(b, a);
      } else {
        ProcessV1Payload(b, a);
      }
    }

    /** The v2 path. */
    method ProcessV2(b: byte, ghost a: State)
      requires Represents(a) && Sound(a) && Separate()
      requires InV2(state)
      modifies this`state, this`code, this`size, this`v2HeaderLen, v2Header
      modifies this`payloadBuf, this`payloadLen, this`payloadIdx, payloadBuf
      ensures payloadBuf == old(payloadBuf) || fresh(payloadBuf)
      ensures Represents(Step(sum, a, b).0) && Separate()
    {
      if state == V2LenHi {
        ProcessV2LenHi(b, a);
      } else if state == V2Payload {
        ProcessV2Payload(b, a);
      } else if state == V2Flag || state == V2CodeLo {
        ProcessV2CodeLo(b, a);
      } else {
        ProcessV2CodeHi(b, a);
      }
    }

    /** All states but the two checksum states. */
    method ProcessInside(b: byte, ghost a: State)
      requires Represents(a) && Sound(a) && Separate() && Bound() && !AtChecksum(state)
      modifies this`state, this`version, this`direction, this`code, this`size, this`checksum
      modifies this`v2HeaderLen, v2Header, this`payloadBuf, this`payloadLen, this`payloadIdx, payloadBuf
      ensures payloadBuf == old(payloadBuf) || fresh(payloadBuf)
      ensures Represents(Step(sum, a, b).0) && Separate()
    {
      if InPreamble(state) {
        ProcessPreamble(b, a);
      } else if InV1(state) {
        ProcessV1(b, a);
      } else {
        ProcessV2(b, a);
      }
    }

    method Dispatch(b: byte, ghost a: State)
      requires Represents(a) && Sound(a) && Separate() && FramesHold() && TableReady(crc8Table) && Bound()
      modifies this`frames, this`decoded, this`state, this`version, this`direction, this`code, this`size, this`checksum
      modifies this`v2HeaderLen, v2Header, this`payloadBuf, this`payloadLen, this`payloadIdx, payloadBuf
      ensures payloadBuf == old(payloadBuf) || fresh(payloadBuf)
      ensures Represents(Step(sum, a, b).0) && Separate() && FramesHold() && old(frames) <= frames
      ensures decoded == old(decoded) + Step(sum, a, b).1
    {
      if AtChecksum(state) {
        ProcessChecksum(b, a);
        Reset();
      } else {
        ProcessInside(b, a);
      }
    }

    /** One byte: afterwards the decoder holds the frames and the unfinished tail of all it was fed. */
    method Process(b: byte)
      requires Valid()
      modifies this, payloadBuf, v2Header
      ensures Valid() && old(frames) <= frames
      ensures payloadBuf == old(payloadBuf) || fresh(payloadBuf)
      ensures var d := Decode(sum, old(tail) + [b]);
              tail == d.rest && decoded == old(decoded) + d.messages
    {
      StateIsSound(tail);
      StepDecodes(sum, tail, b);
      Dispatch(b, StateAfter(tail));
      tail := Decode(sum, tail + [b]).rest;
    }

    /** All of data, byte by byte. */
    method Feed(data: seq<byte>)
      requires Valid()
      modifies this, payloadBuf, v2Header
      ensures Valid() && old(frames) <= frames
      ensures payloadBuf == old(payloadBuf) || fresh(payloadBuf)
      ensures var d := Decode(sum, old(tail) + data);
              tail == d.rest && decoded == old(decoded) + d.messages
    {
      ghost var start, already := tail, decoded;
      NothingFed(sum, start);
      for i := 0 to |data|
        invariant Valid() && old(frames) <= frames
        invariant payloadBuf == old(payloadBuf) || fresh(payloadBuf)
        invariant tail == Decode(sum, start + data[..i]).rest
        invariant decoded == already + Decode(sum, start + data[..i]).messages
      {
        ghost var before := decoded;
        FedNext(sum, start, data, i);
        Process(data[i]);
        Streams.Associative(already, Decode(sum, start + data[..i]).messages, decoded[|before|..]);
      }
      WholePrefix(data);
    }
  }

  lemma XorAllOne(b: byte)
    ensures ToByte(XorAll([b])) == b
  {
    XorAllNext([], b);
    XorZero(RegOf(b));
    assert [] + [b] == [b];
  }

  lemma XorAllNext(s: seq<byte>, b: byte)
    ensures XorAll(s + [b]) == Xor(XorAll(s), RegOf(b))
  {
    assert (s + [b])[..|s|] == s;
  }
}
