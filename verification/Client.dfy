/** The MSP client over a serial port (internal/msp/client.go). */
module Client {
  import opened Bytes
  import Registers
  import Crc
  import opened Wire
  import Streams
  import opened Framing

  // ---------- What the client has heard and given away ----------

  datatype Event = Heard(message: Message) | Removed(code: nat)

  /** The latest answers of the flight controller that are still to be fetched. */
  ghost function Held(log: seq<Event>): map<nat, Message> {
    if log == [] then map[] else Learnt(Held(log[..|log| - 1]), log[|log| - 1])
  }

  ghost function Learnt(held: map<nat, Message>, e: Event): map<nat, Message> {
    if e.Removed? then held - {e.code}
    else if e.message.direction == FROM_FC then held[e.message.code := e.message]
    else held
  }

  ghost predicate Concerns(e: Event, code: nat) {
    if e.Removed? then e.code == code else e.message.direction == FROM_FC && e.message.code == code
  }

  /** Event i is the last that concerns the code. */
  ghost predicate IsLatest(log: seq<Event>, code: nat, i: nat) {
    i < |log| && Concerns(log[i], code) && forall j :: i < j < |log| ==> !Concerns(log[j], code)
  }

  ghost predicate LatelyHeard(log: seq<Event>, code: nat, m: Message) {
    exists i: nat :: IsLatest(log, code, i) && log[i] == Heard(m)
  }

  lemma LatestNext(log: seq<Event>, code: nat, m: Message)
    requires log != []
    ensures var n := |log| - 1;
            LatelyHeard(log, code, m) <==>
              if Concerns(log[n], code) then log[n] == Heard(m) else LatelyHeard(log[..n], code, m)
  {
    var past, n := log[..|log| - 1], |log| - 1;
    if Concerns(log[n], code) {
      assert IsLatest(log, code, n);
    } else {
      forall i: nat
        ensures IsLatest(past, code, i) <==> IsLatest(log, code, i)
      {
      }
      if LatelyHeard(log, code, m) {
        var i: nat :| IsLatest(log, code, i) && log[i] == Heard(m);
        assert IsLatest(past, code, i) && past[i] == Heard(m);
      }
    }
  }

  /** A message is held exactly if hearing it is the last event that concerns its code. */
  lemma {:induction false} HeldIff(log: seq<Event>, code: nat, m: Message)
    ensures code in Held(log) && Held(log)[code] == m <==> LatelyHeard(log, code, m)
  {
    if log != [] {
      LatestNext(log, code, m);
      HeldIff(log[..|log| - 1], code, m);
    }
  }

  function CodeOf(e: Event): nat {
    if e.Removed? then e.code else e.message.code
  }

  /** An answer, marked '>', is held once it is heard, until something with its code is heard or the code is
      fetched or flushed. Messages marked otherwise change nothing. */
  lemma {:induction false} AnswerIsHeld(past: seq<Event>, m: Message, later: seq<Event>)
    requires forall e <- later :: CodeOf(e) != m.code
    ensures var held := Held(past + [Heard(m)] + later);
            if m.direction == 0x3E then m.code in held && held[m.code] == m
            else if m.code in Held(past) then m.code in held && held[m.code] == Held(past)[m.code]
            else m.code !in held
  {
    var log := past + [Heard(m)] + later;
    if later == [] {
      assert log[..|log| - 1] == past;
    } else {
      var n := |later| - 1;
      assert log[..|log| - 1] == past + [Heard(m)] + later[..n] && log[|log| - 1] == later[n];
      assert CodeOf(later[n]) != m.code;
      AnswerIsHeld(past, m, later[..n]);
    }
  }

  ghost function HeardIn(log: seq<Event>): seq<Message> {
    if log == [] then []
    else
      HeardIn(log[..|log| - 1]) + if log[|log| - 1].Heard? then [log[|log| - 1].message] else []
  }

  lemma LogNext(log: seq<Event>, e: Event)
    ensures (log + [e])[..|log|] == log && (log + [e])[|log|] == e
  {
  }

  lemma HeldNext(log: seq<Event>, e: Event)
    ensures Held(log + [e]) == Learnt(Held(log), e)
    ensures HeardIn(log + [e]) == HeardIn(log) + if e.Heard? then [e.message] else []
  {
    LogNext(log, e);
  }

  /** Only messages were heard since. */
  ghost predicate OnlyHeard(past: seq<Event>, log: seq<Event>) {
    past <= log && forall i :: |past| <= i < |log| ==> log[i].Heard?
  }

  // ---------- The port ----------

  /** What the clock and the port do next. */
  datatype PortEvent = Data(bytes: seq<byte>) | Silence | ReadFailed | DeadlinePassed

  /** The bytes that reads return. */
  function BytesIn(events: seq<PortEvent>): seq<byte> {
    if events == [] then []
    else BytesIn(events[..|events| - 1]) + if events[|events| - 1].Data? then events[|events| - 1].bytes else []
  }

  lemma BytesNext(script: seq<PortEvent>, k: nat, input: seq<byte>)
    requires k < |script|
    ensures script[k..][1..] == script[k + 1..] && script[..k + 1] == script[..k] + [script[k]]
    ensures input + BytesIn(script[..k + 1]) == input + BytesIn(script[..k]) + if script[k].Data? then script[k].bytes else []
  {
    assert script[..k + 1][..k] == script[..k];
  }

  /** A serial port that behaves in any way: the script and the outcomes are arbitrary. */
  class Port {
    var script: seq<PortEvent>
    var writable: seq<bool>
    var sent: seq<byte>

    constructor (script: seq<PortEvent>, writable: seq<bool>)
      ensures this.script == script && this.writable == writable && sent == []
    {
      this.script, this.writable, this.sent := script, writable, [];
    }

    method Write(data: seq<byte>) returns (ok: bool)
      modifies this
      ensures script == old(script)
      ensures sent == if ok then old(sent) + data else old(sent)
      ensures ok <==> old(writable) != [] && old(writable)[0]
    {
      ok := writable != [] && writable[0];
      if writable != [] {
        writable := writable[1..];
      }
      if ok {
        sent := sent + data;
      }
    }
  }

  /** The pending frames say what is held. */
  ghost predicate Mirrors(pending: map<nat, Received>, held: map<nat, Message>)
    reads set k | k in pending :: pending[k].payload
  {
    && pending.Keys == held.Keys
    && (forall k | k in pending ::
          Says(pending[k], held[k]) && pending[k].code == k && pending[k].direction == FROM_FC)
  }

  /** No pending frame shares its payload with the decoder. */
  ghost predicate Apart(pending: map<nat, Received>, buf: array<byte>, header: array<byte>) {
    forall k | k in pending :: pending[k].payload != buf && pending[k].payload != header
  }

  datatype Reply = Got(frame: Received) | ReadError | WriteError | TimedOut

  class MspClient {
    const port: Port
    const decoder: FrameDecoder
    var pending: map<nat, Received>
    ghost var log: seq<Event>
    ghost var input: seq<byte>      // every byte read from the port

    ghost function Memory(): set<object>
      reads this, decoder
    {
      {this, port, decoder, decoder.payloadBuf, decoder.v2Header}
    }

    /** Everything decoded from the input was heard, and the decoder has what is unfinished. */
    ghost predicate HasHeardAll()
      reads this, decoder
    {
      Decode(decoder.sum, input) == Streams.Parsed(HeardIn(log) + decoder.decoded, decoder.tail)
    }

    ghost predicate ValidApart()
      reads this, decoder, decoder.payloadBuf, decoder.v2Header, decoder.crc8Table
      reads set f <- decoder.frames :: f.payload
      reads set k | k in pending :: pending[k].payload
    {
      decoder.Valid() && Apart(pending, decoder.payloadBuf, decoder.v2Header) && Mirrors(pending, Held(log)) && HasHeardAll()
    }

    /** Between calls the decoder holds no frames. */
    ghost predicate Valid()
      reads this, decoder, decoder.payloadBuf, decoder.v2Header, decoder.crc8Table
      reads set f <- decoder.frames :: f.payload
      reads set k | k in pending :: pending[k].payload
    {
      ValidApart() && decoder.frames == []
    }

    constructor (port: Port, table: array<Registers.Reg>)
      requires Crc.TableReady(table)
      ensures Valid() && this.port == port && decoder.sum == Crc.Checksum
      ensures log == [] && input == [] && pending == map[] && fresh(Memory() - {port})
    {
      this.port := port;
      var d := new FrameDecoder(table);
      NothingDecoded(d.sum);
      decoder := d;
      pending, log, input := map[], [], [];
    }

    /** Reads more bytes into the decoder. */
    method Feed(data: seq<byte>)
      requires Valid()
      modifies decoder, decoder.payloadBuf, decoder.v2Header, this`input
      ensures ValidApart() && input == old(input) + data
      ensures decoder.payloadBuf == old(decoder.payloadBuf) || fresh(decoder.payloadBuf)
    {
      hide Decode, Held, HeardIn, FrameDecoder.Valid, Mirrors;
      SameNumber();
      assert HeardIn(log) + [] == HeardIn(log);
      DecodeConcat(decoder.sum, input, data);
      decoder.Feed(data);
      Note(data);
    }

    ghost method Note(data: seq<byte>)
      requires decoder.Valid() && Mirrors(pending, Held(log))
      modifies this`input
      ensures decoder.Valid() && Mirrors(pending, Held(log)) && input == old(input) + data
    {
      hide FrameDecoder.Valid;
      assert forall f <- decoder.frames :: f.payload as object != this;
      input := input + data;
    }

    /** Puts one decoded frame into the pending map. */
    method Keep(f: Received, ghost m: Message)
      requires Mirrors(pending, Held(log)) && Says(f, m)
      requires Apart(pending, decoder.payloadBuf, decoder.v2Header)
      requires f.payload != decoder.payloadBuf && f.payload != decoder.v2Header
      modifies this`pending, this`log
      ensures Mirrors(pending, Held(log)) && log == old(log) + [Heard(m)]
      ensures Apart(pending, decoder.payloadBuf, decoder.v2Header)
      ensures HeardIn(log) == HeardIn(old(log)) + [m]
    {
      HeldNext(log, Heard(m));
      if f.direction == FROM_FC {
        pending := pending[f.code := f];
      }
      log := log + [Heard(m)];
    }

    /** Moves decoded frames into the pending map. */
    method Drain()
      requires ValidApart()
      modifies this`pending, this`log, decoder`frames, decoder`decoded
      ensures Valid() && OnlyHeard(old(log), log)
    {
      hide Decode, Held, HeardIn, FrameDecoder.Valid, Mirrors, Apart;
      ghost var heard := HeardIn(log);
      SameNumber();
      for i := 0 to |decoder.frames|
        invariant decoder.Valid() && decoder.frames == old(decoder.frames) && decoder.decoded == old(decoder.decoded)
        invariant Apart(pending, decoder.payloadBuf, decoder.v2Header) && Mirrors(pending, Held(log))
        invariant OnlyHeard(old(log), log)
        invariant |decoder.frames| == |decoder.decoded| && HeardIn(log) == heard + decoder.decoded[..i]
      {
        FrameIsApart(i);
        PrefixNext(decoder.decoded, i);
        assert forall f <- decoder.frames :: f.payload as object != this;
        Keep(decoder.frames[i], decoder.decoded[i]);
      }
      WholePrefix(decoder.decoded);
      assert HeardIn(log) + [] == heard + decoder.decoded;
      assert forall k | k in pending :: pending[k].payload as object != decoder;
      NoFrames();
    }

    /** The frames are gone from the decoder, which is otherwise as it was. */
    method NoFrames()
      requires decoder.Valid()
      modifies decoder`frames, decoder`decoded
      ensures decoder.Valid() && decoder.frames == [] && decoder.decoded == []
    {
      decoder.frames := [];
      decoder.decoded := [];
    }

    lemma SameNumber()
      requires decoder.Valid()
      ensures |decoder.decoded| == |decoder.frames|
    {
    }

    lemma FrameIsApart(i: nat)
      requires decoder.Valid() && i < |decoder.frames|
      ensures |decoder.decoded| == |decoder.frames|
      ensures Says(decoder.frames[i], decoder.decoded[i])
      ensures decoder.frames[i].payload != decoder.payloadBuf && decoder.frames[i].payload != decoder.v2Header
    {
    }

    /** Takes a frame out of the pending map. */
    method Take(code: nat) returns (f: Received)
      requires Valid() && code in pending
      modifies this`pending, this`log
      ensures Valid() && log == old(log) + [Removed(code)]
      ensures f.code == code && f.direction == FROM_FC
      ensures code in Held(old(log)) && Says(f, Held(old(log))[code])
    {
      HeldNext(log, Removed(code));
      f := pending[code];
      pending := pending - {code};
      log := log + [Removed(code)];
    }

    /** A frame is pending exactly if the flight controller's last message with its code was heard after the
        code was last fetched or flushed; the frame says that message. */
    lemma PendingIff(code: nat, m: Message)
      requires Valid()
      ensures code in pending && Says(pending[code], m) <==> LatelyHeard(log, code, m)
    {
      hide FrameDecoder.Valid, Decode;
      HeldIff(log, code, m);
    }

    /** What was heard is what a decoder finds in all bytes read so far. */
    lemma HeardEverything()
      requires Valid()
      ensures Decode(decoder.sum, input) == Streams.Parsed(HeardIn(log), decoder.tail)
    {
      SameNumber();
      assert HeardIn(log) + [] == HeardIn(log);
    }

    /** Allocating new objects leaves the client valid. */
    twostate lemma Undisturbed()
      requires old(Valid())
      requires unchanged(this) && unchanged(decoder) && unchanged(decoder.crc8Table)
      requires unchanged(decoder.payloadBuf) && unchanged(decoder.v2Header)
      requires forall k | k in pending :: unchanged(pending[k].payload)
      ensures Valid()
    {
      hide FrameDecoder.Valid, Mirrors, Decode, HeardIn, Held;
    }

    lemma PendingIsHeld(code: nat)
      requires Valid()
      ensures ValidApart() && (code in pending <==> code in Held(log))
    {
    }

    /** Only the port changes, and no frame is kept there. */
    method ReadPort() returns (e: PortEvent)
      requires Valid() && port.script != []
      modifies port`script
      ensures Valid() && e == old(port.script)[0] && port.script == old(port.script)[1..]
    {
      hide FrameDecoder.Valid, Mirrors, Decode, HeardIn, Held;
      assert forall f <- decoder.frames :: f.payload as object != port;
      assert forall k | k in pending :: pending[k].payload as object != port;
      e := port.script[0];
      port.script := port.script[1..];
    }

    method WritePort(data: seq<byte>) returns (ok: bool)
      requires Valid()
      modifies port
      ensures Valid() && port.script == old(port.script)
      ensures port.sent == if ok then old(port.sent) + data else old(port.sent)
    {
      hide FrameDecoder.Valid, Mirrors, Decode, HeardIn, Held;
      assert forall f <- decoder.frames :: f.payload as object != port;
      assert forall k | k in pending :: pending[k].payload as object != port;
      ok := port.Write(data);
    }

    /** A v1 request goes out as one frame. */
    method Send(code: byte, payload: seq<byte>) returns (ok: bool)
      requires Valid()
      modifies port
      ensures Valid() && port.script == old(port.script)
      ensures port.sent == if !ok then old(port.sent)
                           else old(port.sent) + Frame(Crc.Checksum, Message(1, TO_FC, code, payload), 0)
    {
      hide FrameDecoder.Valid, Mirrors, Decode, HeardIn, Held, Frame;
      var data := EncodeV1(code, payload);
      ok := WritePort(data);
    }

    method SendV2(code: nat, payload: seq<byte>) returns (ok: bool)
      requires Valid() && code < 65536 && Crc.TableReady(decoder.crc8Table)
      modifies port
      ensures Valid() && port.script == old(port.script)
      ensures port.sent == if !ok then old(port.sent)
                           else old(port.sent) + Frame(Crc.Checksum, Message(2, TO_FC, code, payload), 0)
    {
      hide FrameDecoder.Valid, Mirrors, Decode, HeardIn, Held, Frame;
      var data := EncodeV2(decoder.crc8Table, code, payload);
      ok := WritePort(data);
    }

    /** The frame of a reply was the latest one held for the code, and is no longer. */
    ghost predicate TakenFrom(past: seq<Event>, log: seq<Event>, code: nat, f: Received)
      reads f.payload
    {
      && f.code == code && f.direction == FROM_FC
      && |log| > 0 && log[|log| - 1] == Removed(code) && OnlyHeard(past, log[..|log| - 1])
      && code in Held(log[..|log| - 1]) && Says(f, Held(log[..|log| - 1])[code])
    }

    /** The part of the script that was played, and its bytes. */
    static ghost predicate Consumed(script0: seq<PortEvent>, script1: seq<PortEvent>, input0: seq<byte>, input1: seq<byte>) {
      && |script1| <= |script0| && script1 == script0[|script0| - |script1|..]
      && input1 == input0 + BytesIn(script0[..|script0| - |script1|])
    }

    /** What was heard from the input before the last read held no message with the code. */
    ghost predicate BroughtLast(past: seq<Event>, log: seq<Event>, code: nat, earlier: seq<byte>) {
      exists n: nat ::
        |past| <= n <= |log| && code !in Held(log[..n]) && HeardIn(log[..n]) == Decode(decoder.sum, earlier).messages
    }

    /** One read, with what it brings moved to the pending map, unless the read fails. */
    method Poll() returns (failed: bool)
      requires Valid() && port.script != []
      modifies this`pending, this`log, this`input, port`script, decoder, decoder.payloadBuf, decoder.v2Header
      ensures Valid() && port.script == old(port.script)[1..] && failed == (old(port.script)[0] == ReadFailed)
      ensures decoder.payloadBuf == old(decoder.payloadBuf) || fresh(decoder.payloadBuf)
      ensures input == old(input) + if old(port.script)[0].Data? then old(port.script)[0].bytes else []
      ensures OnlyHeard(old(log), log) && (failed ==> log == old(log) && pending == old(pending))
    {
      hide MspClient.Valid, MspClient.ValidApart, Held, HeardIn;
      var e := ReadPort();
      failed := e == ReadFailed;
      if failed {
        return;
      }
      ValidIsValidApart();
      if e.Data? && |e.bytes| > 0 {
        Feed(e.bytes);
      }
      Drain();
    }

    lemma ValidIsValidApart()
      requires Valid()
      ensures ValidApart()
    {
    }

    /** One read and what comes of it: nothing with the code yet is TimedOut. */
    method ReadFor(code: nat) returns (r: Reply)
      requires Valid() && port.script != [] && code !in Held(log)
      modifies this`pending, this`log, this`input, port`script, decoder, decoder.payloadBuf, decoder.v2Header
      ensures Valid() && port.script == old(port.script)[1..]
      ensures decoder.payloadBuf == old(decoder.payloadBuf) || fresh(decoder.payloadBuf)
      ensures input == old(input) + if old(port.script)[0].Data? then old(port.script)[0].bytes else []
      ensures r != WriteError && (r == ReadError <==> old(port.script)[0] == ReadFailed)
      ensures r.Got? ==> TakenFrom(old(log), log, code, r.frame) && BroughtLast(old(log), log, code, old(input))
      ensures !r.Got? ==> OnlyHeard(old(log), log) && code !in Held(log)
    {
      hide MspClient.Valid, MspClient.ValidApart, MspClient.BroughtLast, Held, HeardIn, Decode;
      HeardEverything();
      var failed := Poll();
      PendingIsHeld(code);
      if failed {
        return ReadError;
      }
      if code !in pending {
        return TimedOut;
      }
      var f := Take(code);
      LogNext(log[..|log| - 1], Removed(code));
      JustBrought(old(log), log, code, old(input));
      r := Got(f);
    }

    /** A frame with the code, from the pending map or from the port. */
    method Receive(code: nat) returns (r: Reply)
      requires Valid()
      modifies this`pending, this`log, this`input, port`script, decoder, decoder.payloadBuf, decoder.v2Header
      ensures Valid() && Consumed(old(port.script), port.script, old(input), input)
      ensures decoder.payloadBuf == old(decoder.payloadBuf) || fresh(decoder.payloadBuf)
      ensures r == TimedOut ==> port.script == [] || port.script[0] == DeadlinePassed
      ensures r == ReadError <==> ReadFailed in old(port.script)[..|old(port.script)| - |port.script|]
      ensures r.Got? ==> TakenFrom(old(log), log, code, r.frame)
      ensures var k := |old(port.script)| - |port.script|;
              r.Got? && code !in Held(old(log)) ==>
                k > 0 && BroughtLast(old(log), log, code, old(input) + BytesIn(old(port.script)[..k - 1]))
      ensures !r.Got? ==> OnlyHeard(old(log), log) && code !in Held(log) && r != WriteError
      ensures code in Held(old(log)) ==> r.Got? && input == old(input) && port.script == old(port.script)
    {
      hide MspClient.Valid, MspClient.ValidApart, MspClient.BroughtLast, Held, HeardIn;
      PendingIsHeld(code);
      NothingConsumed(port.script, input);
      if code in pending {
        var f := Take(code);
        return Got(f);
      }
      r := ReceiveNew(code);
    }

    /** A frame with the code from the port. */
    method ReceiveNew(code: nat) returns (r: Reply)
      requires Valid() && code !in Held(log)
      modifies this`pending, this`log, this`input, port`script, decoder, decoder.payloadBuf, decoder.v2Header
      ensures Valid() && Consumed(old(port.script), port.script, old(input), input)
      ensures decoder.payloadBuf == old(decoder.payloadBuf) || fresh(decoder.payloadBuf)
      ensures r == TimedOut ==> port.script == [] || port.script[0] == DeadlinePassed
      ensures r == ReadError <==> ReadFailed in old(port.script)[..|old(port.script)| - |port.script|]
      ensures var k := |old(port.script)| - |port.script|;
              r.Got? ==>
                && TakenFrom(old(log), log, code, r.frame)
                && k > 0 && BroughtLast(old(log), log, code, old(input) + BytesIn(old(port.script)[..k - 1]))
      ensures !r.Got? ==> OnlyHeard(old(log), log) && code !in Held(log) && r != WriteError
    {
      hide MspClient.Valid, MspClient.ValidApart, MspClient.BroughtLast, MspClient.TakenFrom, Held, HeardIn, BytesIn;
      NothingConsumed(port.script, input);
      ghost var script := port.script;
      NothingHeard(log);
      hide OnlyHeard, MspClient.Consumed;
      while port.script != [] && port.script[0] != DeadlinePassed
        invariant Valid() && Consumed(script, port.script, old(input), input)
        invariant |port.script| <= |script| && ReadFailed !in script[..|script| - |port.script|]
        invariant decoder.payloadBuf == old(decoder.payloadBuf) || fresh(decoder.payloadBuf)
        invariant OnlyHeard(old(log), log) && code !in Held(log)
        decreases |port.script|
      {
        ConsumedNext(script, port.script, old(input), input);
        ghost var before := log;
        r := ReadFor(code);
        if r.Got? {
          Earlier(old(log), before, log, code, r.frame, old(input) + BytesIn(script[..|script| - |port.script| - 1]));
          return;
        }
        HeardOn(old(log), before, log);
        if r == ReadError {
          return;
        }
      }
      r := TimedOut;
    }

    static lemma NothingHeard(log: seq<Event>)
      ensures OnlyHeard(log, log)
    {
    }

    static lemma HeardOn(past: seq<Event>, before: seq<Event>, log: seq<Event>)
      requires OnlyHeard(past, before) && OnlyHeard(before, log)
      ensures OnlyHeard(past, log)
    {
    }

    lemma JustBrought(before: seq<Event>, log: seq<Event>, code: nat, earlier: seq<byte>)
      requires before <= log && code !in Held(before) && HeardIn(before) == Decode(decoder.sum, earlier).messages
      ensures BroughtLast(before, log, code, earlier)
    {
      assert log[..|before|] == before;
    }

    lemma Earlier(past: seq<Event>, before: seq<Event>, log: seq<Event>, code: nat, f: Received, earlier: seq<byte>)
      requires OnlyHeard(past, before) && TakenFrom(before, log, code, f) && BroughtLast(before, log, code, earlier)
      ensures TakenFrom(past, log, code, f) && BroughtLast(past, log, code, earlier)
    {
    }

    static lemma NothingConsumed(script: seq<PortEvent>, input: seq<byte>)
      ensures Consumed(script, script, input, input) && script[..0] == []
    {
      assert input + BytesIn([]) == input;
    }

    static lemma ConsumedNext(script: seq<PortEvent>, now: seq<PortEvent>, input0: seq<byte>, input1: seq<byte>)
      requires Consumed(script, now, input0, input1) && now != []
      ensures Consumed(script, now[1..], input0, input1 + if now[0].Data? then now[0].bytes else [])
      ensures |now| <= |script| && script[..|script| - |now| + 1] == script[..|script| - |now|] + [now[0]]
      ensures input1 == input0 + BytesIn(script[..|script| - |now|])
    {
      BytesNext(script, |script| - |now|, input0);
    }

    method FlushFrames(code: nat)
      requires Valid()
      modifies this`pending, this`log
      ensures Valid() && log == old(log) + [Removed(code)] && code !in Held(log)
    {
      hide FrameDecoder.Valid, Decode;
      HeldNext(log, Removed(code));
      assert forall f <- decoder.frames :: f.payload as object != this;
      pending := pending - {code};
      log := log + [Removed(code)];
    }

    /** A v1 request and its answer; no answer that was heard before the request is returned. */
    method Request(code: byte, payload: seq<byte>) returns (r: Reply)
      requires Valid()
      modifies this`pending, this`log, this`input, port, decoder, decoder.payloadBuf, decoder.v2Header
      ensures Valid()
      ensures decoder.payloadBuf == old(decoder.payloadBuf) || fresh(decoder.payloadBuf)
      ensures r.Got? ==> TakenFrom(old(log) + [Removed(code)], log, code, r.frame)
      ensures port.sent == if r == WriteError then old(port.sent)
                           else old(port.sent) + Frame(Crc.Checksum, Message(1, TO_FC, code, payload), 0)
    {
      hide MspClient.Valid, MspClient.ValidApart, Held, HeardIn;
      FlushFrames(code);
      var sent := Send(code, payload);
      if !sent {
        return WriteError;
      }
      r := Receive(code);
    }
  }
}
