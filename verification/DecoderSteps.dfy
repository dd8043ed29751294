/** The byte-at-a-time frame decoder as a state machine, and the proof that its state is always the
    unfinished tail of the stream and its output always the frames of the stream. */
module DecoderSteps {
  import opened Bytes
  import Streams
  import opened Wire

  datatype Phase =
    | Idle | ProtoV1M | Direction
    | V1Len | V1Code | V1Payload | V1Checksum
    | V2Flag | V2CodeLo | V2CodeHi | V2LenLo | V2LenHi | V2Payload | V2Checksum

  predicate InPreamble(p: Phase) { p == Idle || p == ProtoV1M || p == Direction }
  predicate InV1(p: Phase) { p == V1Len || p == V1Code || p == V1Payload }
  predicate InV2(p: Phase) { p == V2Flag || InV2Header(p) || p == V2Payload }
  predicate InV2Header(p: Phase) { p == V2CodeLo || p == V2CodeHi || p == V2LenLo || p == V2LenHi }
  predicate AtChecksum(p: Phase) { p == V1Checksum || p == V2Checksum }
  predicate HasPayload(p: Phase) { p == V1Payload || p == V2Payload || AtChecksum(p) }

  /** got is the payload received so far, summed the bytes the checksum covers so far. */
  datatype State = State(phase: Phase, version: int, direction: byte, code: nat, size: nat,
                         got: seq<byte>, summed: seq<byte>)

  const IDLE := State(Idle, 0, 0, 0, 0, [], [])

  /** What one byte does to the decoder, and the message it completes, if any. */
  function Step(sum: Sum, d: State, b: byte): (State, seq<Message>) {
    match d.phase
    case Idle =>
      (if b == DOLLAR then d.(phase := ProtoV1M) else d, [])
    case ProtoV1M =>
      (if b == LETTER_M then d.(version := 1, phase := Direction)
       else if b == LETTER_X then d.(version := 2, phase := Direction)
       else IDLE, [])
    case Direction =>
      (if IsDirection(b) then d.(direction := b, phase := if d.version == 1 then V1Len else V2Flag) else IDLE, [])
    case V1Checksum =>
      (IDLE, if b == sum(1, d.summed) then [Message(1, d.direction, d.code, d.got)] else [])
    case V2Checksum =>
      (IDLE, if b == sum(2, d.summed) then [Message(2, d.direction, d.code, d.got)] else [])
    case _ =>
      (StepInside(d.(summed := d.summed + [b]), b), [])
  }

  /** The bytes between the direction and the checksum. */
  function StepInside(d: State, b: byte): State {
    match d.phase
    case V1Len => d.(size := b, phase := V1Code)
    case V1Code => d.(code := b, phase := if d.size == 0 then V1Checksum else V1Payload)
    case V1Payload => d.(got := d.got + [b], phase := if |d.got| + 1 == d.size then V1Checksum else V1Payload)
    case V2Flag => d.(phase := V2CodeLo)
    case V2CodeLo => d.(code := b, phase := V2CodeHi)
    case V2CodeHi => d.(code := d.code + 256 * b as int, phase := V2LenLo)
    case V2LenLo => d.(size := b, phase := V2LenHi)
    case V2LenHi =>
      var size := d.size + 256 * b as int;
      d.(size := size, phase := if size == 0 then V2Checksum else V2Payload)
    case V2Payload => d.(got := d.got + [b], phase := if |d.got| + 1 == d.size then V2Checksum else V2Payload)
    case _ => d
  }

  // ---------- Unfinished tails ----------

  /** The tails no frame and no junk can yet be recognised in. */
  predicate Unfinished(t: seq<byte>) {
    || |t| == 0
    || (&& t[0] == DOLLAR
        && (|| |t| == 1
            || (&& (t[1] == LETTER_M || t[1] == LETTER_X)
                && (|| |t| == 2
                    || (&& IsDirection(t[2])
                        && if t[1] == LETTER_M then UnfinishedV1(t) else UnfinishedV2(t))))))
  }

  predicate UnfinishedV1(t: seq<byte>)
    requires |t| >= 3
  {
    |t| == 3 || |t| < 6 + t[3] as int
  }

  predicate UnfinishedV2(t: seq<byte>)
    requires |t| >= 3
  {
    |t| < 8 || |t| < 9 + Word(t[6], t[7])
  }

  lemma UnfinishedIff(sum: Sum, t: seq<byte>)
    ensures Unfinished(t) <==> First(sum, t).Incomplete?
  {
  }

  /** The decoder's state after an unfinished tail. */
  function StateAfter(t: seq<byte>): State
    requires Unfinished(t)
  {
    if |t| == 0 then IDLE
    else if |t| == 1 then IDLE.(phase := ProtoV1M)
    else
      var d := IDLE.(version := if t[1] == LETTER_M then 1 else 2, phase := Direction);
      if |t| == 2 then d
      else
        var e := d.(direction := t[2], summed := t[3..]);
        if t[1] == LETTER_M then StateAfterV1(e, t) else StateAfterV2(e, t)
  }

  function StateAfterV1(d: State, t: seq<byte>): State
    requires |t| >= 3 && UnfinishedV1(t)
  {
    if |t| == 3 then d.(phase := V1Len)
    else if |t| == 4 then d.(size := t[3], phase := V1Code)
    else d.(size := t[3], code := t[4], got := t[5..],
            phase := if |t| == 5 + t[3] as int then V1Checksum else V1Payload)
  }

  function StateAfterV2(d: State, t: seq<byte>): State
    requires |t| >= 3 && UnfinishedV2(t)
  {
    if |t| == 3 then d.(phase := V2Flag)
    else if |t| == 4 then d.(phase := V2CodeLo)
    else if |t| == 5 then d.(code := t[4], phase := V2CodeHi)
    else if |t| == 6 then d.(code := Word(t[4], t[5]), phase := V2LenLo)
    else if |t| == 7 then d.(code := Word(t[4], t[5]), size := t[6], phase := V2LenHi)
    else d.(code := Word(t[4], t[5]), size := Word(t[6], t[7]), got := t[8..],
            phase := if |t| == 8 + Word(t[6], t[7]) then V2Checksum else V2Payload)
  }

  /** What every reachable state satisfies. */
  predicate Sound(a: State) {
    match a.phase
    case Idle => a == IDLE
    case ProtoV1M => a == IDLE.(phase := ProtoV1M)
    case Direction => (a.version == 1 || a.version == 2) && a.got == [] && a.summed == []
    case V1Len => a.version == 1 && a.got == [] && a.summed == []
    case V1Code => a.version == 1 && a.got == [] && |a.summed| == 1 && a.size < 256
    case V1Payload => a.version == 1 && |a.got| < a.size < 256
    case V1Checksum => a.version == 1 && |a.got| == a.size < 256
    case V2Flag => a.version == 2 && a.got == [] && a.summed == []
    case V2CodeLo => a.version == 2 && a.got == [] && |a.summed| == 1
    case V2CodeHi => a.version == 2 && a.got == [] && |a.summed| == 2 && a.code < 256
    case V2LenLo => a.version == 2 && a.got == [] && |a.summed| == 3
    case V2LenHi => a.version == 2 && a.got == [] && |a.summed| == 4 && a.size < 256
    case V2Payload => a.version == 2 && |a.got| < a.size && |a.summed| == 5 + |a.got| && a.summed[5..] == a.got
    case V2Checksum => a.version == 2 && |a.got| == a.size && |a.summed| == 5 + |a.got| && a.summed[5..] == a.got
  }

  lemma StateIsSound(t: seq<byte>)
    requires Unfinished(t)
    ensures Sound(StateAfter(t))
  {
    if |t| >= 8 && t[1] == LETTER_X {
      assert t[3..][5..] == t[8..];
    }
  }

  /** What the decoder keeps about a frame in progress is what the bytes summed for its checksum say. */
  ghost predicate Agrees(a: State) {
    match a.phase
    case V1Code => a.summed == [a.size]
    case V1Payload => AgreesV1(a)
    case V1Checksum => AgreesV1(a)
    case V2CodeHi => |a.summed| == 2 && a.code == a.summed[1]
    case V2LenLo => |a.summed| == 3 && a.code == Word(a.summed[1], a.summed[2])
    case V2LenHi => |a.summed| == 4 && a.code == Word(a.summed[1], a.summed[2]) && a.size == a.summed[3]
    case V2Payload => AgreesV2(a)
    case V2Checksum => AgreesV2(a)
    case _ => true
  }

  ghost predicate AgreesV1(a: State) {
    && |a.summed| >= 2 && a.size == a.summed[0] && a.code == a.summed[1] && a.got == a.summed[2..]
  }

  ghost predicate AgreesV2(a: State) {
    && |a.summed| >= 5 && a.code == Word(a.summed[1], a.summed[2]) && a.size == Word(a.summed[3], a.summed[4])
    && a.got == a.summed[5..]
  }

  lemma StateAgrees(t: seq<byte>)
    requires Unfinished(t)
    ensures Agrees(StateAfter(t))
  {
    if |t| >= 5 && t[1] == LETTER_M {
      assert t[3..][2..] == t[5..];
    } else if |t| >= 8 {
      assert t[3..][5..] == t[8..];
    }
  }

  // ---------- Refinement ----------

  lemma StepKeepsV1(sum: Sum, t: seq<byte>, b: byte)
    requires |t| >= 3 && Unfinished(t) && Unfinished(t + [b]) && t[1] == LETTER_M
    ensures Step(sum, StateAfter(t), b) == (StateAfter(t + [b]), [])
  {
    var u := t + [b];
    assert u[0] == t[0] && u[1] == t[1] && u[2] == t[2];
    assert u[3..] == t[3..] + [b];
    if |t| == 4 {
      assert u[5..] == [];
    } else if |t| > 4 {
      assert u[5..] == t[5..] + [b];
    }
  }

  lemma StepKeepsV2Code(sum: Sum, t: seq<byte>, b: byte)
    requires 3 <= |t| < 6 && Unfinished(t) && Unfinished(t + [b]) && t[1] == LETTER_X
    ensures Step(sum, StateAfter(t), b) == (StateAfter(t + [b]), [])
  {
    var u := t + [b];
    assert u[0] == t[0] && u[1] == t[1] && u[2] == t[2];
    assert u[3..] == t[3..] + [b];
  }

  lemma StepKeepsV2Size(sum: Sum, t: seq<byte>, b: byte)
    requires 6 <= |t| < 8 && Unfinished(t) && Unfinished(t + [b]) && t[1] == LETTER_X
    ensures Step(sum, StateAfter(t), b) == (StateAfter(t + [b]), [])
  {
    var u := t + [b];
    assert u[0] == t[0] && u[1] == t[1] && u[2] == t[2] && u[4] == t[4] && u[5] == t[5];
    assert u[3..] == t[3..] + [b];
    if |t| == 7 {
      assert u[8..] == [] && u[6] == t[6];
    }
  }

  lemma StepKeepsV2Payload(sum: Sum, t: seq<byte>, b: byte)
    requires 8 <= |t| && Unfinished(t) && Unfinished(t + [b]) && t[1] == LETTER_X
    ensures Step(sum, StateAfter(t), b) == (StateAfter(t + [b]), [])
  {
    var u := t + [b];
    assert u[0] == t[0] && u[1] == t[1] && u[2] == t[2];
    assert u[3..] == t[3..] + [b] && u[8..] == t[8..] + [b];
    hide Word;
  }

  lemma StepKeeps(sum: Sum, t: seq<byte>, b: byte)
    requires Unfinished(t + [b]) && Unfinished(t)
    ensures Step(sum, StateAfter(t), b) == (StateAfter(t + [b]), [])
  {
    if |t| < 3 {
      assert |t| == 2 ==> (t + [b])[3..] == [];
    } else if t[1] == LETTER_M {
      StepKeepsV1(sum, t, b);
    } else if |t| < 6 {
      StepKeepsV2Code(sum, t, b);
    } else if |t| < 8 {
      StepKeepsV2Size(sum, t, b);
    } else {
      StepKeepsV2Payload(sum, t, b);
    }
  }

  /** The byte that finishes a tail decides between a frame and junk, and resets the decoder either way. */
  lemma StepFinishes(sum: Sum, t: seq<byte>, b: byte)
    requires Unfinished(t) && !Unfinished(t + [b])
    ensures var h := First(sum, t + [b]);
            && !h.Incomplete? && h.n == |t| + 1
            && Step(sum, StateAfter(t), b) == (IDLE, if h.Good? then [h.message] else [])
  {
    var u := t + [b];
    if |t| >= 3 {
      assert u[0] == t[0] && u[1] == t[1] && u[2] == t[2];
      if t[1] == LETTER_M {
        assert |t| >= 5;
        assert u[3..|t|] == t[3..] && u[5..|t|] == t[5..];
        assert First(sum, u) == FirstFrame(sum, u, 1, |u|);
      } else {
        assert |t| >= 8;
        assert u[3..|t|] == t[3..] && u[8..|t|] == t[8..];
        assert First(sum, u) == FirstFrame(sum, u, 2, |u|);
      }
    }
  }

  /** The refinement: stepping over a byte is decoding the unfinished tail with the byte appended. */
  lemma StepDecodes(sum: Sum, t: seq<byte>, b: byte)
    requires Unfinished(t)
    ensures var d := Decode(sum, t + [b]);
            Unfinished(d.rest) && Step(sum, StateAfter(t), b) == (StateAfter(d.rest), d.messages)
  {
    var u := t + [b];
    UnfinishedIff(sum, u);
    if Unfinished(u) {
      StepKeeps(sum, t, b);
      TailIsKept(sum, u);
    } else {
      StepFinishes(sum, t, b);
      var h := First(sum, u);
      assert u[|u|..] == [];
      NothingDecoded(sum);
      if h.Good? {
        GoodIsDecoded(sum, u, h.message, |u|);
        assert [h.message] + [] == [h.message];
      } else {
        JunkIsSkipped(sum, u, |u|);
      }
    }
  }

  lemma NothingFed(sum: Sum, t: seq<byte>)
    requires Unfinished(t)
    ensures forall data: seq<byte> :: Decode(sum, t + data[..0]) == Streams.Parsed([], t)
  {
    UnfinishedIff(sum, t);
    TailIsKept(sum, t);
    assert forall data: seq<byte> :: t + data[..0] == t;
  }

  lemma FedNext(sum: Sum, t: seq<byte>, data: seq<byte>, i: nat)
    requires i < |data|
    ensures var p := Decode(sum, t + data[..i]);
            var q := Decode(sum, p.rest + [data[i]]);
            Decode(sum, t + data[..i + 1]) == Streams.Parsed(p.messages + q.messages, q.rest)
  {
    DecodeConcat(sum, t + data[..i], [data[i]]);
    TakeNext(t, data, i);
  }

  lemma TakeNext<T>(t: seq<T>, data: seq<T>, i: nat)
    requires i < |data|
    ensures (t + data[..i]) + [data[i]] == t + data[..i + 1]
  {
  }
}
