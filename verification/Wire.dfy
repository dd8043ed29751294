/** MSP frames as bytes on the wire, and how a decoder finds them. The layout does not depend on which
    checksum function each protocol version uses, so that function is a parameter here. */
module Wire {
  import opened Bytes
  import opened Streams

  const DOLLAR: byte := 0x24
  const LETTER_M: byte := 0x4D
  const LETTER_X: byte := 0x58
  const TO_FC: byte := 0x3C
  const FROM_FC: byte := 0x3E
  const FC_ERROR: byte := 0x21

  datatype Message = Message(version: int, direction: byte, code: nat, payload: seq<byte>)

  /** The checksum of a body, for each protocol version. */
  type Sum = (int, seq<byte>) -> byte

  predicate IsDirection(b: byte) {
    b == TO_FC || b == FROM_FC || b == FC_ERROR
  }

  // ---------- Frames ----------

  /** The messages a frame can carry: one length byte in v1, two in v2. */
  predicate Encodable(m: Message) {
    && IsDirection(m.direction)
    && (m.version == 1 || m.version == 2)
    && m.code < (if m.version == 1 then 256 else 65536)
    && |m.payload| < (if m.version == 1 then 256 else 65536)
  }

  /** The bytes after the preamble and direction, without the checksum. */
  function Body(m: Message, flag: byte): seq<byte> {
    if m.version == 1 then [Lo(|m.payload|), Lo(m.code)] + m.payload
    else [flag, Lo(m.code), Hi(m.code), Lo(|m.payload|), Hi(|m.payload|)] + m.payload
  }

  /** From the length or flag byte to the checksum, both included. */
  function Block(sum: Sum, m: Message, flag: byte): seq<byte> {
    Body(m, flag) + [sum(m.version, Body(m, flag))]
  }

  function Preamble(m: Message): (p: seq<byte>)
    ensures |p| == 3
  {
    [DOLLAR, if m.version == 1 then LETTER_M else LETTER_X, m.direction]
  }

  function Frame(sum: Sum, m: Message, flag: byte): seq<byte> {
    Preamble(m) + Block(sum, m, flag)
  }

  // ---------- The head of a stream ----------

  function First(sum: Sum, s: seq<byte>): (h: Head<Message>)
    ensures !h.Incomplete? ==> 0 < h.n <= |s|
  {
    if |s| == 0 then Incomplete
    else if s[0] != DOLLAR then Junk(1)
    else if |s| == 1 then Incomplete
    else if s[1] != LETTER_M && s[1] != LETTER_X then Junk(2)
    else if |s| == 2 then Incomplete
    else if !IsDirection(s[2]) then Junk(3)
    else if s[1] == LETTER_M then
      if |s| < 4 then Incomplete else FirstFrame(sum, s, 1, 6 + s[3] as int)
    else
      if |s| < 8 then Incomplete else FirstFrame(sum, s, 2, 9 + Word(s[6], s[7]))
  }

  /** A frame of n bytes is at the head of s, if its checksum is right. */
  function FirstFrame(sum: Sum, s: seq<byte>, version: int, n: nat): (h: Head<Message>)
    requires |s| >= (if version == 1 then 4 else 8) && n >= (if version == 1 then 6 else 9)
    ensures !h.Incomplete? ==> h.n == n <= |s|
  {
    if |s| < n then Incomplete
    else if s[n - 1] != sum(version, s[3..n - 1]) then Junk(n)
    else if version == 1 then Good(Message(1, s[2], s[4], s[5..n - 1]), n)
    else Good(Message(2, s[2], Word(s[4], s[5]), s[8..n - 1]), n)
  }

  lemma FirstFrameIsFinal(sum: Sum, s: seq<byte>, t: seq<byte>, version: int, n: nat)
    requires |s| >= (if version == 1 then 4 else 8) && n >= (if version == 1 then 6 else 9)
    requires n <= |s|
    ensures FirstFrame(sum, s + t, version, n) == FirstFrame(sum, s, version, n)
  {
    assert (s + t)[3..n - 1] == s[3..n - 1];
    if version == 1 {
      assert (s + t)[5..n - 1] == s[5..n - 1];
    } else {
      assert (s + t)[8..n - 1] == s[8..n - 1];
    }
  }

  lemma HeadIsFinal(sum: Sum, s: seq<byte>, t: seq<byte>)
    requires !First(sum, s).Incomplete?
    ensures First(sum, s + t) == First(sum, s)
  {
    if |s| >= 4 && s[0] == DOLLAR && IsDirection(s[2]) {
      if s[1] == LETTER_M {
        FirstFrameIsFinal(sum, s, t, 1, 6 + s[3] as int);
      } else if s[1] == LETTER_X && |s| >= 8 {
        FirstFrameIsFinal(sum, s, t, 2, 9 + Word(s[6], s[7]));
      }
    }
  }

  // ---------- Frames and heads ----------

  lemma PiecesV1<T>(pre: seq<T>, d: T, e: T, payload: seq<T>, crc: T, t: seq<T>)
    requires |pre| == 3
    ensures var s := pre + ([d, e] + payload + [crc]) + t;
            var n := |payload| + 6;
            && s[0] == pre[0] && s[1] == pre[1] && s[2] == pre[2] && s[3] == d && s[4] == e && s[n - 1] == crc
            && s[5..n - 1] == payload && s[3..n - 1] == [d, e] + payload
  {
  }

  lemma PiecesV2<T>(pre: seq<T>, f: T, d: T, e: T, g: T, h: T, payload: seq<T>, crc: T, t: seq<T>)
    requires |pre| == 3
    ensures var s := pre + ([f, d, e, g, h] + payload + [crc]) + t;
            var n := |payload| + 9;
            && s[0] == pre[0] && s[1] == pre[1] && s[2] == pre[2]
            && s[4] == d && s[5] == e && s[6] == g && s[7] == h && s[n - 1] == crc
            && s[8..n - 1] == payload && s[3..n - 1] == [f, d, e, g, h] + payload
  {
  }

  lemma FrameIsFirst(sum: Sum, m: Message, flag: byte, t: seq<byte>)
    requires Encodable(m)
    ensures First(sum, Frame(sum, m, flag) + t) == Good(m, |Frame(sum, m, flag)|)
  {
    var s := Frame(sum, m, flag) + t;
    var crc := sum(m.version, Body(m, flag));
    if m.version == 1 {
      PiecesV1(Preamble(m), Lo(|m.payload|), Lo(m.code), m.payload, crc, t);
      HeadV1(sum, s, m);
    } else {
      PiecesV2(Preamble(m), flag, Lo(m.code), Hi(m.code), Lo(|m.payload|), Hi(|m.payload|), m.payload, crc, t);
      WordOfHalves(|m.payload|);
      WordOfHalves(m.code);
      HeadV2(sum, s, m);
    }
  }

  lemma HeadV1(sum: Sum, s: seq<byte>, m: Message)
    requires Encodable(m) && m.version == 1
    requires var n := 6 + |m.payload|;
             && |s| >= n && s[0] == DOLLAR && s[1] == LETTER_M && s[2] == m.direction
             && s[3] == |m.payload| && s[4] == m.code && s[5..n - 1] == m.payload
             && s[n - 1] == sum(1, s[3..n - 1])
    ensures First(sum, s) == Good(m, 6 + |m.payload|)
  {
  }

  lemma HeadV2(sum: Sum, s: seq<byte>, m: Message)
    requires Encodable(m) && m.version == 2
    requires var n := 9 + |m.payload|;
             && |s| >= n && s[0] == DOLLAR && s[1] == LETTER_X && s[2] == m.direction
             && Word(s[4], s[5]) == m.code && Word(s[6], s[7]) == |m.payload| && s[8..n - 1] == m.payload
             && s[n - 1] == sum(2, s[3..n - 1])
    ensures First(sum, s) == Good(m, 9 + |m.payload|)
  {
  }

  lemma Rejoin(s: seq<byte>, n: nat, body: seq<byte>)
    requires 3 < n <= |s| && s[3..n - 1] == body
    ensures s[..n] == [s[0], s[1], s[2]] + (body + [s[n - 1]])
  {
  }

  lemma Slice2<T>(s: seq<T>, n: nat)
    requires 5 <= n <= |s|
    ensures s[3..n] == [s[3], s[4]] + s[5..n]
  {
  }

  lemma Slice5<T>(s: seq<T>, n: nat)
    requires 8 <= n <= |s|
    ensures s[3..n] == [s[3], s[4], s[5], s[6], s[7]] + s[8..n]
  {
  }

  /** The head is taken for a frame only when it is one, for some flag byte. */
  lemma FirstIsFrame(sum: Sum, s: seq<byte>)
    requires First(sum, s).Good?
    ensures var m, n := First(sum, s).message, First(sum, s).n;
            Encodable(m) && s[..n] == Frame(sum, m, if m.version == 2 then s[3] else 0)
  {
    var m, n := First(sum, s).message, First(sum, s).n;
    if s[1] == LETTER_M {
      Slice2(s, n - 1);
      Rejoin(s, n, Body(m, 0));
    } else {
      HalvesOfWord(s[4], s[5]);
      HalvesOfWord(s[6], s[7]);
      Slice5(s, n - 1);
      Rejoin(s, n, Body(m, s[3]));
    }
  }

  // ---------- Decoding a stream ----------

  ghost function Heads(sum: Sum): seq<byte> -> Head<Message> {
    (s: seq<byte>) => First(sum, s)
  }

  lemma HeadsRecognise(sum: Sum)
    ensures Recogniser(Heads(sum))
  {
    forall s, t | !First(sum, s).Incomplete?
      ensures First(sum, s + t) == First(sum, s)
    {
      HeadIsFinal(sum, s, t);
    }
  }

  /** Every frame of the stream in order, and the unfinished tail. */
  ghost function Decode(sum: Sum, s: seq<byte>): Parsed<byte, Message> {
    HeadsRecognise(sum);
    Parse(Heads(sum), s)
  }

  lemma NothingDecoded(sum: Sum)
    ensures Decode(sum, []) == Parsed([], [])
  {
    HeadsRecognise(sum);
  }

  lemma TailIsKept(sum: Sum, t: seq<byte>)
    requires First(sum, t).Incomplete?
    ensures Decode(sum, t) == Parsed([], t)
  {
    HeadsRecognise(sum);
  }

  lemma JunkIsSkipped(sum: Sum, s: seq<byte>, n: nat)
    requires First(sum, s) == Junk(n)
    ensures Decode(sum, s) == Decode(sum, s[n..])
  {
    HeadsRecognise(sum);
  }

  lemma GoodIsDecoded(sum: Sum, s: seq<byte>, m: Message, n: nat)
    requires First(sum, s) == Good(m, n)
    ensures Decode(sum, s) == Parsed([m] + Decode(sum, s[n..]).messages, Decode(sum, s[n..]).rest)
  {
    HeadsRecognise(sum);
  }

  lemma DecodeConcat(sum: Sum, a: seq<byte>, b: seq<byte>)
    ensures var p := Decode(sum, a);
            var q := Decode(sum, p.rest + b);
            Decode(sum, a + b) == Parsed(p.messages + q.messages, q.rest)
  {
    HeadsRecognise(sum);
    ParseConcat(Heads(sum), a, b);
  }

  lemma RestIsIncomplete(sum: Sum, s: seq<byte>)
    ensures First(sum, Decode(sum, s).rest).Incomplete?
  {
    HeadsRecognise(sum);
    RestIsUnfinished(Heads(sum), s);
  }

  /** Feeding the chunks one by one, keeping the unfinished tail in between. */
  ghost function DecodeAll(sum: Sum, tail: seq<byte>, chunks: seq<seq<byte>>): Parsed<byte, Message> {
    HeadsRecognise(sum);
    ParseAll(Heads(sum), tail, chunks)
  }

  lemma ChunkingIsInvisible(sum: Sum, tail: seq<byte>, chunks: seq<seq<byte>>)
    requires First(sum, tail).Incomplete?
    ensures DecodeAll(sum, tail, chunks) == Decode(sum, tail + Joined(chunks))
  {
    HeadsRecognise(sum);
    ChunksDoNotMatter(Heads(sum), tail, chunks);
  }
}
