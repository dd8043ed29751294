/** What the decoder makes of serial traffic: frames, noise between them, and damaged frames. */
module Traffic {
  import opened Bytes
  import Registers
  import opened Crc
  import CrcTheory
  import Format
  import opened Streams
  import opened Wire

  datatype Item =
    | Noise(bytes: seq<byte>)
    | Sent(message: Message, flag: byte)
    | Damaged(message: Message, flag: byte, error: seq<byte>)

  /** Noise holds no frame, and leaves the decoder idle. Damage hits a v2 frame behind its direction byte,
      leaves the length alone, and flips an odd number of bits or bits within eight consecutive positions only. */
  ghost predicate Plausible(item: Item) {
    match item
    case Noise(bytes) => IsNoise(Checksum, bytes)
    case Sent(m, flag) => Encodable(m)
    case Damaged(m, flag, error) =>
      && Encodable(m) && m.version == 2
      && |error| == |Block(Checksum, m, flag)|
      && error[3] == 0 && error[4] == 0
      && CrcTheory.Noticeable(error)
  }

  ghost predicate IsNoise(sum: Sum, bytes: seq<byte>) {
    Decode(sum, bytes) == Parsed([], [])
  }

  function BytesOf(item: Item): seq<byte> {
    match item
    case Noise(bytes) => bytes
    case Sent(m, flag) => Frame(Checksum, m, flag)
    case Damaged(m, flag, error) => Preamble(m) + Hit(Block(Checksum, m, flag), error)
  }

  function Hit(block: seq<byte>, error: seq<byte>): seq<byte> {
    if |error| == |block| then Registers.XorBytes(block, error) else block
  }

  function MessageOf(item: Item): seq<Message> {
    if item.Sent? then [item.message] else []
  }

  function Stream(items: seq<Item>): seq<byte> {
    if items == [] then [] else BytesOf(items[0]) + Stream(items[1..])
  }

  function Messages(items: seq<Item>): seq<Message> {
    if items == [] then [] else MessageOf(items[0]) + Messages(items[1..])
  }

  /** Bytes without a '$' are noise. */
  lemma {:induction false} NoDollarIsNoise(sum: Sum, bytes: seq<byte>)
    requires DOLLAR !in bytes
    ensures IsNoise(sum, bytes)
  {
    if bytes == [] {
      NothingDecoded(sum);
    } else {
      NoDollarIsNoise(sum, bytes[1..]);
      JunkIsSkipped(sum, bytes, 1);
    }
  }

  lemma NoiseIsSkipped(sum: Sum, noise: seq<byte>, t: seq<byte>)
    requires IsNoise(sum, noise)
    ensures Decode(sum, noise + t) == Decode(sum, t)
  {
    DecodeConcat(sum, noise, t);
    assert [] + t == t;
    assert [] + Decode(sum, t).messages == Decode(sum, t).messages;
  }

  lemma FrameIsDecoded(sum: Sum, m: Message, flag: byte, t: seq<byte>)
    requires Encodable(m)
    ensures Decode(sum, Frame(sum, m, flag) + t) == Parsed([m] + Decode(sum, t).messages, Decode(sum, t).rest)
  {
    var w := Frame(sum, m, flag);
    FrameIsFirst(sum, m, flag, t);
    GoodIsDecoded(sum, w + t, m, |w|);
    assert (w + t)[|w|..] == t;
  }

  lemma PrefixOf<T>(pre: seq<T>, block: seq<T>, t: seq<T>)
    requires |pre| == 3 && |block| > 5
    ensures var s := pre + block + t;
            && s[0] == pre[0] && s[1] == pre[1] && s[2] == pre[2]
            && s[6] == block[3] && s[7] == block[4]
            && s[3..2 + |block|] == block[..|block| - 1] && s[2 + |block|] == block[|block| - 1]
            && s[3 + |block|..] == t
  {
  }

  /** A v2 frame whose checksum is wrong is dropped, and nothing else with it. */
  lemma BadBlockIsDropped(sum: Sum, pre: seq<byte>, block: seq<byte>, n: nat, t: seq<byte>)
    requires |pre| == 3 && pre[0] == DOLLAR && pre[1] == LETTER_X && IsDirection(pre[2])
    requires n < 65536 && |block| == n + 6 && block[3] == Lo(n) && block[4] == Hi(n)
    requires block[|block| - 1] != sum(2, block[..|block| - 1])
    ensures Decode(sum, pre + block + t) == Decode(sum, t)
  {
    var s := pre + block + t;
    PrefixOf(pre, block, t);
    WordOfHalves(n);
    JunkIsSkipped(sum, s, 9 + n);
  }

  lemma HitBlock(m: Message, flag: byte, error: seq<byte>)
    requires Plausible(Damaged(m, flag, error))
    ensures var hit := Hit(Block(Checksum, m, flag), error);
            && |hit| == |m.payload| + 6 && hit[3] == Lo(|m.payload|) && hit[4] == Hi(|m.payload|)
            && hit[|hit| - 1] != Checksum(2, hit[..|hit| - 1])
  {
    var block := Block(Checksum, m, flag);
    BlockParts(m, flag);
    hide Block, CrcTheory.Noticeable, Checksum;
    BlockChecks(block);
    CrcTheory.NoticeableIsNoticed(block, error);
    BlockChecks(Registers.XorBytes(block, error));
    Registers.XorByteZero(block[3]);
    Registers.XorByteZero(block[4]);
  }

  lemma BlockParts(m: Message, flag: byte)
    requires Encodable(m) && m.version == 2
    ensures var block := Block(Checksum, m, flag);
            && |block| == |m.payload| + 6 && block[3] == Lo(|m.payload|) && block[4] == Hi(|m.payload|)
            && block[|block| - 1] == Checksum(2, block[..|block| - 1])
  {
    hide Checksum, Lo, Hi, Encodable;
    var block := Block(Checksum, m, flag);
    assert block[..|block| - 1] == Body(m, flag);
  }

  lemma BlockChecks(block: seq<byte>)
    requires |block| > 0
    ensures CrcTheory.Checks(block) <==> block[|block| - 1] == Checksum(2, block[..|block| - 1])
  {
  }

  lemma DamagedIsDropped(m: Message, flag: byte, error: seq<byte>, t: seq<byte>)
    requires Plausible(Damaged(m, flag, error))
    ensures Decode(Checksum, BytesOf(Damaged(m, flag, error)) + t) == Decode(Checksum, t)
  {
    HitBlock(m, flag, error);
    hide Decode, Hit, Block, Checksum, CrcTheory.Noticeable;
    BadBlockIsDropped(Checksum, Preamble(m), Hit(Block(Checksum, m, flag), error), |m.payload|, t);
  }

  lemma ItemIsDecoded(item: Item, t: seq<byte>)
    requires Plausible(item)
    ensures Decode(Checksum, BytesOf(item) + t)
         == Parsed(MessageOf(item) + Decode(Checksum, t).messages, Decode(Checksum, t).rest)
  {
    match item
    case Noise(bytes) =>
      NoiseIsSkipped(Checksum, bytes, t);
    case Sent(m, flag) =>
      FrameIsDecoded(Checksum, m, flag, t);
    case Damaged(m, flag, error) =>
      DamagedIsDropped(m, flag, error, t);
      hide Decode, BytesOf, Checksum;
      assert [] + Decode(Checksum, t).messages == Decode(Checksum, t).messages;
  }

  /** Any plausible traffic decodes to exactly the frames sent, in order, leaving nothing behind. */
  lemma {:induction false} TrafficIsDecoded(items: seq<Item>)
    requires forall item <- items :: Plausible(item)
    ensures Decode(Checksum, Stream(items)) == Parsed(Messages(items), [])
  {
    if items == [] {
      NothingDecoded(Checksum);
    } else {
      TrafficIsDecoded(items[1..]);
      ItemIsDecoded(items[0], Stream(items[1..]));
    }
  }

  /** ... however the traffic is cut into reads. */
  lemma TrafficInPieces(items: seq<Item>, chunks: seq<seq<byte>>)
    requires forall item <- items :: Plausible(item)
    requires Joined(chunks) == Stream(items)
    ensures DecodeAll(Checksum, [], chunks) == Parsed(Messages(items), [])
  {
    ChunkingIsInvisible(Checksum, [], chunks);
    TrafficIsDecoded(items);
    assert [] + Joined(chunks) == Joined(chunks);
  }

  // ---------- The other direction ----------

  ghost predicate IsFrameSlice(sum: Sum, s: seq<byte>, span: Span<Message>) {
    && span.start <= span.end <= |s|
    && Encodable(span.message)
    && exists flag :: s[span.start..span.end] == Frame(sum, span.message, flag)
  }

  lemma UnitIsFrameSlice(sum: Sum, s: seq<byte>, span: Span<Message>)
    requires IsUnit(Heads(sum), s, span)
    ensures IsFrameSlice(sum, s, span)
  {
    var t := s[span.start..];
    FirstIsFrame(sum, t);
    assert t[..span.end - span.start] == s[span.start..span.end];
  }

  /** Every decoded message is a slice of the stream that is its frame; the slices are disjoint and in order,
      and the tail kept for later is what follows them. */
  lemma DecodedIsOnTheWire(sum: Sum, s: seq<byte>) returns (spans: seq<Span<Message>>)
    ensures var d := Decode(sum, s);
            && d.messages == MessagesOf(spans)
            && |d.rest| <= |s| && d.rest == s[|s| - |d.rest|..]
            && Ordered(spans, 0, |s| - |d.rest|)
    ensures forall span <- spans :: IsFrameSlice(sum, s, span)
  {
    HeadsRecognise(sum);
    spans := Spans(Heads(sum), s, 0);
    assert s[0..] == s;
    SpansCarryMessages(Heads(sum), s, 0);
    SpansAreUnits(Heads(sum), s, 0);
    SpansAreOrdered(Heads(sum), s, 0);
    RestIsSuffix(Heads(sum), s);
    forall span | span in spans
      ensures IsFrameSlice(sum, s, span)
    {
      UnitIsFrameSlice(sum, s, span);
    }
  }

  /** The same, with the slices described in plain bytes. */
  lemma DecodedIsSpelled(s: seq<byte>) returns (spans: seq<Span<Message>>)
    ensures var d := Decode(Checksum, s);
            && d.messages == MessagesOf(spans)
            && |d.rest| <= |s| && d.rest == s[|s| - |d.rest|..]
            && Ordered(spans, 0, |s| - |d.rest|)
    ensures forall span <- spans ::
              0 <= span.start <= span.end <= |s| && Format.Spells(s[span.start..span.end], span.message)
  {
    spans := DecodedIsOnTheWire(Checksum, s);
    hide Format.Spells, Checksum;
    forall span | span in spans
      ensures 0 <= span.start <= span.end <= |s| && Format.Spells(s[span.start..span.end], span.message)
    {
      assert IsFrameSlice(Checksum, s, span);
      var flag :| s[span.start..span.end] == Frame(Checksum, span.message, flag);
      Format.FrameSpells(span.message, flag);
    }
  }

  lemma DecodedIsEncodable(sum: Sum, s: seq<byte>)
    ensures forall m <- Decode(sum, s).messages :: Encodable(m)
  {
    var spans := DecodedIsOnTheWire(sum, s);
    forall m | m in Decode(sum, s).messages
      ensures Encodable(m)
    {
      var i :| 0 <= i < |spans| && MessagesOf(spans)[i] == m;
      assert spans[i] in spans;
    }
  }

  /** What the encoders produce decodes to the message exactly when the payload fits the length field. */
  lemma EncodedDecodesIff(sum: Sum, m: Message, flag: byte)
    requires IsDirection(m.direction) && (m.version == 1 || m.version == 2)
    requires m.code < if m.version == 1 then 256 else 65536
    ensures Decode(sum, Frame(sum, m, flag)) == Parsed([m], []) <==> |m.payload| < if m.version == 1 then 256 else 65536
  {
    DecodedIsEncodable(sum, Frame(sum, m, flag));
    if Encodable(m) {
      FrameIsDecoded(sum, m, flag, []);
      NothingDecoded(sum);
      assert Frame(sum, m, flag) + [] == Frame(sum, m, flag);
    }
  }
}
