/** The frame format in plain bytes: layout, letters, and the two checksums as properties of the bytes. */
module Format {
  import opened Bytes
  import opened Registers
  import opened Crc
  import opened Wire
  import CrcTheory
  import Streams

  // ---------- The v1 checksum ----------

  /** How many of the bytes have the given bit set, counted from the highest. */
  function SetAt(s: seq<byte>, bit: nat): nat {
    if s == [] then 0
    else SetAt(s[..|s| - 1], bit) + if BitAt(RegOf(s[|s| - 1]), bit) then 1 else 0
  }

  /** Every bit is set in an even number of the bytes. */
  ghost predicate Even(s: seq<byte>) {
    forall bit: nat :: bit < 8 ==> SetAt(s, bit) % 2 == 0
  }

  /** A bit of the sum is set if an odd number of bytes have it set. */
  lemma {:induction false} SumIsParity(s: seq<byte>, bit: nat)
    ensures BitAt(XorAll(s), bit) <==> SetAt(s, bit) % 2 == 1
  {
    hide BitAt, Xor, RegOf;
    if s == [] {
      NoBits(bit);
    } else {
      SumIsParity(s[..|s| - 1], bit);
      BitOfXor(XorAll(s[..|s| - 1]), RegOf(s[|s| - 1]), bit);
    }
  }

  lemma NoBits(bit: nat)
    ensures !BitAt(Reg(0), bit)
  {
    ShiftZero(bit);
  }

  lemma BitOfXor(a: Reg, b: Reg, bit: nat)
    ensures BitAt(Xor(a, b), bit) == (BitAt(a, bit) != BitAt(b, bit))
  {
    ShiftOfXor(a, b, bit);
    TopOfXor(ShiftLeft(a, bit), ShiftLeft(b, bit));
  }

  lemma EvenIffZero(s: seq<byte>)
    ensures Even(s) <==> XorAll(s) == Reg(0)
  {
    forall bit: nat
      ensures BitAt(XorAll(s), bit) <==> SetAt(s, bit) % 2 == 1
    {
      SumIsParity(s, bit);
    }
    if XorAll(s) == Reg(0) {
      forall bit: nat | bit < 8
        ensures SetAt(s, bit) % 2 == 0
      {
        ShiftZero(bit);
      }
    }
    if Even(s) {
      ClearBits(XorAll(s));
    }
  }

  /** The v1 checksum is the byte that makes the block even. */
  lemma SumMakesEven(block: seq<byte>)
    requires |block| > 0
    ensures Even(block) <==> block[|block| - 1] == Checksum(1, block[..|block| - 1])
  {
    var a, b := XorAll(block[..|block| - 1]), RegOf(block[|block| - 1]);
    EvenIffZero(block);
    RegOfByte(a);
    XorSelf(a);
    if Xor(a, b) == Reg(0) {
      XorToZero(a, b);
    }
  }

  /** The v2 checksum is the byte that makes the block a multiple of the generator. */
  lemma SumMakesDivisible(block: seq<byte>)
    requires |block| > 0
    ensures CrcTheory.Divisible(Bits(block)) <==> block[|block| - 1] == Checksum(2, block[..|block| - 1])
  {
    CrcTheory.ChecksIffDivisible(block);
  }

  // ---------- Layout ----------

  /** '$', 'M', one of '<', '>' and '!', the length, the code, the payload and one more byte. */
  predicate LooksV1(w: seq<byte>) {
    |w| >= 6 && w[0] == 0x24 && w[1] == 0x4D && w[2] in {0x3C, 0x3E, 0x21} && |w| == 6 + w[3] as int
  }

  /** '$', 'X', one of '<', '>' and '!', a flag, code and length in two bytes each, lower byte first, the
      payload and one more byte. */
  predicate LooksV2(w: seq<byte>) {
    |w| >= 9 && w[0] == 0x24 && w[1] == 0x58 && w[2] in {0x3C, 0x3E, 0x21} && |w| == 9 + w[6] as int + 256 * w[7] as int
  }

  function MessageV1(w: seq<byte>): Message
    requires LooksV1(w)
  {
    Message(1, w[2], w[4], w[5..|w| - 1])
  }

  function MessageV2(w: seq<byte>): Message
    requires LooksV2(w)
  {
    Message(2, w[2], w[4] as int + 256 * w[5] as int, w[8..|w| - 1])
  }

  lemma Behind<T>(w: seq<T>, t: seq<T>)
    ensures (w + t)[|w|..] == t
  {
  }

  lemma SlicesOfPrefix<T>(w: seq<T>, t: seq<T>, k: nat)
    requires k < |w|
    ensures (w + t)[k..|w| - 1] == w[k..|w| - 1]
  {
  }

  lemma BlockOf<T>(w: seq<T>)
    requires |w| >= 4
    ensures w[3..][|w[3..]| - 1] == w[|w| - 1] && w[3..][..|w[3..]| - 1] == w[3..|w| - 1]
  {
  }

  /** What looks like a frame is one if the checksum is right, whatever function it is. */
  lemma LayoutIsHeadV1(sum: Sum, w: seq<byte>, t: seq<byte>)
    requires LooksV1(w)
    ensures First(sum, w + t)
         == if w[|w| - 1] == sum(1, w[3..|w| - 1]) then Streams.Good(MessageV1(w), |w|) else Streams.Junk(|w|)
  {
    SlicesOfPrefix(w, t, 3);
    SlicesOfPrefix(w, t, 5);
  }

  lemma LayoutIsHeadV2(sum: Sum, w: seq<byte>, t: seq<byte>)
    requires LooksV2(w)
    ensures First(sum, w + t)
         == if w[|w| - 1] == sum(2, w[3..|w| - 1]) then Streams.Good(MessageV2(w), |w|) else Streams.Junk(|w|)
  {
    SlicesOfPrefix(w, t, 3);
    SlicesOfPrefix(w, t, 8);
  }

  lemma HeadOfV1(w: seq<byte>, t: seq<byte>)
    requires LooksV1(w)
    ensures First(Checksum, w + t) == if Even(w[3..]) then Streams.Good(MessageV1(w), |w|) else Streams.Junk(|w|)
  {
    hide Checksum, Even, First, MessageV1;
    LayoutIsHeadV1(Checksum, w, t);
    BlockOf(w);
    SumMakesEven(w[3..]);
  }

  lemma HeadOfV2(w: seq<byte>, t: seq<byte>)
    requires LooksV2(w)
    ensures First(Checksum, w + t)
         == if CrcTheory.Divisible(Bits(w[3..])) then Streams.Good(MessageV2(w), |w|) else Streams.Junk(|w|)
  {
    hide Checksum, CrcTheory.Divisible, First, MessageV2;
    LayoutIsHeadV2(Checksum, w, t);
    BlockOf(w);
    SumMakesDivisible(w[3..]);
  }

  /** Bytes laid out as a v1 frame are decoded exactly if they are even from the length byte on, and dropped
      otherwise; what follows them decodes on its own either way. */
  lemma V1DecodedIff(w: seq<byte>, t: seq<byte>)
    requires LooksV1(w)
    ensures var d := Decode(Checksum, t);
            Decode(Checksum, w + t) == Streams.Parsed((if Even(w[3..]) then [MessageV1(w)] else []) + d.messages, d.rest)
  {
    HeadOfV1(w, t);
    Behind(w, t);
    hide First, Checksum, Even;
    if Even(w[3..]) {
      GoodIsDecoded(Checksum, w + t, MessageV1(w), |w|);
    } else {
      JunkIsSkipped(Checksum, w + t, |w|);
      assert [] + Decode(Checksum, t).messages == Decode(Checksum, t).messages;
    }
  }

  /** The same for v2 frames, decoded exactly if they are a multiple of the generator from the flag byte on. */
  lemma V2DecodedIff(w: seq<byte>, t: seq<byte>)
    requires LooksV2(w)
    ensures var d := Decode(Checksum, t);
            Decode(Checksum, w + t)
            == Streams.Parsed((if CrcTheory.Divisible(Bits(w[3..])) then [MessageV2(w)] else []) + d.messages, d.rest)
  {
    HeadOfV2(w, t);
    Behind(w, t);
    hide First, Checksum, CrcTheory.Divisible;
    if CrcTheory.Divisible(Bits(w[3..])) {
      GoodIsDecoded(Checksum, w + t, MessageV2(w), |w|);
    } else {
      JunkIsSkipped(Checksum, w + t, |w|);
      assert [] + Decode(Checksum, t).messages == Decode(Checksum, t).messages;
    }
  }

  // ---------- Every frame has this layout ----------

  /** The bytes are the frame of the message, said without the checksum functions. */
  ghost predicate Spells(w: seq<byte>, m: Message) {
    || (LooksV1(w) && Even(w[3..]) && m == MessageV1(w))
    || (LooksV2(w) && CrcTheory.Divisible(Bits(w[3..])) && m == MessageV2(w))
  }

  lemma FrameLooksV1(m: Message, flag: byte)
    requires Encodable(m) && m.version == 1
    ensures var w := Frame(Checksum, m, flag); LooksV1(w) && m == MessageV1(w)
  {
    var w, crc := Frame(Checksum, m, flag), Checksum(m.version, Body(m, flag));
    hide Checksum;
    PiecesV1(Preamble(m), Lo(|m.payload|), Lo(m.code), m.payload, crc, []);
    assert w + [] == w;
  }

  lemma FrameLooksV2(m: Message, flag: byte)
    requires Encodable(m) && m.version == 2
    ensures var w := Frame(Checksum, m, flag); LooksV2(w) && m == MessageV2(w)
  {
    var w, crc := Frame(Checksum, m, flag), Checksum(m.version, Body(m, flag));
    hide Checksum;
    PiecesV2(Preamble(m), flag, Lo(m.code), Hi(m.code), Lo(|m.payload|), Hi(|m.payload|), m.payload, crc, []);
    assert w + [] == w;
    WordOfHalves(m.code);
    WordOfHalves(|m.payload|);
  }

  /** Behind the preamble a frame is its body and the checksum of it. */
  lemma FrameEnds(m: Message, flag: byte)
    ensures var b := Frame(Checksum, m, flag)[3..];
            |b| > 0 && b[..|b| - 1] == Body(m, flag) && b[|b| - 1] == Checksum(m.version, Body(m, flag))
  {
    hide Checksum, Body;
    assert Frame(Checksum, m, flag)[3..] == Block(Checksum, m, flag);
  }

  lemma FrameSpells(m: Message, flag: byte)
    requires Encodable(m)
    ensures Spells(Frame(Checksum, m, flag), m)
  {
    var w := Frame(Checksum, m, flag);
    FrameEnds(m, flag);
    hide Frame, Checksum, Body;
    if m.version == 1 {
      FrameLooksV1(m, flag);
      SumMakesEven(w[3..]);
    } else {
      FrameLooksV2(m, flag);
      SumMakesDivisible(w[3..]);
    }
  }

  // ---------- What the encoders send ----------

  /** A v1 request in plain bytes; the length byte is cut to eight bits. */
  ghost predicate IsRequestV1(w: seq<byte>, code: byte, payload: seq<byte>) {
    && |w| == 6 + |payload| && w[..5] == [0x24, 0x4D, 0x3C, |payload| % 256, code] && w[5..|w| - 1] == payload
    && Even(w[3..])
  }

  /** A v2 request in plain bytes; the length field is cut to sixteen bits. */
  ghost predicate IsRequestV2(w: seq<byte>, code: nat, payload: seq<byte>) {
    && |w| == 9 + |payload|
    && w[..8] == [0x24, 0x58, 0x3C, 0, code % 256, code / 256 % 256, |payload| % 256, |payload| / 256 % 256]
    && w[8..|w| - 1] == payload && CrcTheory.Divisible(Bits(w[3..]))
  }

  lemma StartOfV1<T>(pre: seq<T>, d: T, e: T, payload: seq<T>, crc: T)
    requires |pre| == 3
    ensures var w := pre + ([d, e] + payload + [crc]);
            |w| == 6 + |payload| && w[..5] == [pre[0], pre[1], pre[2], d, e] && w[5..|w| - 1] == payload
  {
  }

  lemma StartOfV2<T>(pre: seq<T>, f: T, d: T, e: T, g: T, h: T, payload: seq<T>, crc: T)
    requires |pre| == 3
    ensures var w := pre + ([f, d, e, g, h] + payload + [crc]);
            |w| == 9 + |payload| && w[..8] == [pre[0], pre[1], pre[2], f, d, e, g, h] && w[8..|w| - 1] == payload
  {
  }

  lemma RequestV1InBytes(code: byte, payload: seq<byte>)
    ensures IsRequestV1(Frame(Checksum, Message(1, TO_FC, code, payload), 0), code, payload)
  {
    var m := Message(1, TO_FC, code, payload);
    var w, crc := Frame(Checksum, m, 0), Checksum(1, Body(m, 0));
    FrameEnds(m, 0);
    SumMakesEven(w[3..]);
    hide Checksum, Even;
    StartOfV1(Preamble(m), Lo(|payload|), code, payload, crc);
  }

  lemma RequestV2InBytes(code: nat, payload: seq<byte>)
    requires code < 65536
    ensures IsRequestV2(Frame(Checksum, Message(2, TO_FC, code, payload), 0), code, payload)
  {
    var m := Message(2, TO_FC, code, payload);
    var w, crc := Frame(Checksum, m, 0), Checksum(2, Body(m, 0));
    FrameEnds(m, 0);
    SumMakesDivisible(w[3..]);
    hide Checksum, CrcTheory.Divisible;
    StartOfV2(Preamble(m), 0, Lo(code), Hi(code), Lo(|payload|), Hi(|payload|), payload, crc);
  }

  /** A request without payload ends in its own code. */
  lemma EmptyRequest(code: byte)
    ensures Frame(Checksum, Message(1, TO_FC, code, []), 0) == [0x24, 0x4D, 0x3C, 0, code, code]
  {
    var m := Message(1, TO_FC, code, []);
    NumOfZero();
    RegOfByte(Reg(0));
    assert Body(m, 0) == [0, code];
    assert [0, code][..1] == [0] && [0][..0] == [];
    XorZero(RegOf(0));
    XorZero(RegOf(code));
    assert XorAll([0]) == RegOf(0);
    assert XorAll([0, code]) == RegOf(code);
  }
}
