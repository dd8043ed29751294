/** What bytes before a frame do to it: which prefixes are harmless, and which frames are lost. */
module Prefixes {
  import opened Bytes
  import Registers
  import opened Crc
  import CrcTheory
  import Streams
  import opened Wire
  import Traffic

  // ---------- Lost frames ----------

  lemma MessageHasSpan(spans: seq<Streams.Span<Message>>, m: Message) returns (span: Streams.Span<Message>)
    requires m in Streams.MessagesOf(spans)
    ensures span in spans && span.message == m
  {
    var i :| 0 <= i < |Streams.MessagesOf(spans)| && Streams.MessagesOf(spans)[i] == m;
    span := spans[i];
  }

  /** A message is decoded only from bytes that can hold its frame. */
  lemma TooShortFor(sum: Sum, s: seq<byte>, m: Message, flag: byte)
    requires |s| < |Frame(sum, m, flag)|
    ensures m !in Decode(sum, s).messages
  {
    var spans := Traffic.DecodedIsOnTheWire(sum, s);
    if m in Decode(sum, s).messages {
      var span := MessageHasSpan(spans, m);
      assert Traffic.IsFrameSlice(sum, s, span);
      var f :| s[span.start..span.end] == Frame(sum, m, f);
      FlagKeepsLength(sum, m, f, flag);
    }
  }

  lemma FlagKeepsLength(sum: Sum, m: Message, f: byte, g: byte)
    ensures |Frame(sum, m, f)| == |Frame(sum, m, g)|
  {
  }

  /** After '$', or '$' and a protocol letter, any frame loses its own '$' and is not decoded. */
  lemma PreambleLosesFrame(sum: Sum, t: seq<byte>, m: Message, flag: byte)
    requires First(sum, t).Incomplete? && 1 <= |t| <= 2
    ensures m !in Decode(sum, t + Frame(sum, m, flag)).messages
  {
    var w := Frame(sum, m, flag);
    assert (t + w)[|t|] == DOLLAR;
    JunkIsSkipped(sum, t + w, |t| + 1);
    assert (t + w)[|t| + 1..] == w[1..];
    TooShortFor(sum, w[1..], m, flag);
  }

  /** A second '$' loses the frame. */
  lemma DoubledDollarLosesFrame(sum: Sum, m: Message, flag: byte)
    ensures m !in Decode(sum, [DOLLAR] + Frame(sum, m, flag)).messages
  {
    PreambleLosesFrame(sum, [DOLLAR], m, flag);
  }

  // ---------- Harmless prefixes ----------

  /** Every frame behind the prefix is decoded. */
  ghost predicate Harmless(sum: Sum, p: seq<byte>) {
    forall m: Message, flag: byte :: Encodable(m) ==> Survives(sum, p, m, flag)
  }

  ghost predicate Survives(sum: Sum, p: seq<byte>, m: Message, flag: byte) {
    Decode(sum, p + Frame(sum, m, flag)).messages == Decode(sum, p).messages + [m]
  }

  /** Behind a prefix that leaves the decoder idle, every stream decodes as it does alone. */
  lemma IdlePrefix(sum: Sum, p: seq<byte>, s: seq<byte>)
    requires Decode(sum, p).rest == []
    ensures Decode(sum, p + s) == Streams.Parsed(Decode(sum, p).messages + Decode(sum, s).messages, Decode(sum, s).rest)
  {
    DecodeConcat(sum, p, s);
    assert [] + s == s;
  }

  /** An empty message of the other protocol version than the unfinished tail. */
  function Victim(t: seq<byte>): Message {
    Message(if |t| >= 2 && t[1] == LETTER_M then 2 else 1, FROM_FC, 0, [])
  }

  /** The checksums of the two frames are no '$'. */
  predicate PlainSums(sum: Sum) {
    sum(1, [0, 0]) != DOLLAR && sum(2, [0, 0, 0, 0, 0]) != DOLLAR
  }

  lemma VictimFrame(sum: Sum, t: seq<byte>)
    requires PlainSums(sum)
    ensures Encodable(Victim(t)) && DOLLAR !in Frame(sum, Victim(t), 0)[1..]
  {
    var m := Victim(t);
    var w := Frame(sum, m, 0);
    if m.version == 1 {
      assert Body(m, 0) == [0, 0];
      assert w == [DOLLAR, LETTER_M, FROM_FC, 0, 0, sum(1, [0, 0])];
    } else {
      assert Body(m, 0) == [0, 0, 0, 0, 0];
      assert w == [DOLLAR, LETTER_X, FROM_FC, 0, 0, 0, 0, 0, sum(2, [0, 0, 0, 0, 0])];
    }
  }

  /** A frame that the tail takes for its own has the version of the tail. */
  lemma VersionOfTail(sum: Sum, t: seq<byte>, b: seq<byte>)
    requires t != [] && First(sum, t).Incomplete? && First(sum, t + b).Good?
    requires |b| > 0 && b[0] == DOLLAR
    ensures |t| >= 2 && First(sum, t + b).message.version == if t[1] == LETTER_M then 1 else 2
  {
    assert (t + b)[|t|] == b[0];
    assert |t| >= 2 ==> (t + b)[1] == t[1];
  }

  /** Every unfinished tail loses a frame. */
  lemma TailLosesVictim(sum: Sum, t: seq<byte>)
    requires PlainSums(sum) && t != [] && First(sum, t).Incomplete?
    ensures Decode(sum, t + Frame(sum, Victim(t), 0)).messages != [Victim(t)]
  {
    var w := Frame(sum, Victim(t), 0);
    var s := t + w;
    var h := First(sum, s);
    VictimFrame(sum, t);
    if h.Incomplete? {
      TailIsKept(sum, s);
    } else if h.Good? {
      VersionOfTail(sum, t, w);
      GoodIsDecoded(sum, s, h.message, h.n);
      assert Decode(sum, s).messages[0] == h.message;
    } else {
      CompletedLater(sum, t, w);
      assert s[h.n..] == w[h.n - |t|..];
      assert DOLLAR !in w[1..][h.n - |t| - 1..];
      assert w[1..][h.n - |t| - 1..] == w[h.n - |t|..];
      JunkIsSkipped(sum, s, h.n);
      Traffic.NoDollarIsNoise(sum, s[h.n..]);
    }
  }

  /** What completes an unfinished tail reaches beyond it. */
  lemma CompletedLater(sum: Sum, t: seq<byte>, b: seq<byte>)
    requires First(sum, t).Incomplete? && !First(sum, t + b).Incomplete?
    ensures First(sum, t + b).n > |t|
  {
    assert (t + b)[..|t|] == t;
    if First(sum, t + b).n <= |t| {
      HeadWithin(sum, t + b, |t|);
    }
  }

  /** A head is recognised in any bytes that hold it. */
  lemma HeadWithin(sum: Sum, s: seq<byte>, k: nat)
    requires !First(sum, s).Incomplete? && First(sum, s).n <= k <= |s|
    ensures !First(sum, s[..k]).Incomplete?
  {
    var n := First(sum, s).n;
    HeadOfPrefix(sum, s);
    assert s[..n] + s[n..k] == s[..k];
    HeadIsFinal(sum, s[..n], s[n..k]);
  }

  /** The bytes of the head alone have the same head. */
  lemma HeadOfPrefix(sum: Sum, s: seq<byte>)
    requires !First(sum, s).Incomplete?
    ensures First(sum, s[..First(sum, s).n]) == First(sum, s)
  {
    var n := First(sum, s).n;
    var p := s[..n];
    if n > 3 {
      assert p[0] == s[0] && p[1] == s[1] && p[2] == s[2];
      assert p[3..n - 1] == s[3..n - 1];
      if s[1] == LETTER_M {
        assert p[5..n - 1] == s[5..n - 1];
      } else {
        assert p[8..n - 1] == s[8..n - 1];
      }
    }
  }

  /** The frames behind a prefix are all decoded exactly if the prefix leaves the decoder idle. */
  lemma HarmlessIff(sum: Sum, p: seq<byte>)
    requires PlainSums(sum)
    ensures Harmless(sum, p) <==> Decode(sum, p).rest == []
  {
    var t := Decode(sum, p).rest;
    if t == [] {
      forall m: Message, flag: byte | Encodable(m)
        ensures Survives(sum, p, m, flag)
      {
        IdlePrefix(sum, p, Frame(sum, m, flag));
        Traffic.FrameIsDecoded(sum, m, flag, []);
        NothingDecoded(sum);
        assert Frame(sum, m, flag) + [] == Frame(sum, m, flag);
      }
    } else {
      RestIsIncomplete(sum, p);
      VictimFrame(sum, t);
      TailLosesVictim(sum, t);
      var w := Frame(sum, Victim(t), 0);
      DecodeConcat(sum, p, w);
      CancelLeft(Decode(sum, p).messages, Decode(sum, t + w).messages, [Victim(t)]);
      assert !Survives(sum, p, Victim(t), 0);
    }
  }

  lemma CancelLeft<T>(a: seq<T>, b: seq<T>, c: seq<T>)
    ensures a + b == a + c ==> b == c
  {
    assert (a + b)[|a|..] == b && (a + c)[|a|..] == c;
  }

  // ---------- The checksums of the source ----------

  lemma {:induction false} RegistersOfZeros(body: seq<byte>)
    requires forall i :: 0 <= i < |body| ==> body[i] == 0
    ensures XorAll(body) == Registers.Reg(0) && Dvb(body, Registers.Reg(0)) == Registers.Reg(0)
  {
    if body != [] {
      RegistersOfZeros(body[..|body| - 1]);
      Registers.NumOfZero();
      CrcTheory.TableZeroIff(Registers.Reg(0), Registers.RegOf(0));
      Registers.XorToZero(Registers.Reg(0), Registers.RegOf(0));
    }
  }

  lemma ChecksumsArePlain()
    ensures PlainSums(Checksum)
  {
    RegistersOfZeros([0, 0]);
    RegistersOfZeros([0, 0, 0, 0, 0]);
    Registers.NumOfZero();
  }

  /** For the source's checksums: every frame behind a prefix is decoded exactly if the prefix leaves the
      decoder idle; after any other prefix some frame is lost. */
  lemma PrefixIsHarmlessIff(p: seq<byte>)
    ensures (forall m: Message, flag: byte :: Encodable(m) ==>
               Decode(Checksum, p + Frame(Checksum, m, flag)).messages == Decode(Checksum, p).messages + [m])
            <==> Decode(Checksum, p).rest == []
  {
    ChecksumsArePlain();
    HarmlessIff(Checksum, p);
    forall m: Message, flag: byte
      ensures Survives(Checksum, p, m, flag)
         <==> Decode(Checksum, p + Frame(Checksum, m, flag)).messages == Decode(Checksum, p).messages + [m]
    {
    }
  }
}
