/** The dataflash commands of the MSP client (internal/msp/client.go). */
module FlashProtocol {
  import opened Bytes
  import opened Crc
  import CrcTheory
  import Streams
  import opened Wire
  import opened Huffman
  import HuffmanTable
  import HuffmanCode
  import Format
  import opened Client

  const DATAFLASH_SUMMARY: byte := 70
  const DATAFLASH_READ: byte := 71
  const DATAFLASH_ERASE: byte := 72
  const COMPRESSION_NONE: byte := 0
  const COMPRESSION_HUFFMAN: byte := 1

  // ---------- Read requests ----------

  datatype ReadRequest = ReadRequest(address: nat, size: nat, compressed: bool)

  ghost predicate InRange32(r: ReadRequest) {
    r.address < 0x1_0000_0000 && r.size < 65536
  }

  /** Compression is asked for only where Betaflight runs. */
  function RequestPayload(btfl: bool, r: ReadRequest): (p: seq<byte>)
    requires InRange32(r)
    ensures |p| == 7
  {
    LongBytes(r.address) + [Lo(r.size), Hi(r.size), if btfl && r.compressed then 1 else 0]
  }

  /** A request can be read back from its payload, without the compression that was dropped. */
  lemma RequestSurvives(btfl: bool, r: ReadRequest)
    requires InRange32(r)
    ensures var p := RequestPayload(btfl, r);
            ReadRequest(Long(p[..4]), Word(p[4], p[5]), p[6] == 1) == r.(compressed := btfl && r.compressed)
  {
    WordOfHalves(r.size);
    assert RequestPayload(btfl, r)[..4] == LongBytes(r.address);
  }

  /** The request in plain bytes: MSP code 71, seven bytes of payload, every number with its lowest byte first. */
  lemma RequestInBytes(btfl: bool, r: ReadRequest)
    requires InRange32(r)
    ensures var w := Frame(Checksum, Message(2, TO_FC, DATAFLASH_READ, RequestPayload(btfl, r)), 0);
            && |w| == 16 && w[..8] == [0x24, 0x58, 0x3C, 0, 71, 0, 7, 0]
            && w[8] as int + 0x100 * w[9] as int + 0x1_0000 * w[10] as int + 0x100_0000 * w[11] as int == r.address
            && w[12] as int + 0x100 * w[13] as int == r.size && w[14] == if btfl && r.compressed then 1 else 0
  {
    var p := RequestPayload(btfl, r);
    var w := Frame(Checksum, Message(2, TO_FC, DATAFLASH_READ, p), 0);
    Format.RequestV2InBytes(DATAFLASH_READ, p);
    hide Frame, Format.IsRequestV2, RequestPayload, Long, LongBytes;
    SevenByteRequest(w, p);
    SevenBytes(w, p);
    RequestParts(btfl, r);
  }

  lemma SevenByteRequest(w: seq<byte>, p: seq<byte>)
    requires Format.IsRequestV2(w, 71, p) && |p| == 7
    ensures |w| == 16 && w[..8] == [0x24, 0x58, 0x3C, 0, 71, 0, 7, 0] && w[8..15] == p
  {
    hide CrcTheory.Divisible;
  }

  lemma SevenBytes<T>(w: seq<T>, p: seq<T>)
    requires |w| == 16 && |p| == 7 && w[8..15] == p
    ensures w[8] == p[0] && w[9] == p[1] && w[10] == p[2] && w[11] == p[3]
    ensures w[12] == p[4] && w[13] == p[5] && w[14] == p[6]
  {
  }

  lemma RequestParts(btfl: bool, r: ReadRequest)
    requires InRange32(r)
    ensures var p := RequestPayload(btfl, r);
            && p[0] as int + 0x100 * p[1] as int + 0x1_0000 * p[2] as int + 0x100_0000 * p[3] as int == r.address
            && p[4] as int + 0x100 * p[5] as int == r.size
            && p[6] == if btfl && r.compressed then 1 else 0
  {
    hide Long, LongBytes;
    WordOfHalves(r.size);
    assert RequestPayload(btfl, r)[..4] == LongBytes(r.address);
    LongIsLittleEndian(LongBytes(r.address));
  }

  method SendFlashReadRequest(client: MspClient, btfl: bool, r: ReadRequest) returns (ok: bool)
    requires client.Valid() && TableReady(client.decoder.crc8Table) && InRange32(r)
    modifies client.port
    ensures client.Valid() && client.port.script == old(client.port.script)
    ensures var m := Message(2, TO_FC, DATAFLASH_READ, RequestPayload(btfl, r));
            client.port.sent == old(client.port.sent) + if ok then Frame(Checksum, m, 0) else []
  {
    var compression := r.compressed;
    if !btfl {
      compression := false;
    }
    var comprFlag: byte := 0;
    if compression {
      comprFlag := 1;
    }
    var payload := LongBytes(r.address) + [Lo(r.size), Hi(r.size), comprFlag];
    ok := client.SendV2(DATAFLASH_READ, payload);
  }

  /** A decoder on the other side finds the request, wherever it is in the stream. */
  lemma RequestArrives(btfl: bool, r: ReadRequest, t: seq<byte>)
    requires InRange32(r)
    ensures var m := Message(2, TO_FC, DATAFLASH_READ, RequestPayload(btfl, r));
            First(Checksum, Frame(Checksum, m, 0) + t) == Streams.Good(m, 16)
  {
    FrameIsFirst(Checksum, Message(2, TO_FC, DATAFLASH_READ, RequestPayload(btfl, r)), 0, t);
  }

  // ---------- Read answers ----------

  datatype Answer = Chunk(address: nat, data: seq<byte>) | Unreadable

  /** A Betaflight answer: address, data size, kind of compression and data. The size is cut to what is there. */
  function BtflAnswer(m: Lookup, p: seq<byte>): Answer
    requires |p| >= 4
  {
    if |p| < 7 then Unreadable
    else
      var announced := Word(p[4], p[5]);
      var raw := p[7..][..if |p| - 7 < announced then |p| - 7 else announced];
      if p[6] != COMPRESSION_HUFFMAN then Chunk(Long(p[..4]), raw)
      else if |raw| < 2 then Unreadable
      else
        var decoded := DecodeFrom(m, InputBits(raw[2..]), 0, Word(raw[0], raw[1]));
        if decoded.Decoded? then Chunk(Long(p[..4]), decoded.out) else Unreadable
  }

  /** An answer of any variant. Other firmware sends the data right after the address. */
  function ReadAnswer(btfl: bool, m: Lookup, p: seq<byte>): Answer {
    if |p| < 4 then Unreadable
    else if btfl then BtflAnswer(m, p)
    else Chunk(Long(p[..4]), p[4..])
  }

  method ParseFlashRead(btfl: bool, huffmanLookup: Lookup, p: seq<byte>) returns (r: Answer)
    ensures r == ReadAnswer(btfl, huffmanLookup, p)
  {
    if |p| < 4 {
      return Unreadable;
    }
    var address := Long(p[0..4]);
    assert p[0..4] == p[..4];
    if !btfl {
      return Chunk(address, p[4..]);
    }
    if |p| < 7 {
      return Unreadable;
    }
    var dataSize := Word(p[4], p[5]);
    var raw := p[7..];
    if |raw| < dataSize {
      dataSize := |raw|;
    }
    raw := raw[..dataSize];
    if p[6] != COMPRESSION_HUFFMAN {
      return Chunk(address, raw);
    }
    if |raw| < 2 {
      return Unreadable;
    }
    var decoded := HuffmanDecode(huffmanLookup, raw[2..], Word(raw[0], raw[1]));
    r := if decoded.Decoded? then Chunk(address, decoded.out) else Unreadable;
  }

  /** What firmware sends for data at an address. */
  function PlainPayload(address: nat, kind: byte, body: seq<byte>): seq<byte>
    requires address < 0x1_0000_0000 && |body| < 65536
  {
    LongBytes(address) + [Lo(|body|), Hi(|body|), kind] + body
  }

  lemma PayloadParts(address: nat, kind: byte, body: seq<byte>, t: seq<byte>)
    requires address < 0x1_0000_0000 && |body| < 65536
    ensures var p := PlainPayload(address, kind, body) + t;
            |p| >= 7 + |body| && Long(p[..4]) == address && p[6] == kind && p[7..][..|body|] == body
            && Word(p[4], p[5]) == |body|
  {
    hide Long, LongBytes, Word, Lo, Hi;
    var p := PlainPayload(address, kind, body) + t;
    WordOfHalves(|body|);
    assert p[..4] == LongBytes(address);
    assert p[7..][..|body|] == body;
  }

  /** Uncompressed data arrives as sent, with anything behind it. */
  lemma PlainArrives(m: Lookup, address: nat, data: seq<byte>, t: seq<byte>)
    requires address < 0x1_0000_0000 && |data| < 65536
    ensures ReadAnswer(true, m, PlainPayload(address, COMPRESSION_NONE, data) + t) == Chunk(address, data)
  {
    PayloadParts(address, COMPRESSION_NONE, data, t);
  }

  lemma RawArrives(m: Lookup, address: nat, data: seq<byte>)
    requires address < 0x1_0000_0000
    ensures ReadAnswer(false, m, LongBytes(address) + data) == Chunk(address, data)
  {
    assert (LongBytes(address) + data)[..4] == LongBytes(address);
    assert (LongBytes(address) + data)[4..] == data;
  }

  lemma CompressedIsRead(m: Lookup, p: seq<byte>, body: seq<byte>, data: seq<byte>)
    requires |p| >= 7 + |body| && p[6] == COMPRESSION_HUFFMAN && Word(p[4], p[5]) == |body| && p[7..][..|body|] == body
    requires |body| >= 2 && Word(body[0], body[1]) == |data|
    requires DecodeFrom(m, InputBits(body[2..]), 0, |data|) == Decoded(data)
    ensures ReadAnswer(true, m, p) == Chunk(Long(p[..4]), data)
  {
    hide DecodeFrom, InputBits, Long, Word;
    assert p[7..][..|body|] == body;
  }

  /** Compressed data arrives as it was before compression, if the packed codes fit the size field. */
  lemma CompressedArrives(m: Lookup, tree: seq<HuffmanTable.Entry>, address: nat, data: seq<byte>, padding: bool,
                          t: seq<byte>)
    requires HuffmanCode.SameEntries(tree) && HuffmanCode.Lists(m, tree) && address < 0x1_0000_0000 && |data| < 65536
    requires |HuffmanCode.Pack(Encode(WordsOf(m, HuffmanTable.Lowest), data), padding)| + 2 < 65536
    ensures var body := [Lo(|data|), Hi(|data|)] + HuffmanCode.Pack(Encode(WordsOf(m, HuffmanTable.Lowest), data), padding);
            ReadAnswer(true, m, PlainPayload(address, COMPRESSION_HUFFMAN, body) + t) == Chunk(address, data)
  {
    hide HuffmanCode.SameEntries, HuffmanCode.Lists, HuffmanCode.Pack, Encode, WordsOf;
    hide DecodeFrom, InputBits, ReadAnswer, PlainPayload, Long, Word, Lo, Hi;
    var packed := HuffmanCode.Pack(Encode(WordsOf(m, HuffmanTable.Lowest), data), padding);
    var body := [Lo(|data|), Hi(|data|)] + packed;
    PayloadParts(address, COMPRESSION_HUFFMAN, body, t);
    WordOfHalves(|data|);
    assert body[2..] == packed && body[0] == Lo(|data|) && body[1] == Hi(|data|);
    HuffmanCode.RoundTrip(m, tree, |data|, data, padding);
    CompressedIsRead(m, PlainPayload(address, COMPRESSION_HUFFMAN, body) + t, body, data);
  }

  /** The part of a Betaflight payload that its size field covers, cut to what is there. */
  function Covered(p: seq<byte>): seq<byte>
    requires |p| >= 7
  {
    var announced := p[4] as int + 256 * p[5] as int;
    p[7..][..if announced < |p| - 7 then announced else |p| - 7]
  }

  /** What the bits of compressed data spell: a count in two bytes, lower byte first, and the codes. */
  ghost predicate SpelledBy(m: Lookup, raw: seq<byte>, data: seq<byte>) {
    |raw| >= 2
    && Spelled(WordsOf(m, HuffmanTable.Lowest), InputBits(raw[2..]), 0, raw[0] as int + 256 * raw[1] as int, data)
  }

  /** An answer is read as a chunk exactly if it is long enough, and its data is what its variant and compression
      (1 for Huffman codes) make of the rest of the payload. */
  lemma ChunkIff(btfl: bool, m: Lookup, tree: seq<HuffmanTable.Entry>, p: seq<byte>, address: nat, data: seq<byte>)
    requires HuffmanCode.SameEntries(tree) && HuffmanCode.Lists(m, tree)
    ensures ReadAnswer(btfl, m, p) == Chunk(address, data)
       <==> && |p| >= (if btfl then 7 else 4) && address == Long(p[..4])
            && (if !btfl then data == p[4..]
                else if p[6] != 1 then data == Covered(p)
                else SpelledBy(m, Covered(p), data))
  {
    hide HuffmanCode.SameEntries, HuffmanCode.Lists, Long, InputBits, DecodeFrom, WordsOf;
    if |p| >= 7 && |Covered(p)| >= 2 {
      var raw := Covered(p);
      SpelledIff(m, tree, raw[2..], Word(raw[0], raw[1]), data);
    }
  }

  lemma SpelledIff(m: Lookup, tree: seq<HuffmanTable.Entry>, input: seq<byte>, n: nat, data: seq<byte>)
    requires HuffmanCode.SameEntries(tree) && HuffmanCode.Lists(m, tree)
    ensures DecodeFrom(m, InputBits(input), 0, n) == Decoded(data)
       <==> Spelled(WordsOf(m, HuffmanTable.Lowest), InputBits(input), 0, n, data)
  {
    HuffmanCode.DecodingInvertsEncoding(m, tree, input, n, data);
    HuffmanCode.WholeIsPrefix(InputBits(input));
    hide HuffmanCode.SameEntries, HuffmanCode.Lists, InputBits, DecodeFrom, WordsOf, Spelling;
  }

  /** An answer is unreadable exactly if it is too short, or its compressed data too short or cut off. */
  lemma UnreadableIff(btfl: bool, m: Lookup, tree: seq<HuffmanTable.Entry>, p: seq<byte>)
    requires HuffmanCode.SameEntries(tree) && HuffmanCode.Lists(m, tree)
    ensures ReadAnswer(btfl, m, p) == Unreadable
       <==> |p| < (if btfl then 7 else 4)
            || (btfl && p[6] == 1 && forall data: seq<byte> :: !SpelledBy(m, Covered(p), data))
  {
    if |p| >= (if btfl then 7 else 4) {
      var a := ReadAnswer(btfl, m, p);
      forall data: seq<byte>
        ensures a == Chunk(Long(p[..4]), data) <==>
                  if !btfl then data == p[4..] else if p[6] != 1 then data == Covered(p) else SpelledBy(m, Covered(p), data)
      {
        ChunkIff(btfl, m, tree, p, Long(p[..4]), data);
      }
      hide ReadAnswer, HuffmanCode.SameEntries, HuffmanCode.Lists, Covered, SpelledBy, Long;
      if a.Chunk? {
        ChunkIff(btfl, m, tree, p, a.address, a.data);
      }
      if !btfl {
        assert a == Chunk(Long(p[..4]), p[4..]);
      } else if p[6] != 1 {
        assert a == Chunk(Long(p[..4]), Covered(p));
      }
    }
  }

  /** Whatever arrives in a frame, the data of an answer has fewer than 65536 bytes and the address fits 32 bits,
      so the address of the next chunk cannot wrap for any flash the workflow accepts. */
  lemma AnswersFit(btfl: bool, m: Lookup, p: seq<byte>)
    requires |p| < 65536 && ReadAnswer(btfl, m, p).Chunk?
    ensures ReadAnswer(btfl, m, p).address < 0x1_0000_0000 && |ReadAnswer(btfl, m, p).data| < 65536
  {
    hide Long;
    if btfl && p[6] == COMPRESSION_HUFFMAN {
      var raw := p[7..][..if |p| - 7 < Word(p[4], p[5]) then |p| - 7 else Word(p[4], p[5])];
      DecodedAtMost(m, InputBits(raw[2..]), 0, Word(raw[0], raw[1]));
    }
  }

  /** The next answer to a read request. */
  method ReceiveFlashReadResponse(client: MspClient, btfl: bool, huffmanLookup: Lookup) returns (a: Answer, ghost r: Reply)
    requires client.Valid()
    modifies client`pending, client`log, client`input, client.port`script
    modifies client.decoder, client.decoder.payloadBuf, client.decoder.v2Header
    ensures client.Valid()
    ensures r.Got? ==> client.TakenFrom(old(client.log), client.log, 71, r.frame)
    ensures a == if r.Got? then ReadAnswer(btfl, huffmanLookup, r.frame.payload[..]) else Unreadable
  {
    hide MspClient.Valid, MspClient.TakenFrom, MspClient.Consumed, ReadAnswer;
    var reply := client.Receive(DATAFLASH_READ);
    r := reply;
    if reply.Got? {
      label received:
      a := ParseFlashRead(btfl, huffmanLookup, reply.frame.payload[..]);
      client.Undisturbed@received();
    } else {
      a := Unreadable;
    }
  }

  // ---------- Summary and erase ----------

  datatype Summary = Summary(flags: byte, sectors: nat, totalSize: nat, usedSize: nat) {
    predicate Supported() { flags % 2 == 1 }
    predicate Ready() { flags / 2 % 2 == 1 }
  }

  function ReadSummary(p: seq<byte>): Option<Summary> {
    if |p| < 13 then None
    else Some(Summary(p[0], Long(p[1..5]), Long(p[5..9]), Long(p[9..13])))
  }

  /** A summary is read exactly from thirteen bytes or more. */
  lemma SummaryIff(p: seq<byte>)
    ensures ReadSummary(p).Some? <==> |p| >= 13
  {
  }

  /** Every summary arrives as sent: bit 0 of the flags says that there is a flash, bit 1 that it is ready. */
  lemma SummaryArrives(supported: bool, ready: bool, more: nat, sectors: nat, total: nat, used: nat, t: seq<byte>)
    requires more < 64 && sectors < 0x1_0000_0000 && total < 0x1_0000_0000 && used < 0x1_0000_0000
    ensures var flags := (if supported then 1 else 0) + (if ready then 2 else 0) + 4 * more;
            var s := ReadSummary([flags] + LongBytes(sectors) + LongBytes(total) + LongBytes(used) + t);
            s.Some? && s.value == Summary(flags, sectors, total, used)
            && s.value.Supported() == supported && s.value.Ready() == ready
  {
    hide Long, LongBytes;
    var flags := (if supported then 1 else 0) + (if ready then 2 else 0) + 4 * more;
    var p := [flags] + LongBytes(sectors) + LongBytes(total) + LongBytes(used) + t;
    assert p[1..5] == LongBytes(sectors) && p[5..9] == LongBytes(total) && p[9..13] == LongBytes(used);
  }

  method GetDataflashSummary(client: MspClient) returns (s: Option<Summary>, ghost r: Reply)
    requires client.Valid()
    modifies client`pending, client`log, client`input, client.port
    modifies client.decoder, client.decoder.payloadBuf, client.decoder.v2Header
    ensures client.Valid()
    ensures r.Got? ==>
      client.TakenFrom(old(client.log) + [Removed(70)], client.log, 70, r.frame)
    ensures client.port.sent == old(client.port.sent) + if r == WriteError then [] else [0x24, 0x4D, 0x3C, 0, 70, 70]
    ensures s == if r.Got? then ReadSummary(r.frame.payload[..]) else None
  {
    hide MspClient.ValidApart, MspClient.TakenFrom;
    Format.EmptyRequest(DATAFLASH_SUMMARY);
    var reply := client.Request(DATAFLASH_SUMMARY, []);
    r := reply;
    s := if reply.Got? then ReadSummary(reply.frame.payload[..]) else None;
  }

  /** The erase command goes out; no answer is awaited. */
  method EraseFlash(client: MspClient) returns (ok: bool)
    requires client.Valid()
    modifies client.port
    ensures client.Valid() && client.port.script == old(client.port.script)
    ensures client.port.sent == old(client.port.sent) + if ok then [0x24, 0x4D, 0x3C, 0, 72, 72] else []
  {
    Format.EmptyRequest(DATAFLASH_ERASE);
    ok := client.Send(DATAFLASH_ERASE, []);
  }
}
