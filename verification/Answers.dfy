/** The answers that the copy loop gets are what the client parses from the frames it hears: if the flight
    controller's frames carry its flash, the answers are honest, whatever the serial line does. */
module Answers {
  import opened Bytes
  import Crc
  import opened Wire
  import opened Traffic
  import Framing
  import opened FlashProtocol
  import opened Reader
  import Client
  import Huffman
  import HuffmanCode
  import HuffmanTable
  import Orchestrator

  /** The copy loop's view of an answer. */
  function ReceptionOf(a: FlashProtocol.Answer): Reception {
    if a.Chunk? then Answer(a.address, a.data) else Failure
  }

  /** What an honest controller is asked for, and its flash. */
  datatype Dump = Dump(size: SizeRule, chunk: nat, used: nat, flash: seq<byte>)

  /** A read answer among the controller's messages is honest. */
  predicate CarriesFlash(d: Dump, btfl: bool, m: Huffman.Lookup, message: Message) {
    message.direction == FROM_FC && message.code == DATAFLASH_READ as nat ==>
      Honest(d.size, d.chunk, d.used, d.flash, ReceptionOf(ReadAnswer(btfl, m, message.payload)))
  }

  ghost predicate AllCarryFlash(d: Dump, btfl: bool, m: Huffman.Lookup, messages: seq<Message>) {
    forall message <- messages :: CarriesFlash(d, btfl, m, message)
  }

  // ---------- From frames to answers ----------

  /** What is held was heard from the controller. */
  lemma {:induction false} HeldWasHeard(log: seq<Client.Event>, code: nat)
    requires code in Client.Held(log)
    ensures var m := Client.Held(log)[code];
            m in Client.HeardIn(log) && m.code == code && m.direction == FROM_FC
  {
    var past, e := log[..|log| - 1], log[|log| - 1];
    if !(e.Heard? && e.message.direction == FROM_FC && e.message.code == code) {
      HeldWasHeard(past, code);
    }
  }

  /** A frame that was taken from the client says a message of the input. */
  lemma TakenWasDecoded(client: Client.MspClient, past: seq<Client.Event>, code: nat, f: Framing.Received)
    returns (m: Message)
    requires client.Valid() && client.TakenFrom(past, client.log, code, f)
    ensures m in Decode(client.decoder.sum, client.input).messages && Framing.Says(f, m)
    ensures m.code == code && m.direction == FROM_FC && |m.payload| < 65536
  {
    hide Client.MspClient.Valid, Decode, Client.Held;
    var before := client.log[..|client.log| - 1];
    m := Client.Held(before)[code];
    HeldWasHeard(before, code);
    client.HeardEverything();
    DecodedIsEncodable(client.decoder.sum, client.input);
  }

  /** The next answer for the copy loop. Its data fits 16 bits, and it is honest if the controller's messages
      in the bytes read so far carry its flash. */
  method NextReception(client: Client.MspClient, btfl: bool, huffmanLookup: Huffman.Lookup, ghost d: Dump)
    returns (r: Reception)
    requires client.Valid()
    modifies client`pending, client`log, client`input, client.port`script
    modifies client.decoder, client.decoder.payloadBuf, client.decoder.v2Header
    ensures client.Valid() && Orchestrator.Parsable(r)
    ensures AllCarryFlash(d, btfl, huffmanLookup, Decode(client.decoder.sum, client.input).messages) ==>
      Honest(d.size, d.chunk, d.used, d.flash, r)
  {
    hide Client.MspClient.Valid, Client.MspClient.TakenFrom, ReadAnswer, Honest, Decode;
    ghost var past := client.log;
    var a, reply := ReceiveFlashReadResponse(client, btfl, huffmanLookup);
    r := ReceptionOf(a);
    NothingIsHonest(d);
    if reply.Got? {
      ghost var m := TakenWasDecoded(client, past, DATAFLASH_READ, reply.frame);
      if a.Chunk? {
        AnswersFit(btfl, huffmanLookup, m.payload);
      }
    }
  }

  lemma NothingIsHonest(d: Dump)
    ensures Honest(d.size, d.chunk, d.used, d.flash, Failure)
  {
  }

  // ---------- From the flash to frames ----------

  /** What the firmware sends for n bytes at an address, as its variant and compression have it. */
  datatype Form = Plain(rest: seq<byte>) | Compressed(padding: bool, rest: seq<byte>) | Raw

  ghost predicate Fits(form: Form, m: Huffman.Lookup, data: seq<byte>) {
    |data| < 65536
    && (form.Compressed? ==> |Packed(form, m, data)| + 2 < 65536)
  }

  ghost function Packed(form: Form, m: Huffman.Lookup, data: seq<byte>): seq<byte>
    requires form.Compressed?
  {
    HuffmanCode.Pack(Huffman.Encode(Huffman.WordsOf(m, HuffmanTable.Lowest), data), form.padding)
  }

  ghost function FirmwarePayload(form: Form, m: Huffman.Lookup, address: nat, data: seq<byte>): seq<byte>
    requires address < 0x1_0000_0000 && Fits(form, m, data)
  {
    match form
    case Plain(rest) => PlainPayload(address, COMPRESSION_NONE, data) + rest
    case Compressed(_, rest) =>
      PlainPayload(address, COMPRESSION_HUFFMAN, [Lo(|data|), Hi(|data|)] + Packed(form, m, data)) + rest
    case Raw => LongBytes(address) + data
  }

  /** In any of these forms the data arrives as sent. */
  lemma FirmwareIsRead(form: Form, m: Huffman.Lookup, tree: seq<HuffmanTable.Entry>, address: nat, data: seq<byte>)
    requires HuffmanCode.SameEntries(tree) && HuffmanCode.Lists(m, tree)
    requires address < 0x1_0000_0000 && Fits(form, m, data)
    ensures ReadAnswer(!form.Raw?, m, FirmwarePayload(form, m, address, data)) == Chunk(address, data)
  {
    hide PlainPayload, LongBytes, Long, Lo, Hi, Word, ReadAnswer;
    hide HuffmanCode.SameEntries, HuffmanCode.Lists, HuffmanCode.Pack, Huffman.Encode, Huffman.WordsOf;
    match form
    case Plain(rest) => PlainArrives(m, address, data, rest);
    case Compressed(padding, rest) => CompressedArrives(m, tree, address, data, padding, rest);
    case Raw => RawArrives(m, address, data);
  }

  /** Flash contents, no more than asked for, are an honest answer. */
  lemma FirmwareCarriesFlash(d: Dump, form: Form, m: Huffman.Lookup, tree: seq<HuffmanTable.Entry>, address: nat, n: nat,
                             message: Message)
    requires HuffmanCode.SameEntries(tree) && HuffmanCode.Lists(m, tree)
    requires address < 0x1_0000_0000 && address + n <= |d.flash|
    requires address < d.used ==> n <= d.size(d.chunk, d.used - address)
    requires Fits(form, m, d.flash[address..address + n])
    requires message.payload == FirmwarePayload(form, m, address, d.flash[address..address + n])
    ensures CarriesFlash(d, !form.Raw?, m, message)
  {
    hide FirmwarePayload, Fits, ReadAnswer, HuffmanCode.SameEntries, HuffmanCode.Lists;
    FirmwareIsRead(form, m, tree, address, d.flash[address..address + n]);
  }

  /** On a noisy line that damages v2 frames, whatever part of the traffic has been read, the messages found in
      it are among those sent, in order. */
  lemma ReadSoFar(items: seq<Item>, input: seq<byte>)
    requires forall item <- items :: Plausible(item)
    requires input <= Stream(items)
    ensures Decode(Crc.Checksum, input).messages <= Messages(items)
  {
    var rest := Stream(items)[|input|..];
    assert input + rest == Stream(items);
    DecodeConcat(Crc.Checksum, input, rest);
    TrafficIsDecoded(items);
  }

  /** So if every message sent carries flash, every message found does, and NextReception is honest. */
  lemma HonestTraffic(d: Dump, btfl: bool, m: Huffman.Lookup, items: seq<Item>, input: seq<byte>)
    requires forall item <- items :: Plausible(item)
    requires input <= Stream(items) && AllCarryFlash(d, btfl, m, Messages(items))
    ensures AllCarryFlash(d, btfl, m, Decode(Crc.Checksum, input).messages)
  {
    ReadSoFar(items, input);
    forall message | message in Decode(Crc.Checksum, input).messages
      ensures CarriesFlash(d, btfl, m, message)
    {
      assert message in Messages(items);
    }
  }
}
