# The path of a flash dump, from serial bytes to the erase command

logfalcon copies the blackbox flash of a flight controller to an SD card over the MSP serial protocol and
then erases the flash. This project models the code on that path in Dafny and proves what makes the erase
safe: the frame decoder finds exactly the frames that are on the wire, the checksums and the Huffman code do
what they are for, the client hands out the right answers, the copy loop writes every byte once and in order,
the file is re-read and compared before the erase is sent, and the manifest survives a power cut. It also
models the concurrent LED controller and the cleanup of old sessions.

## Layout

| files | subject |
|---|---|
| `Bytes`, `Registers` | bytes, little-endian numbers, the eight-bit register and bit strings |
| `Crc`, `CrcTheory` | the checksums, polynomial division over GF(2), error detection |
| `Streams`, `Wire`, `Traffic`, `Prefixes` | the declarative frame parser, what it makes of traffic, and which frames are lost |
| `Format` | the frame format in plain bytes, with the checksums as properties of the bytes |
| `DecoderSteps`, `Framing` | the byte-at-a-time decoder, the encoders, and the refinement of one by the other |
| `HuffmanTable`, `Huffman`, `HuffmanCode` | the code table, prefix codes, and the decoder of packed bytes |
| `Client`, `FlashProtocol` | the MSP client and the dataflash commands |
| `Reader`, `Orchestrator`, `Workflow` | the copy: plain reader, pipelined loop, and the gates around the erase |
| `Endings` | why a copy ends: lost answers, causes, and the steps in between |
| `Answers` | from frames on a noisy line to honest answers for the copy |
| `Writer`, `Manifest`, `Cleanup` | the stream writer, atomic manifest writes, and storage cleanup |
| `Led` | the LED controller as a state machine over its atomic steps |

Code that changes state in the source is imperative here: `FrameDecoder` writes its payload buffer in place,
`MspClient` keeps its pending map, `StreamWriter` its counters and buffer, and the loops are loops. Each is
proved against a specification function, and the theorems are about that function. Where a specification shares a
constant or an order with the code, a further theorem says what it means in literal terms. The serial port, the disk,
the clock and the flight controller are scripts of outcomes; every theorem is for all scripts.

## Findings

- **Requests are narrowed to 16 bits before they are compared** (internal/sync/orchestrator.go:469, :508, :527,
  :545). `Reader.ShippedCompletesIff` shows that the shipped loop can complete a copy exactly if less than
  64 KiB is used; `Workflow.Run` shows that with an honest controller a larger flash always ends in an error,
  and is never erased. The comparison on 32 bits completes every size.
- **A doubled `$` loses the frame behind it** (internal/msp/framing.go:104-114). `Prefixes.DoubledDollarLosesFrame`
  shows it for every frame. `Prefixes.PrefixIsHarmlessIff` says which bytes are harmless before frames: exactly
  those that leave the decoder idle; behind any others some well-formed frame is lost.
- **The encoders truncate the length field silently** (internal/msp/framing.go:13-37). `Traffic.EncodedDecodesIff`
  says when what they send can be read back.
- **A recovered panic reports success.** `Run` has an unnamed result, so after a panic outside the copy it
  returns the zero value, which is `ResultSuccess` (internal/sync/orchestrator.go:144-161).
  `Workflow.SuccessWithoutCopy` gives an input, and `Workflow.FalseSuccessIff` the condition: success is false
  exactly if the run gets to a panic before the copy, or to one before the verification of a copy that would not
  pass it. A later panic finds the copy verified. The erase is safe in every case.

## Hypotheses

- An honest controller answers a read at an address with flash contents, no more of them than a request for
  that address asks for. It may lose, repeat, delay, shorten or empty its answers.
- The hash function is a parameter. Instead of assuming it free of collisions, the theorem names the only two
  inputs that could collide.
- Printing and parsing of manifests are parameters; parsing is assumed to invert printing.
- `sort.Slice` is a parameter that returns some ordering of its argument.

## Model

| member | source | states |
|---|---|---|
| `Crc.InitTable` | internal/msp/crc.go:7-19 | the table holds, for every byte, eight steps of the shift register with polynomial 0xD5 |
| `Crc.Crc8Xor` | internal/msp/crc.go:22-28 | the v1 checksum is the sum over GF(2) of all bytes |
| `Crc.Crc8DvbS2` | internal/msp/crc.go:31-37 | the table-driven loop computes the v2 checksum from any initial value |
| `Crc.DvbIsSerial` | internal/msp/crc.go:7-37 | the v2 checksum is the shift register fed bit by bit, for all data and initial values |
| `CrcTheory.DivisionIdentity` | internal/msp/crc.go:7-19 | register and quotient satisfy message = quotient * generator + remainder over GF(2) |
| `CrcTheory.DvbIsRemainder` | internal/msp/crc.go:31-37 | the checksum of any message is the remainder of message * x^8 by x^8+x^7+x^6+x^4+x^2+1, as section 5.1.4 of ETSI EN 302 307 has it |
| `CrcTheory.DvbInitial` | internal/msp/crc.go:31-37 | an initial value acts as if added to the first byte |
| `CrcTheory.DvbLinear` | internal/msp/crc.go:31-37 | the checksum is linear in data and initial value together |
| `CrcTheory.DvbConcat` | internal/msp/framing.go:216 | continuing from the checksum of a prefix gives the checksum of the whole |
| `CrcTheory.UnnoticedIff` | internal/msp/crc.go:31-37 | damage to a v2 block goes unnoticed exactly if the error pattern has checksum zero |
| `CrcTheory.NoticeableIsNoticed` | internal/msp/crc.go:31-37 | no odd number of flipped bits and no burst of up to eight bits goes unnoticed |
| `CrcTheory.ChecksIffDivisible` | internal/msp/crc.go:31-37 | a block ends in its v2 checksum exactly if it is, as a polynomial, a multiple of x^8+x^7+x^6+x^4+x^2+1 |
| `Format.SumIsParity` | internal/msp/crc.go:22-28 | a bit of the v1 checksum is set exactly if an odd number of the bytes have it set |
| `Format.V1DecodedIff` | internal/msp/framing.go:129-167 | bytes laid out as a v1 frame of any of the three directions are decoded, field by field, exactly if from the length byte on every bit is set an even number of times; otherwise they are dropped, and what follows decodes on its own either way |
| `Format.V2DecodedIff` | internal/msp/framing.go:170-228 | the same for v2 frames, decoded exactly if from the flag byte on they are a multiple of the generator |
| `Format.FrameSpells` | internal/msp/framing.go:13-37 | every frame has that layout and that property, stated without the checksum functions |
| `Format.RequestV1InBytes` | internal/msp/framing.go:13-22 | the v1 frame of a request byte by byte, even from the length byte on |
| `Format.RequestV2InBytes` | internal/msp/framing.go:26-37 | the v2 frame of a request byte by byte, divisible from the flag byte on |
| `Format.EmptyRequest` | internal/msp/framing.go:13-22 | a v1 request without payload is 24 4D 3C 00 and its code twice |
| `Framing.EncodeV1` | internal/msp/framing.go:13-22 | the buffer is the v1 frame of the message; in plain bytes: '$M<', the length cut to eight bits, code, payload, and a byte that makes the rest even in every bit |
| `Framing.EncodeV2` | internal/msp/framing.go:26-37 | the buffer is the v2 frame of the message; in plain bytes: '$X<', flag 0, code and length cut to sixteen bits, lower byte first, payload, and a byte that makes the rest a multiple of the generator |
| `Framing.ContinuedCrc` | internal/msp/framing.go:216 | the header-then-payload checksum of the decoder is the single-pass checksum of the encoder |
| `Framing.FrameDecoder.Process` | internal/msp/framing.go:97-229 | after one more byte the decoder holds the frames and the unfinished tail that the declarative parser finds; frames already emitted are unchanged |
| `Framing.FrameDecoder.Feed` | internal/msp/framing.go:79-83 | the same for any chunk of bytes; which bytes are frames is said byte by byte in `Format.V1DecodedIff` and `Format.V2DecodedIff` |
| `DecoderSteps.StepDecodes` | internal/msp/framing.go:97-229 | one step of the 14-state machine keeps it in the state that the unfinished tail determines, and emits what the parser emits |
| `DecoderSteps.StepFinishes` | internal/msp/framing.go:156-167 | the byte that finishes a frame emits it if and only if the checksum is right, and leaves the machine idle at the frame's boundary |
| `DecoderSteps.StateIsSound` | internal/msp/framing.go:58-71 | in every reachable state the payload index is within the size, with the phase, version and number of bytes summed that belong to it |
| `DecoderSteps.StateAgrees` | internal/msp/framing.go:129-213 | in every reachable state of both protocol versions, code, size and payload are what the bytes summed for the checksum say |
| `Streams.ChunksDoNotMatter` | internal/msp/framing.go:79-83 | parsing does not depend on how the input is cut, for every parser whose heads are final |
| `Wire.FrameIsFirst` | internal/msp/framing.go:13-37 | an encoded frame is recognised at the head of any stream |
| `Wire.FirstIsFrame` | internal/msp/framing.go:97-229 | whatever is recognised at the head of a stream is the frame of an encodable message |
| `Wire.DecodeConcat` | internal/msp/framing.go:79-83 | decoding in two parts is decoding in one, through the retained tail |
| `Wire.RestIsIncomplete` | internal/msp/framing.go:85-95 | the retained tail is unfinished: no frame and no junk can be recognised in it yet |
| `Wire.ChunkingIsInvisible` | internal/msp/framing.go:79-83 | any split over Feed calls decodes to the same frames |
| `Traffic.DecodedIsOnTheWire` | internal/msp/framing.go:97-229 | every decoded message is a contiguous slice of the stream that is its frame, checksum included; slices are disjoint and in order, and the rest follows the last |
| `Traffic.DecodedIsSpelled` | internal/msp/framing.go:97-229 | every decoded message is a slice of the stream that spells it in plain bytes, with an even or divisible block |
| `Traffic.TrafficIsDecoded` | internal/msp/framing.go:97-229 | frames of both versions, mixed with noise and with damaged v2 frames, decode to exactly the undamaged frames in order |
| `Traffic.TrafficInPieces` | internal/msp/framing.go:79-83 | the same, split over reads in any way |
| `Traffic.EncodedDecodesIff` | internal/msp/framing.go:13-37 | an encoded message is read back exactly if its payload fits the length field |
| `Traffic.NoDollarIsNoise` | internal/msp/framing.go:99-102 | bytes without '$' are noise: they yield nothing and leave the decoder idle |
| `Prefixes.TooShortFor` | internal/msp/framing.go:97-229 | a message is never decoded from fewer bytes than its frame has |
| `Prefixes.PreambleLosesFrame` | internal/msp/framing.go:104-126 | after '$', or '$' and a protocol letter, every frame loses its own '$' and is not decoded |
| `Prefixes.DoubledDollarLosesFrame` | internal/msp/framing.go:104-114 | a '$' before any frame loses the frame |
| `Prefixes.IdlePrefix` | internal/msp/framing.go:85-95 | behind a prefix that leaves the decoder idle every stream decodes as it does alone |
| `Prefixes.TailLosesVictim` | internal/msp/framing.go:97-229 | every unfinished tail loses a well-formed frame, whatever it has announced |
| `Prefixes.PrefixIsHarmlessIff` | internal/msp/framing.go:85-229 | every frame behind a prefix is decoded exactly if the prefix leaves the decoder idle |
| `HuffmanTable.RawTreeInPlace` | internal/msp/huffman.go:20-278 | the 257 entries are the canonical code: codes of each length fill one range, in descending order |
| `HuffmanTable.EntryOf` | internal/msp/huffman.go:20-278 | every byte value and the end marker has an entry |
| `HuffmanCode.LookupIsCode` | internal/msp/huffman.go:322-326 | the lookup is a prefix code with exactly one codeword for each of the 257 values, filling every range |
| `HuffmanCode.BuildLookup` | internal/msp/huffman.go:322-326 | the loop builds that lookup, whatever order the table is in |
| `Huffman.ReadValue` | internal/msp/huffman.go:344-365 | the inner loop reads the next value bit by bit, most significant first |
| `Huffman.HuffmanDecode` | internal/msp/huffman.go:331-372 | the decoder returns what the recursive reading of the bits gives, errors included |
| `Huffman.AlwaysMatched` | internal/msp/huffman.go:340-369 | bits that match no code stay below the lowest code of their length, so twelve bits always match |
| `Huffman.PrefixFree` | internal/msp/huffman.go:20-278 | no codeword is a prefix of another |
| `Huffman.Complete` | internal/msp/huffman.go:20-278 | any twelve bits start with a codeword |
| `Huffman.NeverInvalid` | internal/msp/huffman.go:367-369 | the "invalid code" error is unreachable on every input |
| `Huffman.DecodesIff` | internal/msp/huffman.go:331-372 | asked for n bytes, the decoder returns s exactly on the inputs that start with the codewords of s, with the end marker behind them if s is shorter than n |
| `Huffman.DecodedAtMost` | internal/msp/huffman.go:331-372 | no more bytes come out than were asked for |
| `HuffmanCode.DecodingInvertsEncoding` | internal/msp/huffman.go:331-372 | the same for the bytes of the input and the source's table |
| `HuffmanCode.RoundTrip` | internal/msp/huffman.go:331-372 | every byte string, encoded, padded with either bit and packed most significant bit first, decodes to itself |
| `HuffmanCode.KnownInput` | internal/msp/huffman.go:331-372 | the byte E8, asked for two values, decodes to 0 and 1 |
| `HuffmanCode.FailsIff` | internal/msp/huffman.go:331-372 | decoding fails exactly if the input starts with no complete spelling |
| `Client.HeldIff` | internal/msp/client.go:96-109 | a message is held exactly if hearing it is the last event about its code, since fetches and flushes |
| `Client.AnswerIsHeld` | internal/msp/client.go:96-128 | a frame marked '>' is held from when it is heard until a frame of its code is heard or the code is fetched or flushed; frames marked otherwise change nothing |
| `Client.MspClient.PendingIff` | internal/msp/client.go:78-128 | in every state between calls, a frame is pending exactly if it is the latest from-controller frame of its code since the code was last fetched or flushed |
| `Client.MspClient.HeardEverything` | internal/msp/client.go:89-103 | the frames heard are what one decoder finds in all bytes read so far |
| `Client.MspClient.Drain` | internal/msp/client.go:96-103 | every decoded frame is taken over in order, pending frames share no memory with the decoder, and its frame list is empty afterwards |
| `Client.MspClient.Receive` | internal/msp/client.go:78-114 | a returned frame is from the controller, has the code, and is the latest held one; it is returned at the read that brings it: all input before that read had no frame of the code to give; otherwise none is held; a pending frame is returned without touching the port, and the two errors mean a failed read or the deadline |
| `Client.MspClient.Request` | internal/msp/client.go:117-123 | exactly one v1 frame goes out, and no answer heard before the request is returned |
| `Client.MspClient.FlushFrames` | internal/msp/client.go:126-128 | frames of the code are gone, others stay |
| `FlashProtocol.SendFlashReadRequest` | internal/msp/client.go:216-229 | one v2 frame with the seven-byte request goes out, without compression unless Betaflight runs |
| `FlashProtocol.RequestSurvives` | internal/msp/client.go:216-229 | address, size and compression can be read back from the payload |
| `FlashProtocol.RequestArrives` | internal/msp/client.go:228 | a decoder finds the request in the stream |
| `FlashProtocol.RequestInBytes` | internal/msp/client.go:216-229 | the request frame in plain bytes: MSP code 71, seven bytes of payload, address, size and compression with the lowest byte first |
| `FlashProtocol.ParseFlashRead` | internal/msp/client.go:239-276 | the answer is parsed by variant, size field and compression, with the same error cases |
| `FlashProtocol.ChunkIff` | internal/msp/client.go:239-276 | an answer gives an address and data exactly if the payload is long enough, starts with the address, and the data follows it, or is covered by the size field, or is spelled by the bits covered |
| `FlashProtocol.UnreadableIff` | internal/msp/client.go:239-276 | an answer is unreadable exactly if it is shorter than four or seven bytes, or compressed and its bits spell nothing of the announced size |
| `FlashProtocol.PlainArrives` | internal/msp/client.go:246-269 | uncompressed Betaflight data arrives as sent, whatever follows it |
| `FlashProtocol.CompressedArrives` | internal/msp/client.go:258-267 | compressed data arrives as it was before compression |
| `FlashProtocol.RawArrives` | internal/msp/client.go:271-274 | iNav data arrives as sent |
| `FlashProtocol.AnswersFit` | internal/msp/client.go:239-276 | no answer has more than 65535 bytes of data, whatever the payload |
| `FlashProtocol.GetDataflashSummary` | internal/msp/client.go:194-211 | the request 24 4D 3C 00 46 46 goes out, and the summary comes from an answer heard after it |
| `FlashProtocol.SummaryIff` | internal/msp/client.go:199-201 | a summary is read exactly from thirteen bytes or more |
| `FlashProtocol.SummaryArrives` | internal/msp/client.go:199-208 | every summary arrives as sent: the flash is supported exactly if bit 0 of the flags was sent, ready exactly if bit 1 was, whatever the other bits and whatever follows |
| `FlashProtocol.EraseFlash` | internal/msp/client.go:288-290 | the erase frame 24 4D 3C 00 48 48 goes out, and nothing else |
| `Led.NoLostChange` | internal/led/controller.go:138-147 | in every interleaving, a running pattern that is not the current state's is about to be replaced: a token is pending or being put back, the setter is about to signal, or the goroutine is on its way to read or has exited |
| `Led.AtMostOneStaleSet` | internal/led/controller.go:168-270 | after SetState sent its signal at most one more call of backend.Set shows the old state |
| `Led.ReadsWithinFiveSteps` | internal/led/controller.go:168-270 | after the signal the goroutine reads the state, or exits, within five steps of its own |
| `Led.NeverStuck` | internal/led/controller.go:168-270 | it can always take such a step, or the holder of the mutex can release it |
| `Led.CurrentStays` | internal/led/controller.go:171-174 | once read, the pattern stays current until the next SetState |
| `Led.PatternIsShown` | internal/led/controller.go:192-222 | from the read on, a run without a change or stop shows the backend exactly on, off, on, off: once for Booting and Busy, six times for Done, ten times for Error; then the pattern starts over, or for Done finishes |
| `Led.SteadyIsShown` | internal/led/controller.go:178-190 | for Off and Ready the goroutine sets the LED off or on, once, and waits |
| `Led.FinishSignalsIdle` | internal/led/controller.go:221-229 | a finished pattern leaves the LED off and signals that the goroutine is idle |
| `Led.WaitingShowsState` | internal/led/controller.go:178-190 | a goroutine that waits unsignalled shows the current state: on for Ready, off for Off and Done |
| `Led.StoppedStaysOff` | internal/led/controller.go:121-135 | after Stop the LED is off and no call of backend.Set follows |
| `Writer.Buffer.Write` | internal/storage/writer.go:45-53 | the buffered write takes a prefix, all of it without error, and loses nothing between buffer and file |
| `Writer.StreamWriter.Write` | internal/storage/writer.go:52-69 | file and buffer together hold what was hashed, under all failures; fewer than 0x100000 bytes are unsynced after a successful write |
| `Writer.StreamWriter.Close` | internal/storage/writer.go:72-82 | after success the file is what was hashed, all of it synced |
| `Writer.StreamWriter.Abort` | internal/storage/writer.go:85-88 | the file is closed, and gone if it could be removed |
| `Writer.StreamWriter.VerifyAgainstFile` | internal/storage/writer.go:103-116 | a match means the file is there and what was re-read has the running hash |
| `Reader.NarrowIsWideIff` | internal/sync/orchestrator.go:468-471 | a request never exceeds the remainder, and is the intended minimum exactly if the remainder is below 65536 or its low 16 bits are at least a chunk |
| `Reader.RequestsAreBounded` | internal/sync/orchestrator.go:481-559 | for every controller the loop ends after at most five requests for each byte, each for the next unwritten byte |
| `Reader.CopiesPrefix` | internal/sync/orchestrator.go:492-559 | from an honest controller the copy is always a prefix of the flash |
| `Reader.CompleteIsFlash` | internal/sync/orchestrator.go:595-602 | from an honest controller the copy has the right size exactly if it is complete, and then it is the flash |
| `Reader.CompleteCopyIsFlash` | internal/sync/orchestrator.go:541-549 | so for the shipped sizes and for the intended ones |
| `Reader.ShippedStopsShort` | internal/sync/orchestrator.go:541-549 | with 64 KiB or more in use the copy never gets beyond the low 16 bits of the size and never completes |
| `Reader.ShippedCompletesIff` | internal/sync/orchestrator.go:541-549 | the shipped sizes can complete a copy exactly if less than 64 KiB is used, the intended ones always |
| `Reader.PatienceCompletes` | internal/sync/orchestrator.go:481-559 | a controller that brings the next bytes after no more than four misses each time gets a complete copy, under both size rules |
| `Endings.FourMissesAreForgiven` | internal/sync/orchestrator.go:493-532 | whatever the size rule, after up to four misses in a row an answer with the next bytes is still written |
| `Endings.GivesUpIff` | internal/sync/orchestrator.go:493-532 | the copy gives up exactly if the last five requests were for the address at which it stops and none of their answers was for it |
| `Endings.EndsForCause` | internal/sync/orchestrator.go:481-592 | every ending has its cause in what was heard last, and no answer is awaited once the deadline has passed |
| `Endings.StepsFollow` | internal/sync/orchestrator.go:481-580 | each answer but the last misses or brings data; the next request is for the same byte or the one behind the data, and the copy ends at the last address asked for, or behind the last data if it is complete or late |
| `Orchestrator.TryAgain` | internal/sync/orchestrator.go:493-532 | a failure or another address is counted and the request repeated, except after the fifth in a row, which is an error |
| `Orchestrator.Store` | internal/sync/orchestrator.go:539-580 | the next request goes out before the data is written, the address stays the number of bytes written and does not wrap at 32 bits, and a zero chunk size panics |
| `Orchestrator.PassLoop` | internal/sync/orchestrator.go:481-580 | every pass keeps the loop in step with the plain reader and makes progress |
| `Orchestrator.ReadFlash` | internal/sync/orchestrator.go:450-592 | the pipelined loop writes the same bytes and sends the same requests as the plain reader in the same world, with at most one request ahead; it reports an error or nothing; on every way out the file is closed, and a partial one is gone if the disk works; nothing is returned after a recovered panic |
| `Workflow.QueryFlashState` | internal/sync/orchestrator.go:328-374 | the copy starts exactly for a flash that bit 0 calls supported and bit 1 ready, with 1 byte to 128 MiB in use; already empty is reported exactly for none in use |
| `Workflow.VerifyIntegrity` | internal/sync/orchestrator.go:595-622 | passes exactly if the size is right, the file is there, and the re-read bytes have the hash of the copy |
| `Workflow.WaitForErase` | internal/sync/orchestrator.go:625-645 | confirmed exactly if the port takes the command and some poll before the deadline shows an empty, ready flash |
| `Workflow.CopyIsFlash` | internal/sync/orchestrator.go:163-300 | a copy that passes the size check is the flash, the file holds just that, synced, and less than 64 KiB is in use |
| `Workflow.FavourablePasses` | internal/sync/orchestrator.go:163-300 | with a patient controller and working disk the copy passes all checks |
| `Workflow.CopyAndVerify` | internal/sync/orchestrator.go:201-248 | goes on exactly if every gate up to the verification passes |
| `Workflow.RunSteps` | internal/sync/orchestrator.go:163-300 | result and effects in every case: the erase is tried exactly if every gate passes, after the manifest, and never in a dry run or when configured off; it is sent if the port takes it |
| `Workflow.FalseSuccessIff` | internal/sync/orchestrator.go:144-161 | success without a verified copy is reported exactly for the panics before the copy, and the one before verification of a copy that would not pass |
| `Workflow.SuccessWithoutCopy` | internal/sync/orchestrator.go:144-161 | a panic during identification is reported as success with nothing read or written |
| `Workflow.Run` | internal/sync/orchestrator.go:144-161 | a run without a panic reports success exactly if the copy passes, the manifest works, it is no dry run, and either erasing is off or the port takes the erase and a poll shows no byte in use and the ready bit; the erase is recorded as just that; for every honest controller and every failure the erase is tried only if the file holds the flash, synced, and the re-read file is the flash or collides with it; 64 KiB or more never leads to an erase; when all goes well the erase is sent |
| `Answers.TakenWasDecoded` | internal/msp/client.go:78-114 | a frame the client gives out says a message that the decoder found in the bytes read |
| `Answers.NextReception` | internal/msp/client.go:234-277 | the data of an answer fits 16 bits, and the answer is honest if the controller's messages in the bytes read carry its flash |
| `Answers.FirmwareCarriesFlash` | internal/msp/client.go:239-276 | flash contents sent plain, compressed or raw, no more than asked for, are an honest answer |
| `Answers.ReadSoFar` | internal/msp/framing.go:79-83 | on a noisy line, in whatever part of the traffic has been read, the messages found are the first ones sent |
| `Answers.HonestTraffic` | internal/msp/client.go:89-103 | so if every message sent carries flash, every message found does |
| `Manifest.RenamedIsOldOrNew` | internal/storage/manifest.go:94-97 | a power cut after the rename leaves exactly what it could have left before, or the whole new file |
| `Manifest.UnsyncedRenameLeavesAnything` | internal/storage/manifest.go:84-97 | without the sync of the temporary file the rename could leave any contents, so the sync is needed |
| `Manifest.TruncatedIsSame` | internal/storage/manifest.go:73-77 | opening the temporary file, new or left over, touches no manifest a power cut can leave |
| `Manifest.AtomicJsonWrite` | internal/storage/manifest.go:67-109 | at every moment and for every failing step a power cut leaves the whole old or the whole new manifest; programs see the new one exactly after success; it succeeds, durably, if every call works |
| `Manifest.UpdateManifestErase` | internal/storage/manifest.go:157-173 | success sets the erase fields and the timing as given and keeps every other field; a failure changes nothing, a power cut leaves one of the two; it succeeds if every call works and there is a manifest |
| `Cleanup.CollectCandidates` | internal/storage/manifest.go:249-273 | the candidates are exactly the session directories that can be listed |
| `Cleanup.DeleteInOrder` | internal/storage/manifest.go:280-300 | exactly a prefix is deleted; before each deletion too little was free; it stops with enough free, none left, or an error, which a refused deletion is; no survivor loses its directory, and emptied directories are gone if the disk works |
| `Cleanup.OlderIff` | internal/storage/manifest.go:275-278 | a name is before another exactly if it is a proper prefix of it or has the smaller character at the first difference |
| `Cleanup.OlderIsEarlier` | internal/storage/manifest.go:275-278 | of two names with digits at the same places and equal characters elsewhere, that is the one whose digits are the smaller number |
| `Cleanup.SurvivorsAreNotOlder` | internal/storage/manifest.go:275-278 | no survivor is strictly older than a deleted session |
| `Cleanup.CleanupOldestSessions` | internal/storage/manifest.go:236-301 | a prefix of the order of age of the listed sessions is deleted, each deletion needed, so no listed survivor has a smaller time than a deleted session; the end is enough space, none left, or one of the errors; unlisted sessions stay |

## Left out

- Serial port, file system, statfs, clocks and sleeps: scripts of outcomes, as described above.
- SHA-256, JSON syntax, log messages, status text, transfer speed and remaining time.
- The insertion sort and the length index of the Huffman table (internal/msp/huffman.go:297-320): decoding never
  reads them, and the lookup is proved for the table in any order.
- Orchestrator.ReadFlash: answers are receptions (failure, panic, or address with data), as `Answers` gets them
  from the client; the LED and status updates of the copy are not modelled, nor is the wrap-around of the progress percentage.
- Workflow.Run: identification of the controller and preparation of the storage are single pass or fail gates, and
  panics outside the copy happen between steps only.
- Workflow.WaitForErase: the deadline is the end of the list of polls.
- Writer.StreamWriter.Write: byte counts are unbounded; the copy stays far below 63 bits.
- Reader.RequestsAreBounded: passes through the loop are counted by their requests; a pass that finds the deadline
  exceeded sends none.
- Manifest.AtomicJsonWrite: a directory entry that was not synced may or may not survive, file contents that were
  not synced may become anything; other files of the directory are not modelled.
- Cleanup.DeleteInOrder: a deletion that fails is taken to leave the session in place; partly removed contents are
  not modelled.
- Led.ReadsWithinFiveSteps: that a goroutine which can step does step is left to the scheduler; blink durations,
  a second Start, and the GPIO and sysfs backends are not modelled.
- Client.MspClient.Receive: a read returns its bytes at once, and end-of-file is a read without bytes.
- Traffic.TrafficIsDecoded: damage is considered behind the direction byte and off the length field; bursts are
  counted most significant bit first.
- `internal/web`, `internal/config`, `internal/fc`, `cmd/logfalcon`: plumbing that would add only easy members.
