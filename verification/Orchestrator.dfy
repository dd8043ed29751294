/** The copy, verify and erase workflow (internal/sync/orchestrator.go), for every behaviour of the flight
    controller, the clock and the disk. */
module Orchestrator {
  import opened Bytes
  import opened Reader
  import Writer

  datatype SyncResult = Success | AlreadyEmpty | Error | DryRun

  /** What is done outside the copy, in order. The erase is tried when it is handed to the port, and sent when
      the port takes it. */
  datatype Effect = ManifestWritten | EraseTried | EraseSent | EraseRecorded(ok: bool)

  /** The connection to the controller, the deadline, and what was sent. Answers, clock and port behave in any
      way; a script that is used up times out, is never late, and sends. */
  class Link {
    var answers: seq<Reception>
    var late: seq<bool>
    var sends: seq<bool>
    var requests: seq<Request>
    var effects: seq<Effect>

    constructor (answers: seq<Reception>, late: seq<bool>, sends: seq<bool>)
      ensures this.answers == answers && this.late == late && this.sends == sends
      ensures requests == [] && effects == []
    {
      this.answers, this.late, this.sends := answers, late, sends;
      requests, effects := [], [];
    }

    method Send() returns (ok: bool)
      modifies this`sends
      ensures ok == (old(sends) == [] || old(sends)[0])
    {
      ok := sends == [] || sends[0];
      sends := Rest(sends);
    }

    method SendFlashReadRequest(address: nat, size: nat) returns (ok: bool)
      modifies this`sends, this`requests
      ensures requests == old(requests) + [Request(address, size)] && ok == (old(sends) == [] || old(sends)[0])
    {
      requests := requests + [Request(address, size)];
      ok := Send();
    }

    method ReceiveFlashReadResponse() returns (r: Reception)
      modifies this`answers
      ensures r == (if old(answers) == [] then Failure else old(answers)[0]) && answers == Rest(old(answers))
    {
      r := if answers == [] then Failure else answers[0];
      answers := Rest(answers);
    }

    method DeadlineExceeded() returns (b: bool)
      modifies this`late
      ensures b == (old(late) != [] && old(late)[0]) && late == Rest(old(late))
    {
      b := late != [] && late[0];
      late := Rest(late);
    }
  }

  // ---------- The pipelined loop follows the plain one ----------

  /** The whole copy as the plain reader makes it, with requests of the shipped size. */
  function ReadPlainly(chunk: nat, used: nat, w: World): Copy {
    Read(Narrow, chunk, used, w, [], 0)
  }

  function Before(done: seq<Request>, c: Copy): Copy {
    c.(requests := done + c.requests)
  }

  /** Whatever the further writes do, the plain reader in world w0 gets, after the requests done, to where it
      has copied and failed that much and world w remains. */
  ghost predicate Follows(chunk: nat, used: nat, w0: World, done: seq<Request>, w: World, copied: seq<byte>, errors: nat) {
    && errors < MAX_CONSECUTIVE_ERRORS
    && (forall ws: seq<bool> :: InStep(chunk, used, w0, done, w, copied, errors, ws))
  }

  ghost predicate InStep(chunk: nat, used: nat, w0: World, done: seq<Request>, w: World, copied: seq<byte>, errors: nat,
                         ws: seq<bool>)
    requires errors < MAX_CONSECUTIVE_ERRORS
  {
    Read(Narrow, chunk, used, w0.(writes := w0.writes + ws), [], 0)
    == Before(done, Read(Narrow, chunk, used, w.(writes := ws), copied, errors))
  }

  /** The request for the next unwritten byte. */
  function NextRequest(chunk: nat, used: nat, at: nat): Request
    requires at < used
  {
    Request(at, Narrow(chunk, used - at))
  }

  lemma FollowsStart(chunk: nat, used: nat, w: World)
    ensures Follows(chunk, used, w.(writes := []), [], w, [], 0)
  {
    forall ws: seq<bool>
      ensures InStep(chunk, used, w.(writes := []), [], w, [], 0, ws)
    {
      assert [] + ws == ws;
      var c := Read(Narrow, chunk, used, w.(writes := ws), [], 0);
      assert [] + c.requests == c.requests;
    }
  }

  lemma BeforeAsking(done: seq<Request>, q: Request, c: Copy)
    ensures Before(done, Asking(q, c)) == Before(done + [q], c)
  {
    assert done + ([q] + c.requests) == done + [q] + c.requests;
  }

  lemma ReadMisses(chunk: nat, used: nat, w: World, copied: seq<byte>, errors: nat)
    requires |copied| < used && !NextLate(w) && Misses(NextAnswer(w), |copied|) && errors < MAX_CONSECUTIVE_ERRORS
    ensures Read(Narrow, chunk, used, w, copied, errors)
         == Asking(NextRequest(chunk, used, |copied|), Retry(Narrow, chunk, used, w, copied, errors))
  {
  }

  /** A failure or an answer for another address: the same request again. */
  lemma FollowsRetry(chunk: nat, used: nat, w0: World, done: seq<Request>, w: World, copied: seq<byte>, errors: nat)
    requires Follows(chunk, used, w0, done, w, copied, errors) && |copied| < used && !NextLate(w)
    requires Misses(NextAnswer(w), |copied|) && errors + 1 < MAX_CONSECUTIVE_ERRORS
    ensures Follows(chunk, used, w0, done + [NextRequest(chunk, used, |copied|)], Heard(w), copied, errors + 1)
  {
    var q := NextRequest(chunk, used, |copied|);
    forall ws: seq<bool> {:trigger InStep(chunk, used, w0, done + [q], Heard(w), copied, errors + 1, ws)}
      ensures InStep(chunk, used, w0, done + [q], Heard(w), copied, errors + 1, ws)
    {
      assert InStep(chunk, used, w0, done, w, copied, errors, ws);
      ReadMisses(chunk, used, w.(writes := ws), copied, errors);
      BeforeAsking(done, q, Read(Narrow, chunk, used, Heard(w.(writes := ws)), copied, errors + 1));
    }
  }

  predicate Brings(r: Reception, at: nat, data: seq<byte>) {
    r == Answer(at, data) && data != []
  }

  function Written(w0: World, ok: bool): World {
    w0.(writes := w0.writes + [ok])
  }

  /** Data for the address is written. */
  lemma FollowsWrite(chunk: nat, used: nat, w0: World, done: seq<Request>, w: World, copied: seq<byte>, errors: nat,
                     data: seq<byte>)
    requires Follows(chunk, used, w0, done, w, copied, errors) && |copied| < used && !NextLate(w) && chunk > 0
    requires Brings(NextAnswer(w), |copied|, data)
    ensures Follows(chunk, used, Written(w0, true), done + [NextRequest(chunk, used, |copied|)], Heard(w), copied + data, 0)
  {
    var q := NextRequest(chunk, used, |copied|);
    forall ws: seq<bool>
      ensures InStep(chunk, used, Written(w0, true), done + [q], Heard(w), copied + data, 0, ws)
    {
      assert InStep(chunk, used, w0, done, w, copied, errors, [true] + ws);
      assert w0.writes + ([true] + ws) == w0.writes + [true] + ws;
      assert ([true] + ws)[1..] == ws;
      BeforeAsking(done, q, Read(Narrow, chunk, used, Heard(w).(writes := ws), copied + data, 0));
    }
  }

  /** The next step of the plain reader is its last. */
  predicate LastStep(chunk: nat, used: nat, w: World, copied: seq<byte>, errors: nat, ending: Ending, after: seq<byte>) {
    if ending == Complete then |copied| >= used && after == copied
    else if ending == Late then |copied| < used && NextLate(w) && after == copied
    else |copied| < used && !NextLate(w) && LastAnswer(chunk, w, NextAnswer(w), copied, errors, ending, after)
  }

  predicate LastAnswer(chunk: nat, w: World, r: Reception, copied: seq<byte>, errors: nat, ending: Ending, after: seq<byte>) {
    if ending == TooManyErrors then Misses(r, |copied|) && errors + 1 >= MAX_CONSECUTIVE_ERRORS && after == copied
    else if ending == EndOfData then r == Answer(|copied|, []) && after == copied
    else if r.Panics? then ending == Panicked && after == copied
    else
      && r.Answer? && Brings(r, |copied|, r.data)
      && (if ending == WriteFailed then !NextWrites(w) && after == copied
          else ending == Panicked && NextWrites(w) && chunk == 0 && after == copied + r.data)
  }

  function LastRequest(chunk: nat, used: nat, at: nat, ending: Ending): seq<Request> {
    if ending == Complete || ending == Late || at >= used then [] else [NextRequest(chunk, used, at)]
  }

  lemma ReadEnds(chunk: nat, used: nat, w: World, copied: seq<byte>, errors: nat, ending: Ending, after: seq<byte>)
    requires LastStep(chunk, used, w, copied, errors, ending, after) && errors < MAX_CONSECUTIVE_ERRORS
    ensures Read(Narrow, chunk, used, w, copied, errors) == Copy(after, ending, LastRequest(chunk, used, |copied|, ending))
  {
  }

  /** The plain reader's world with the writes made so far, and its requests. */
  datatype Progress = Progress(world: World, done: seq<Request>)

  /** Where the plain reader ends, in a world w1 with the writes so far and ws. */
  lemma EndsHere(chunk: nat, used: nat, p: Progress, w: World, copied: seq<byte>, errors: nat, ws: seq<bool>, w1: World,
                 ending: Ending, after: seq<byte>) returns (c: Copy)
    requires Follows(chunk, used, p.world, p.done, w, copied, errors)
    requires w1.answers == p.world.answers && w1.late == p.world.late && w1.writes == p.world.writes + ws
    requires LastStep(chunk, used, w.(writes := ws), copied, errors, ending, after)
    ensures c == ReadPlainly(chunk, used, w1)
    ensures c == Copy(after, ending, p.done + LastRequest(chunk, used, |copied|, ending))
  {
    assert InStep(chunk, used, p.world, p.done, w, copied, errors, ws);
    ReadEnds(chunk, used, w.(writes := ws), copied, errors, ending, after);
    c := ReadPlainly(chunk, used, w1);
  }

  // ---------- readFlash ----------

  /** Answers carry at most 65535 bytes, as parsed ones do. */
  predicate Parsable(r: Reception) {
    r.Answer? ==> |r.data| < 65536
  }

  /** Sends the request for an address, in the shipped size. */
  method Ask(link: Link, chunkSize: nat, usedSize: nat, address: nat) returns (ok: bool)
    requires address < usedSize
    modifies link`sends, link`requests
    ensures link.requests == old(link.requests) + [NextRequest(chunkSize, usedSize, address)]
    ensures ok == (old(link.sends) == [] || old(link.sends)[0])
  {
    var size := chunkSize;
    var remaining := usedSize - address;
    if remaining % 65536 < size {
      size := remaining % 65536;
    }
    ok := link.SendFlashReadRequest(address, size);
  }

  /** How a run of the pipelined loop compares with the plain reader: the same bytes are hashed and counted,
      and the same requests were sent, with the next one ahead where the loop is left before it is answered. */
  ghost predicate Mirrors(c: Copy, chunk: nat, used: nat, sent: seq<Request>, hashed: seq<byte>) {
    && (if c.ending == Late then |c.copied| < used && sent == c.requests + [NextRequest(chunk, used, |c.copied|)]
        else if c.ending in {WriteFailed, Panicked} then c.requests <= sent && |sent| <= |c.requests| + 1
        else sent == c.requests)
    && (if c.ending == WriteFailed then c.copied <= hashed else c.copied == hashed)
  }

  /** The requests at the head of the loop: those done, and the one for the next unwritten byte. */
  function Asked(done: seq<Request>, chunk: nat, used: nat, at: nat): seq<Request> {
    if at < used then done + [NextRequest(chunk, used, at)] else done
  }

  /** The head of the loop: the address is the number of bytes written, the last request is for it, and the
      plain reader has got just as far. */
  ghost predicate AtHead(link: Link, writer: Writer.StreamWriter, p: Progress, chunk: nat, used: nat, address: nat,
                         errors: nat)
    reads link, writer, writer.file, writer.buf
  {
    && writer.Valid() && address == writer.bytesWritten && address < 0x1_0000_0000
    && (forall a <- link.answers :: Parsable(a))
    && link.requests == Asked(p.done, chunk, used, address)
    && Follows(chunk, used, p.world, p.done, World(link.answers, link.late, []), writer.hashed, errors)
  }

  /** The loop was left, and what the plain reader comes to in the same world. */
  ghost predicate Left(link: Link, writer: Writer.StreamWriter, p: Progress, chunk: nat, used: nat, c: Copy)
    reads link, writer, writer.file, writer.buf
  {
    writer.Valid() && c == ReadPlainly(chunk, used, p.world) && Mirrors(c, chunk, used, link.requests, writer.hashed)
  }

  /** How a pass through the loop ends. */
  datatype Pass = Continue | Break | Return(r: Option<SyncResult>)

  ghost predicate Passed(link: Link, writer: Writer.StreamWriter, next: Pass, p: Progress, chunk: nat, used: nat,
                         address: nat, errors: nat, c: Copy)
    reads link, writer, writer.file, writer.buf
  {
    match next
    case Continue => AtHead(link, writer, p, chunk, used, address, errors)
    case Break => Left(link, writer, p, chunk, used, c) && c.ending == EndOfData && address < used
    case Return(r) =>
      && Left(link, writer, p, chunk, used, c) && c.ending in {Late, TooManyErrors, WriteFailed, Panicked}
      && !writer.file.open && r == if c.ending == Panicked then None else Some(Error)
  }

  /** No write has failed or will fail. */
  ghost predicate Unharmed(writer: Writer.StreamWriter, p: Progress)
    reads writer.buf, writer.buf.file
  {
    writer.buf.Healthy() && false !in p.world.writes
  }

  ghost predicate StillUnharmed(writer: Writer.StreamWriter, p: Progress, next: Pass)
    reads writer, writer.file, writer.buf, writer.buf.file
  {
    if next.Return? then false !in p.world.writes && !writer.file.present else Unharmed(writer, p)
  }

  /** The bytes left and the tries left, in this order, became fewer. */
  predicate Progresses(used: nat, address: nat, errors: nat, address1: nat, errors1: nat) {
    address < address1 || (address == address1 && errors < errors1 < MAX_CONSECUTIVE_ERRORS)
  }

  /** A failure, or an answer for another address: the same request again, up to four times. */
  method TryAgain(link: Link, writer: Writer.StreamWriter, chunkSize: nat, usedSize: nat, address: nat,
                  consecutiveErrors: nat, ghost p: Progress, ghost w: World)
    returns (next: Pass, errors: nat, ghost p1: Progress, ghost c: Copy)
    requires writer.Valid() && address == writer.bytesWritten && address < 0x1_0000_0000 && address < usedSize
    requires forall a <- link.answers :: Parsable(a)
    requires link.requests == Asked(p.done, chunkSize, usedSize, address)
    requires link.answers == Rest(w.answers) && link.late == Rest(w.late)
    requires Follows(chunkSize, usedSize, p.world, p.done, w, writer.hashed, consecutiveErrors)
    requires w.writes == [] && !NextLate(w) && Misses(NextAnswer(w), address)
    modifies link`sends, link`requests, writer.file
    ensures Passed(link, writer, next, p1, chunkSize, usedSize, address, errors, c)
    ensures p1.world == p.world && errors == consecutiveErrors + 1 && (next == Continue <==> errors < 5)
    ensures !next.Break? && (next == Continue ==> unchanged(writer.file))
    ensures old(Unharmed(writer, p)) ==> StillUnharmed(writer, p1, next)
    ensures old(!writer.file.present) ==> !writer.file.present
  {
    hide Follows, ReadPlainly, NextRequest;
    p1, c := p, Copy([], Complete, []);
    errors := consecutiveErrors + 1;
    if errors >= MAX_CONSECUTIVE_ERRORS {
      var _ := writer.Abort();
      c := EndsHere(chunkSize, usedSize, p, w, writer.hashed, consecutiveErrors, [], p.world, TooManyErrors, writer.hashed);
      return Return(Some(Error)), errors, p1, c;
    }
    FollowsRetry(chunkSize, usedSize, p.world, p.done, w, writer.hashed, consecutiveErrors);
    var _ := Ask(link, chunkSize, usedSize, address);
    p1 := p.(done := p.done + [NextRequest(chunkSize, usedSize, address)]);
    next := Continue;
  }

  /** Data for the address: the next request goes out before the data is written. */
  method Store(link: Link, writer: Writer.StreamWriter, chunkSize: nat, usedSize: nat, address: nat,
               consecutiveErrors: nat, data: seq<byte>, ghost p: Progress, ghost w: World)
    returns (next: Pass, nextAddr: nat, ghost p1: Progress, ghost c: Copy)
    requires writer.Valid() && address == writer.bytesWritten && address < usedSize <= MAX_FLASH_USED_SIZE
    requires forall a <- link.answers :: Parsable(a)
    requires link.requests == Asked(p.done, chunkSize, usedSize, address)
    requires link.answers == Rest(w.answers) && link.late == Rest(w.late)
    requires Follows(chunkSize, usedSize, p.world, p.done, w, writer.hashed, consecutiveErrors)
    requires w.writes == [] && !NextLate(w) && Brings(NextAnswer(w), address, data) && |data| < 65536
    modifies link`sends, link`requests, writer, writer.file, writer.buf
    ensures Passed(link, writer, next, p1, chunkSize, usedSize, nextAddr, 0, c)
    ensures p1.world == p.world.(writes := p1.world.writes) && (next == Continue ==> address < nextAddr)
    ensures !next.Break? && (next == Continue ==> writer.file.present == old(writer.file.present))
    ensures old(Unharmed(writer, p)) ==> StillUnharmed(writer, p1, next)
    ensures old(!writer.file.present) ==> !writer.file.present
  {
    hide Follows, ReadPlainly, NextRequest, Writer.StreamWriter.Valid;
    writer.EveryByteCounts();
    p1, c := p, Copy([], Complete, []);
    nextAddr := (address + |data|) % 0x1_0000_0000;
    if nextAddr < usedSize {
      var _ := Ask(link, chunkSize, usedSize, nextAddr);
    }
    ghost var copied := writer.hashed;
    var n, ok := writer.Write(data);
    writer.EveryByteCounts();
    p1 := p.(world := Written(p.world, ok));
    if !ok {
      var _ := writer.Abort();
      c := EndsHere(chunkSize, usedSize, p, w, copied, consecutiveErrors, [false], p1.world, WriteFailed, copied);
      return Return(Some(Error)), nextAddr, p1, c;
    }
    WholePrefix(data);
    if chunkSize == 0 {
      // the remainder by chunkSize * 64 panics
      var _ := writer.Abort();
      c := EndsHere(chunkSize, usedSize, p, w, copied, consecutiveErrors, [true], p1.world, Panicked, writer.hashed);
      return Return(None), nextAddr, p1, c;
    }
    FollowsWrite(chunkSize, usedSize, p.world, p.done, w, copied, consecutiveErrors, data);
    p1 := p1.(done := p.done + [NextRequest(chunkSize, usedSize, address)]);
    next := Continue;
  }

  /** One pass through the loop. */
  method PassLoop(link: Link, writer: Writer.StreamWriter, chunkSize: nat, usedSize: nat, address: nat,
                  consecutiveErrors: nat, ghost p: Progress)
    returns (next: Pass, address1: nat, errors1: nat, ghost p1: Progress, ghost c: Copy)
    requires AtHead(link, writer, p, chunkSize, usedSize, address, consecutiveErrors)
    requires address < usedSize <= MAX_FLASH_USED_SIZE
    modifies link`answers, link`late, link`sends, link`requests, writer, writer.file, writer.buf
    ensures Passed(link, writer, next, p1, chunkSize, usedSize, address1, errors1, c)
    ensures p1.world == p.world.(writes := p1.world.writes)
    ensures next == Continue ==> Progresses(usedSize, address, consecutiveErrors, address1, errors1)
    ensures !next.Return? ==> writer.file.present == old(writer.file.present)
    ensures old(Unharmed(writer, p)) ==> StillUnharmed(writer, p1, next)
    ensures old(!writer.file.present) ==> !writer.file.present
  {
    hide Follows, ReadPlainly, NextRequest;
    ghost var w := World(link.answers, link.late, []);
    p1, address1, errors1 := p, address, consecutiveErrors;
    c := Copy([], Complete, []);
    var late := link.DeadlineExceeded();
    if late {
      var _ := writer.Abort();
      c := EndsHere(chunkSize, usedSize, p, w, writer.hashed, consecutiveErrors, [], p.world, Late, writer.hashed);
      return Return(Some(Error)), address1, errors1, p1, c;
    }
    var answer := link.ReceiveFlashReadResponse();
    if answer.Panics? {
      var _ := writer.Abort();
      c := EndsHere(chunkSize, usedSize, p, w, writer.hashed, consecutiveErrors, [], p.world, Panicked, writer.hashed);
      return Return(None), address1, errors1, p1, c;
    }
    if answer.Failure? || answer.address != address {
      next, errors1, p1, c := TryAgain(link, writer, chunkSize, usedSize, address, consecutiveErrors, p, w);
      return;
    }
    if answer.data == [] {
      c := EndsHere(chunkSize, usedSize, p, w, writer.hashed, consecutiveErrors, [], p.world, EndOfData, writer.hashed);
      return Break, address1, errors1, p1, c;
    }
    assert Parsable(answer);
    errors1 := 0;
    next, address1, p1, c := Store(link, writer, chunkSize, usedSize, address, consecutiveErrors, answer.data, p, w);
  }

  /** The copy. r is the result to report at once, if any; none after a recovered panic. Of the ghost results,
      started says whether the first request went out, c is what the plain reader does in the same world, and
      writes tells which writes worked. */
  method ReadFlash(link: Link, writer: Writer.StreamWriter, usedSize: nat, flashChunkSize: nat)
    returns (r: Option<SyncResult>, ghost started: bool, ghost c: Copy, ghost writes: seq<bool>)
    requires writer.Valid() && writer.hashed == [] && link.requests == []
    requires 0 < usedSize <= MAX_FLASH_USED_SIZE && forall a <- link.answers :: Parsable(a)
    modifies link`answers, link`late, link`sends, link`requests, writer, writer.file, writer.buf
    ensures writer.Valid() && !writer.file.open && (old(!writer.file.present) ==> !writer.file.present)
    ensures !started ==> r == Some(Error)
    ensures started ==>
      && c == ReadPlainly(flashChunkSize % 65536, usedSize, World(old(link.answers), old(link.late), writes))
      && Mirrors(c, flashChunkSize % 65536, usedSize, link.requests, writer.hashed)
    ensures r.Some? ==> r == Some(Error)
    ensures started && r.None? ==>
      || c.ending == Panicked
      || (c.ending in {Complete, EndOfData} && writer.file.contents == c.copied && writer.file.synced == |c.copied|)
    ensures started && c.ending == Panicked ==> r == None
    ensures started && c.ending in {Complete, EndOfData} ==> writer.file.present == old(writer.file.present)
    ensures started == (old(link.sends) == [] || old(link.sends)[0])
    ensures old(writer.buf.Healthy()) ==>
      && false !in writes
      && (if started && c.ending in {Complete, EndOfData} then r == None else !writer.file.present)
  {
    hide Follows, ReadPlainly, NextRequest;
    var chunkSize := flashChunkSize % 65536;
    var address: nat := 0;
    var consecutiveErrors: nat := 0;
    ghost var w := World(link.answers, link.late, []);
    var sent := Ask(link, chunkSize, usedSize, address);
    started, writes, c := sent, [], Copy([], Complete, []);
    if !sent {
      var _ := writer.Abort();
      return Some(Error), started, c, writes;
    }
    FollowsStart(chunkSize, usedSize, w);
    ghost var p := Progress(w, []);
    while address < usedSize
      invariant AtHead(link, writer, p, chunkSize, usedSize, address, consecutiveErrors)
      invariant p.world == w.(writes := p.world.writes) && writer.file.present == old(writer.file.present)
      invariant old(writer.buf.Healthy()) ==> Unharmed(writer, p)
      decreases usedSize - address, MAX_CONSECUTIVE_ERRORS - consecutiveErrors
    {
      var next;
      next, address, consecutiveErrors, p, c := PassLoop(link, writer, chunkSize, usedSize, address, consecutiveErrors, p);
      if next.Return? {
        return next.r, started, c, p.world.writes;
      }
      if next.Break? {
        break;
      }
    }
    writes := p.world.writes;
    if address >= usedSize {
      c := EndsHere(chunkSize, usedSize, p, World(link.answers, link.late, []), writer.hashed, consecutiveErrors, [], p.world,
                    Complete, writer.hashed);
    }
    var closed := writer.Close();
    r := if closed then None else Some(Error);
  }
}
