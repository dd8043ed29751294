/** Reading the flash with one request at a time: the plain form of the pipelined loop in
    internal/sync/orchestrator.go, and what it guarantees. */
module Reader {
  import opened Bytes

  const MAX_CONSECUTIVE_ERRORS: nat := 5
  const MAX_FLASH_USED_SIZE: nat := 128 * 1024 * 1024

  datatype Request = Request(address: nat, size: nat)

  /** What waiting for an answer comes to. */
  datatype Reception = Failure | Answer(address: nat, data: seq<byte>) | Panics

  datatype Ending = Complete | EndOfData | Late | TooManyErrors | WriteFailed | Panicked

  /** What the world does: the answers, whether the deadline has passed, whether writes work. */
  datatype World = World(answers: seq<Reception>, late: seq<bool>, writes: seq<bool>)

  /** A failure, or an answer for another address. */
  predicate Misses(r: Reception, at: nat) {
    r.Failure? || (r.Answer? && r.address != at)
  }

  // A world that is used up times out, is never late, and writes.
  function NextAnswer(w: World): Reception { if w.answers == [] then Failure else w.answers[0] }
  predicate NextLate(w: World) { w.late != [] && w.late[0] }
  predicate NextWrites(w: World) { w.writes == [] || w.writes[0] }

  function Rest<T>(s: seq<T>): seq<T> { if s == [] then [] else s[1..] }

  function Heard(w: World): World { World(Rest(w.answers), Rest(w.late), w.writes) }
  function Wrote(w: World): World { World(Rest(w.answers), Rest(w.late), Rest(w.writes)) }

  datatype Copy = Copy(copied: seq<byte>, ending: Ending, requests: seq<Request>)

  /** The size of a request, given the chunk size and the bytes that remain. */
  type SizeRule = (nat, nat) -> nat

  /** Request the next unwritten byte, wait, and write what came, until all is there. A failure or an answer
      for another address uses up one of five tries. */
  function Read(size: SizeRule, chunk: nat, used: nat, w: World, copied: seq<byte>, errors: nat): Copy
    requires errors < MAX_CONSECUTIVE_ERRORS
    decreases used - |copied|, MAX_CONSECUTIVE_ERRORS - errors
  {
    if |copied| >= used then Copy(copied, Complete, [])
    else if NextLate(w) then Copy(copied, Late, [])
    else
      var asked := Request(|copied|, size(chunk, used - |copied|));
      Asking(asked, match NextAnswer(w)
        case Panics => Copy(copied, Panicked, [])
        case Failure => Retry(size, chunk, used, w, copied, errors)
        case Answer(address, data) =>
          if address != |copied| then Retry(size, chunk, used, w, copied, errors)
          else if data == [] then Copy(copied, EndOfData, [])
          else if !NextWrites(w) then Copy(copied, WriteFailed, [])
          else if chunk == 0 then Copy(copied + data, Panicked, [])
          else Read(size, chunk, used, Wrote(w), copied + data, 0))
  }

  function Retry(size: SizeRule, chunk: nat, used: nat, w: World, copied: seq<byte>, errors: nat): Copy
    requires errors < MAX_CONSECUTIVE_ERRORS && |copied| < used
    decreases used - |copied|, MAX_CONSECUTIVE_ERRORS - errors, 0
  {
    if errors + 1 >= MAX_CONSECUTIVE_ERRORS then Copy(copied, TooManyErrors, [])
    else Read(size, chunk, used, Heard(w), copied, errors + 1)
  }

  function Asking(r: Request, c: Copy): Copy {
    c.(requests := [r] + c.requests)
  }

  // ---------- Sizes of requests ----------

  /** The intended size. */
  function Wide(chunk: nat, remaining: nat): nat {
    if remaining < chunk then remaining else chunk
  }

  /** The size as the source computes it: the remainder is cut to 16 bits before it is compared. */
  function Narrow(chunk: nat, remaining: nat): nat {
    if remaining % 65536 < chunk then remaining % 65536 else chunk
  }

  /** No request asks for more than remains, and one asks for what is intended exactly if the remainder fits
      16 bits or its low 16 bits are no smaller than a chunk. */
  lemma NarrowIsWideIff(chunk: nat, remaining: nat)
    requires chunk < 65536
    ensures Narrow(chunk, remaining) <= Wide(chunk, remaining) <= remaining
    ensures Narrow(chunk, remaining) == Wide(chunk, remaining) <==> remaining < 65536 || remaining % 65536 >= chunk
  {
  }

  // ---------- What every run keeps ----------

  /** However the world behaves, every request is for the next unwritten byte, in the size that follows from
      it, and there are at most five requests for each byte. */
  lemma {:induction false} RequestsAreBounded(size: SizeRule, chunk: nat, used: nat, w: World, copied: seq<byte>, errors: nat)
    requires errors < MAX_CONSECUTIVE_ERRORS
    ensures var c := Read(size, chunk, used, w, copied, errors);
            && |c.requests| <= (if |copied| < used then 5 * (used - |copied|) - errors else 0)
            && copied <= c.copied && (c.ending == Complete ==> |c.copied| >= used)
            && (forall q <- c.requests :: |copied| <= q.address < used && q.size == size(chunk, used - q.address))
    decreases used - |copied|, MAX_CONSECUTIVE_ERRORS - errors
  {
    if |copied| < used && !NextLate(w) {
      var r := NextAnswer(w);
      if r.Answer? && r.address == |copied| {
        if r.data != [] && NextWrites(w) && chunk > 0 {
          RequestsAreBounded(size, chunk, used, Wrote(w), copied + r.data, 0);
        }
      } else if !r.Panics? && errors + 1 < MAX_CONSECUTIVE_ERRORS {
        RequestsAreBounded(size, chunk, used, Heard(w), copied, errors + 1);
      }
    }
  }

  // ---------- Honest controllers ----------

  /** An honest answer carries flash contents, and no more of them than a request for the address asks for.
      It may be late, repeated, short or empty. */
  predicate Honest(size: SizeRule, chunk: nat, used: nat, flash: seq<byte>, r: Reception) {
    r.Answer? && r.address < used ==>
      && |r.data| <= size(chunk, used - r.address)
      && r.address + |r.data| <= |flash|
      && r.data == flash[r.address..r.address + |r.data|]
  }

  ghost predicate AllHonest(size: SizeRule, chunk: nat, used: nat, flash: seq<byte>, answers: seq<Reception>) {
    forall r <- answers :: Honest(size, chunk, used, flash, r)
  }

  /** Requests for bytes up to the limit stay within it. */
  ghost predicate IsLimit(size: SizeRule, chunk: nat, used: nat, limit: nat) {
    limit <= used && forall a: nat :: StaysWithin(size, chunk, used, limit, a)
  }

  /** In chunks of size zero. */
  ghost predicate AsksNothing(size: SizeRule) {
    forall remaining: nat :: size(0, remaining) == 0
  }

  predicate StaysWithin(size: SizeRule, chunk: nat, used: nat, limit: nat, a: nat) {
    a <= limit && a < used ==> a + size(chunk, used - a) <= limit
  }

  lemma TakeMore<T>(flash: seq<T>, copied: seq<T>, data: seq<T>)
    requires |copied| + |data| <= |flash|
    requires copied == flash[..|copied|] && data == flash[|copied|..|copied| + |data|]
    ensures copied + data == flash[..|copied + data|]
  {
  }

  /** With an honest controller the copy is always a prefix of the flash, each byte once and in order, and
      never goes beyond a limit. */
  lemma {:induction false} CopiesPrefix(size: SizeRule, chunk: nat, used: nat, flash: seq<byte>, limit: nat,
                                        w: World, copied: seq<byte>, errors: nat)
    requires errors < MAX_CONSECUTIVE_ERRORS && used <= |flash| && IsLimit(size, chunk, used, limit)
    requires AllHonest(size, chunk, used, flash, w.answers) && AsksNothing(size)
    requires |copied| <= limit && copied == flash[..|copied|]
    ensures var c := Read(size, chunk, used, w, copied, errors);
            |c.copied| <= limit && c.copied == flash[..|c.copied|] && (|c.copied| >= used ==> c.ending == Complete)
    decreases used - |copied|, MAX_CONSECUTIVE_ERRORS - errors
  {
    if |copied| < used && !NextLate(w) {
      var r := NextAnswer(w);
      assert Honest(size, chunk, used, flash, r) && StaysWithin(size, chunk, used, limit, |copied|);
      if r.Answer? && r.address == |copied| {
        TakeMore(flash, copied, r.data);
        if r.data != [] && NextWrites(w) && chunk > 0 {
          CopiesPrefix(size, chunk, used, flash, limit, Wrote(w), copied + r.data, 0);
        }
      } else if !r.Panics? && errors + 1 < MAX_CONSECUTIVE_ERRORS {
        CopiesPrefix(size, chunk, used, flash, limit, Heard(w), copied, errors + 1);
      }
    }
  }

  lemma NarrowLimit(chunk: nat, used: nat)
    ensures IsLimit(Narrow, chunk, used, used % 65536) && IsLimit(Narrow, chunk, used, used) && AsksNothing(Narrow)
  {
    forall a: nat
      ensures StaysWithin(Narrow, chunk, used, used % 65536, a) && StaysWithin(Narrow, chunk, used, used, a)
    {
      if a <= used % 65536 {
        LowBitsOfRest(used, a);
      }
    }
  }

  lemma LowBitsOfRest(used: nat, a: nat)
    requires a <= used % 65536
    ensures (used - a) % 65536 == used % 65536 - a
  {
    assert used - a == 65536 * (used / 65536) + (used % 65536 - a);
  }

  /** A flash of 64 KiB or more is never copied by the shipped loop: an honest controller gets the copy no
      further than the low 16 bits of the size. */
  lemma ShippedStopsShort(chunk: nat, used: nat, flash: seq<byte>, w: World)
    requires 65536 <= used <= |flash| && AllHonest(Narrow, chunk, used, flash, w.answers)
    ensures var c := Read(Narrow, chunk, used, w, [], 0);
            c.copied <= flash[..used % 65536] && c.ending != Complete
  {
    NarrowLimit(chunk, used);
    CopiesPrefix(Narrow, chunk, used, flash, used % 65536, w, [], 0);
    RequestsAreBounded(Narrow, chunk, used, w, [], 0);
  }

  lemma WideLimit(chunk: nat, used: nat)
    ensures IsLimit(Wide, chunk, used, used) && AsksNothing(Wide)
  {
    forall a: nat
      ensures StaysWithin(Wide, chunk, used, used, a)
    {
    }
  }

  /** From an honest controller the copy has the right size exactly if it is complete, and is the flash then. */
  lemma CompleteIsFlash(size: SizeRule, chunk: nat, used: nat, flash: seq<byte>, w: World)
    requires used <= |flash| && IsLimit(size, chunk, used, used) && AsksNothing(size)
    requires AllHonest(size, chunk, used, flash, w.answers)
    ensures var c := Read(size, chunk, used, w, [], 0);
            && c.copied <= flash[..used]
            && (c.ending == Complete <==> |c.copied| == used) && (c.ending == Complete <==> c.copied == flash[..used])
  {
    CopiesPrefix(size, chunk, used, flash, used, w, [], 0);
    RequestsAreBounded(size, chunk, used, w, [], 0);
  }

  /** So for the shipped sizes and for the intended ones. */
  lemma CompleteCopyIsFlash(chunk: nat, used: nat, flash: seq<byte>, w: World)
    requires used <= |flash|
    ensures AllHonest(Narrow, chunk, used, flash, w.answers) ==>
      var c := Read(Narrow, chunk, used, w, [], 0); c.ending == Complete <==> c.copied == flash[..used]
    ensures AllHonest(Wide, chunk, used, flash, w.answers) ==>
      var c := Read(Wide, chunk, used, w, [], 0); c.ending == Complete <==> c.copied == flash[..used]
  {
    NarrowLimit(chunk, used);
    if AllHonest(Narrow, chunk, used, flash, w.answers) {
      CompleteIsFlash(Narrow, chunk, used, flash, w);
    }
    WideLimit(chunk, used);
    if AllHonest(Wide, chunk, used, flash, w.answers) {
      CompleteIsFlash(Wide, chunk, used, flash, w);
    }
  }

  // ---------- Patient controllers ----------

  /** The answers bring the next bytes after no more than four tries each time. */
  ghost predicate Patient(size: SizeRule, chunk: nat, used: nat, flash: seq<byte>, answers: seq<Reception>,
                          at: nat, errors: nat)
    requires at <= used <= |flash|
    decreases |answers|
  {
    at == used
    || (answers != [] && var r := answers[0];
        if r.Answer? && r.address == at then
          && 0 < |r.data| && at + |r.data| <= used && r.data == flash[at..at + |r.data|]
          && Patient(size, chunk, used, flash, answers[1..], at + |r.data|, 0)
        else !r.Panics? && errors < 4
             && Patient(size, chunk, used, flash, answers[1..], at, errors + 1))
  }

  /** Never late, and every write works. */
  ghost predicate Kind(w: World) {
    true !in w.late && false !in w.writes
  }

  lemma KindStays(w: World)
    requires Kind(w)
    ensures !NextLate(w) && NextWrites(w) && Kind(Heard(w)) && Kind(Wrote(w))
  {
    assert w.late != [] ==> w.late[0] in w.late;
    assert w.writes != [] ==> w.writes[0] in w.writes;
  }

  /** With a patient controller, time, and a disk that works, the copy is completed. */
  lemma {:induction false} PatienceCompletes(size: SizeRule, chunk: nat, used: nat, flash: seq<byte>,
                                             w: World, copied: seq<byte>, errors: nat)
    requires Kind(w) && errors < MAX_CONSECUTIVE_ERRORS && |copied| <= used <= |flash| && chunk > 0
    requires copied == flash[..|copied|] && Patient(size, chunk, used, flash, w.answers, |copied|, errors)
    ensures var c := Read(size, chunk, used, w, copied, errors);
            c.ending == Complete && c.copied == flash[..used]
    decreases |w.answers|
  {
    KindStays(w);
    if |copied| < used {
      var r := w.answers[0];
      if r.Answer? && r.address == |copied| {
        TakeMore(flash, copied, r.data);
        PatienceCompletes(size, chunk, used, flash, Wrote(w), copied + r.data, 0);
      } else {
        PatienceCompletes(size, chunk, used, flash, Heard(w), copied, errors + 1);
      }
    }
  }

  /** The answers of a controller that gives each request what it asks for. */
  function Prompt(size: SizeRule, chunk: nat, used: nat, flash: seq<byte>, at: nat): seq<Reception>
    requires at <= used <= |flash|
    decreases used - at
  {
    if at == used then []
    else
      var n := size(chunk, used - at);
      if n == 0 || n > used - at then []
      else [Answer(at, flash[at..at + n])] + Prompt(size, chunk, used, flash, at + n)
  }

  lemma {:induction false} PromptIsHonest(size: SizeRule, chunk: nat, used: nat, flash: seq<byte>, at: nat)
    requires at <= used <= |flash|
    ensures AllHonest(size, chunk, used, flash, Prompt(size, chunk, used, flash, at))
    decreases used - at
  {
    var n := if at == used then 0 else size(chunk, used - at);
    if at < used && 0 < n <= used - at {
      PromptIsHonest(size, chunk, used, flash, at + n);
    }
  }

  ghost predicate Asks(size: SizeRule, chunk: nat, used: nat) {
    forall remaining: nat :: 0 < remaining <= used ==> 0 < size(chunk, remaining) <= remaining
  }

  lemma {:induction false} PromptIsPatient(size: SizeRule, chunk: nat, used: nat, flash: seq<byte>, at: nat)
    requires at <= used <= |flash| && Asks(size, chunk, used)
    ensures Patient(size, chunk, used, flash, Prompt(size, chunk, used, flash, at), at, 0)
    decreases used - at
  {
    if at < used {
      PromptIsPatient(size, chunk, used, flash, at + size(chunk, used - at));
    }
  }

  /** Some honest controller gets a complete copy. */
  ghost predicate CanComplete(size: SizeRule, chunk: nat, used: nat, flash: seq<byte>) {
    exists w: World :: Completes(size, chunk, used, flash, w)
  }

  ghost predicate Completes(size: SizeRule, chunk: nat, used: nat, flash: seq<byte>, w: World) {
    AllHonest(size, chunk, used, flash, w.answers) && Read(size, chunk, used, w, [], 0).ending == Complete
  }

  lemma PromptCompletes(size: SizeRule, chunk: nat, used: nat, flash: seq<byte>)
    requires used <= |flash| && Asks(size, chunk, used) && chunk > 0
    ensures CanComplete(size, chunk, used, flash)
  {
    var answers := Prompt(size, chunk, used, flash, 0);
    PromptIsHonest(size, chunk, used, flash, 0);
    PromptIsPatient(size, chunk, used, flash, 0);
    PatienceCompletes(size, chunk, used, flash, World(answers, [], []), [], 0);
    assert Completes(size, chunk, used, flash, World(answers, [], []));
  }

  /** The intended sizes complete a flash of any size; the shipped ones exactly the flashes below 64 KiB. */
  lemma ShippedCompletesIff(chunk: nat, used: nat, flash: seq<byte>)
    requires used <= |flash| && chunk > 0
    ensures CanComplete(Wide, chunk, used, flash)
    ensures CanComplete(Narrow, chunk, used, flash) <==> used < 65536
  {
    assert Asks(Wide, chunk, used);
    PromptCompletes(Wide, chunk, used, flash);
    if used < 65536 {
      assert Asks(Narrow, chunk, used);
      PromptCompletes(Narrow, chunk, used, flash);
    } else {
      forall w: World | AllHonest(Narrow, chunk, used, flash, w.answers)
        ensures Read(Narrow, chunk, used, w, [], 0).ending != Complete
      {
        ShippedStopsShort(chunk, used, flash, w);
      }
    }
  }
}
