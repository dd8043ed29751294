/** The order of the gates before the erase (internal/sync/orchestrator.go: Run, run and their steps). */
module Workflow {
  import opened Bytes
  import opened Reader
  import Writer
  import FlashProtocol
  import opened Orchestrator

  datatype Config = Config(flashChunkSize: nat, eraseAfterSync: bool, dryRun: bool)

  /** Everything else the run meets: whether the controller is identified, its summary, whether the output
      could be prepared, how the file behaves, what re-reading it gives, whether manifests can be written, whether
      the port takes the erase command, the summaries polled until the erase deadline, and before which step
      something panics: 0 identification, 1 query, 2 preparation, 3 copy, 4 verification, 5 erase, 6 the end. */
  datatype Surroundings = Surroundings(
    identified: bool, summary: Option<FlashProtocol.Summary>, prepared: bool, outcomes: seq<Writer.Outcome>,
    reading: Option<seq<byte>>,
    manifestWorks: bool, takesErase: bool, polls: seq<Option<FlashProtocol.Summary>>, panics: nat)

  /** What the copy came to. */
  datatype Copied =
    | NotCopied
    | Copied(failed: bool, started: bool, c: Copy, writes: seq<bool>, hashed: seq<byte>, present: bool,
             contents: seq<byte>, synced: nat)

  // ---------- The gates ----------

  predicate HasData(s: Option<FlashProtocol.Summary>) {
    s.Some? && s.value.Supported() && s.value.Ready() && 0 < s.value.usedSize <= MAX_FLASH_USED_SIZE
  }

  predicate IsEmpty(s: Option<FlashProtocol.Summary>) {
    s.Some? && s.value.Supported() && s.value.Ready() && s.value.usedSize == 0
  }

  method QueryFlashState(summary: Option<FlashProtocol.Summary>) returns (usedSize: nat, r: Option<SyncResult>)
    ensures r == None <==> HasData(summary)
    ensures r == None <==>
      && summary.Some? && summary.value.flags % 2 == 1 && summary.value.flags / 2 % 2 == 1
      && 0 < summary.value.usedSize <= 0x800_0000
    ensures r == None ==> usedSize == summary.value.usedSize
    ensures r == Some(AlreadyEmpty) <==> IsEmpty(summary)
    ensures r == Some(AlreadyEmpty) <==>
      summary.Some? && summary.value.flags % 2 == 1 && summary.value.flags / 2 % 2 == 1 && summary.value.usedSize == 0
    ensures r.Some? ==> r.value in {AlreadyEmpty, Error}
  {
    if summary.None? || !summary.value.Supported() || !summary.value.Ready() {
      return 0, Some(Error);
    }
    if summary.value.usedSize == 0 {
      return 0, Some(AlreadyEmpty);
    }
    if summary.value.usedSize > MAX_FLASH_USED_SIZE {
      return 0, Some(Error);
    }
    return summary.value.usedSize, None;
  }

  predicate SameHash<D(==)>(hash: seq<byte> -> D, reading: Option<seq<byte>>, data: seq<byte>) {
    reading.Some? && hash(reading.value) == hash(data)
  }

  method VerifyIntegrity<D(==)>(writer: Writer.StreamWriter, usedSize: nat, hash: seq<byte> -> D, reading: Option<seq<byte>>)
    returns (r: Option<SyncResult>)
    requires writer.Valid()
    ensures r == None <==> |writer.hashed| == usedSize && writer.file.present && SameHash(hash, reading, writer.hashed)
    ensures r.Some? ==> r == Some(Error)
  {
    if writer.bytesWritten != usedSize {
      return Some(Error);
    }
    var same := writer.VerifyAgainstFile(hash, reading);
    if same.None? || !same.value {
      return Some(Error);
    }
    r := None;
  }

  predicate Erased(s: Option<FlashProtocol.Summary>) {
    s.Some? && s.value.usedSize == 0 && s.value.Ready()
  }

  /** The port takes the erase command, and a poll before the deadline shows an empty flash. */
  ghost predicate Confirmed(takesErase: bool, polls: seq<Option<FlashProtocol.Summary>>) {
    takesErase && exists p :: p in polls && Erased(p)
  }

  /** Sends the erase command and polls until the flash is empty. */
  method WaitForErase(link: Link, takesErase: bool, polls: seq<Option<FlashProtocol.Summary>>) returns (ok: bool)
    modifies link`effects
    ensures link.effects == old(link.effects) + if takesErase then [EraseTried, EraseSent] else [EraseTried]
    ensures ok <==> Confirmed(takesErase, polls)
  {
    link.effects := link.effects + [EraseTried];
    if !takesErase {
      return false;
    }
    link.effects := link.effects + [EraseSent];
    for i := 0 to |polls|
      invariant forall j :: 0 <= j < i ==> !Erased(polls[j])
    {
      if Erased(polls[i]) {
        return true;
      }
    }
    ok := false;
  }

  // ---------- The run ----------

  /** The copy is done and in place, its size is right, and the file, re-read, has the hash of what was copied. */
  ghost predicate Passes<D>(hash: seq<byte> -> D, env: Surroundings, k: Copied) {
    && env.identified && HasData(env.summary) && env.prepared
    && k.Copied? && !k.failed && k.present && |k.hashed| == env.summary.value.usedSize
    && env.reading.Some? && hash(env.reading.value) == hash(k.hashed)
  }

  /** The copy is what the plain reader makes of the same world. */
  ghost predicate AsRead(cfg: Config, env: Surroundings, answers: seq<Reception>, late: seq<bool>, k: Copied) {
    k.Copied? ==>
      && HasData(env.summary) && (!k.started ==> k.failed)
      && (k.started ==>
            && k.c == ReadPlainly(cfg.flashChunkSize % 65536, env.summary.value.usedSize, World(answers, late, k.writes))
            && (if k.c.ending == WriteFailed then k.c.copied <= k.hashed else k.c.copied == k.hashed)
            && (!k.failed ==> k.c.ending in {Complete, EndOfData, Panicked})
            && (!k.failed && k.c.ending != Panicked ==> k.contents == k.hashed && k.synced == |k.hashed|))
  }

  predicate Works(outcomes: seq<Writer.Outcome>) {
    forall o <- outcomes :: o.Works?
  }

  /** With a disk that works, a complete copy does not fail. */
  ghost predicate FailsOnlyByCause(env: Surroundings, k: Copied) {
    k.Copied? && Works(env.outcomes) ==>
      false !in k.writes && (k.started && k.c.ending == Complete ==> !k.failed && k.present)
  }

  /** The run gets as far as the step before which something panics. */
  ghost predicate Reached<D>(hash: seq<byte> -> D, cfg: Config, env: Surroundings, k: Copied) {
    match env.panics
    case 0 => true
    case 1 => env.identified
    case 2 => env.identified && HasData(env.summary)
    case 3 => env.identified && HasData(env.summary) && env.prepared
    case 4 => k.Copied? && !k.failed
    case 5 => MayErase(hash, cfg, env, k)
    case 6 => MayErase(hash, cfg, env, k)
    case _ => false
  }

  /** All gates before the erase are passed. */
  ghost predicate MayErase<D>(hash: seq<byte> -> D, cfg: Config, env: Surroundings, k: Copied) {
    Passes(hash, env, k) && env.manifestWorks && !cfg.dryRun && cfg.eraseAfterSync
  }

  /** What the run reports; nothing after a panic. */
  ghost function Report<D>(hash: seq<byte> -> D, cfg: Config, env: Surroundings, k: Copied): Option<SyncResult> {
    if Reached(hash, cfg, env, k) then None
    else if !Passes(hash, env, k) then Some(if env.identified && IsEmpty(env.summary) then AlreadyEmpty else Error)
    else if !env.manifestWorks then Some(Error)
    else if cfg.dryRun then Some(DryRun)
    else if !cfg.eraseAfterSync then Some(Success)
    else Some(if Confirmed(env.takesErase, env.polls) then Success else Error)
  }

  /** What the run does besides copying. */
  ghost function Effects<D>(hash: seq<byte> -> D, cfg: Config, env: Surroundings, k: Copied): seq<Effect> {
    if env.panics <= 4 || !Passes(hash, env, k) || !env.manifestWorks then []
    else if cfg.dryRun || !cfg.eraseAfterSync || env.panics == 5 then [ManifestWritten]
    else
      [ManifestWritten, EraseTried] + (if env.takesErase then [EraseSent] else [])
      + (if env.panics == 6 then [] else [EraseRecorded(Confirmed(env.takesErase, env.polls))])
  }

  /** The steps up to the verified copy. Without a result, the run goes on, or something panicked. */
  method CopyAndVerify<D(==)>(link: Link, cfg: Config, env: Surroundings, hash: seq<byte> -> D)
    returns (r: Option<SyncResult>, goesOn: bool, ghost k: Copied)
    requires link.requests == [] && forall a <- link.answers :: Parsable(a)
    modifies link`answers, link`late, link`sends, link`requests
    ensures AsRead(cfg, env, old(link.answers), old(link.late), k) && FailsOnlyByCause(env, k)
    ensures k.Copied? <==> env.panics > 3 && env.identified && HasData(env.summary) && env.prepared
    ensures k.Copied? ==> k.started == (old(link.sends) == [] || old(link.sends)[0])
    ensures goesOn <==> env.panics > 4 && Passes(hash, env, k)
    ensures r.None? <==> goesOn || (env.panics <= 4 && Reached(hash, cfg, env, k))
    ensures !goesOn ==> r == Report(hash, cfg, env, k)
  {
    k, goesOn := NotCopied, false;
    if env.panics == 0 {
      return None, false, k;
    }
    if !env.identified {
      return Some(Error), false, k;
    }
    if env.panics == 1 {
      return None, false, k;
    }
    var usedSize;
    usedSize, r := QueryFlashState(env.summary);
    if r.Some? {
      return;
    }
    if env.panics == 2 {
      return None, false, k;
    }
    if !env.prepared {
      return Some(Error), false, k;
    }
    var file := new Writer.File(env.outcomes);
    var writer := new Writer.StreamWriter(file);
    if env.panics == 3 {
      return None, false, k;
    }
    ghost var started, c, writes;
    r, started, c, writes := ReadFlash(link, writer, usedSize, cfg.flashChunkSize);
    k := Copied(r.Some?, started, c, writes, writer.hashed, file.present, file.contents, file.synced);
    if r.Some? {
      return;
    }
    if env.panics == 4 {
      return None, false, k;
    }
    r := VerifyIntegrity(writer, usedSize, hash, env.reading);
    goesOn := r.None?;
  }

  /** All steps. No result means a panic. */
  method RunSteps<D(==)>(link: Link, cfg: Config, env: Surroundings, hash: seq<byte> -> D)
    returns (r: Option<SyncResult>, ghost k: Copied)
    requires link.requests == [] && link.effects == [] && forall a <- link.answers :: Parsable(a)
    modifies link
    ensures AsRead(cfg, env, old(link.answers), old(link.late), k) && FailsOnlyByCause(env, k)
    ensures k.Copied? <==> env.panics > 3 && env.identified && HasData(env.summary) && env.prepared
    ensures k.Copied? ==> k.started == (old(link.sends) == [] || old(link.sends)[0])
    ensures r == Report(hash, cfg, env, k) && link.effects == Effects(hash, cfg, env, k)
  {
    var goesOn;
    r, goesOn, k := CopyAndVerify(link, cfg, env, hash);
    if !goesOn {
      return;
    }
    if !env.manifestWorks {
      return Some(Error), k;
    }
    link.effects := link.effects + [ManifestWritten];
    if cfg.dryRun {
      return Some(DryRun), k;
    }
    if !cfg.eraseAfterSync {
      return Some(Success), k;
    }
    if env.panics == 5 {
      return None, k;
    }
    var eraseOK := WaitForErase(link, env.takesErase, env.polls);
    if env.panics == 6 {
      return None, k;
    }
    link.effects := link.effects + [EraseRecorded(eraseOK)];
    r := if eraseOK then Some(Success) else Some(Error);
  }

  // ---------- What the run is for ----------

  /** Two different inputs of the hash function with the same hash. */
  ghost predicate Collision<D>(hash: seq<byte> -> D, a: seq<byte>, b: seq<byte>) {
    a != b && hash(a) == hash(b)
  }

  /** The controller has that flash and is honest about it. */
  ghost predicate HonestController(cfg: Config, env: Surroundings, flash: seq<byte>, answers: seq<Reception>) {
    HasData(env.summary) ==>
      && env.summary.value.usedSize <= |flash|
      && AllHonest(Narrow, cfg.flashChunkSize % 65536, env.summary.value.usedSize, flash, answers)
  }

  /** A copy that passes is the flash, on the disk and synced, and the flash is below 64 KiB. */
  lemma CopyIsFlash(cfg: Config, env: Surroundings, flash: seq<byte>, answers: seq<Reception>, late: seq<bool>, k: Copied)
    requires HonestController(cfg, env, flash, answers) && AsRead(cfg, env, answers, late, k)
    requires k.Copied? && !k.failed && |k.hashed| == env.summary.value.usedSize
    ensures var used := env.summary.value.usedSize;
            k.hashed == flash[..used] && k.contents == flash[..used] && k.synced == used && used < 65536
  {
    var used, chunk := env.summary.value.usedSize, cfg.flashChunkSize % 65536;
    var w := World(answers, late, k.writes);
    NarrowLimit(chunk, used);
    CopiesPrefix(Narrow, chunk, used, flash, used, w, [], 0);
    CopiesPrefix(Narrow, chunk, used, flash, used % 65536, w, [], 0);
  }

  /** Nothing stands in the way of the erase. */
  ghost predicate Favourable(cfg: Config, env: Surroundings, flash: seq<byte>, answers: seq<Reception>, late: seq<bool>,
                             sends: seq<bool>) {
    && env.identified && HasData(env.summary) && env.prepared && Works(env.outcomes) && env.manifestWorks
    && env.takesErase && env.panics > 6
    && cfg.eraseAfterSync && !cfg.dryRun && cfg.flashChunkSize % 65536 > 0
    && true !in late && (sends == [] || sends[0])
    && env.summary.value.usedSize <= |flash| && env.reading == Some(flash[..env.summary.value.usedSize])
    && Patient(Narrow, cfg.flashChunkSize % 65536, env.summary.value.usedSize, flash, answers, 0, 0)
  }

  lemma FavourablePasses<D>(hash: seq<byte> -> D, cfg: Config, env: Surroundings, flash: seq<byte>, answers: seq<Reception>,
                            late: seq<bool>, sends: seq<bool>, k: Copied)
    requires Favourable(cfg, env, flash, answers, late, sends) && k.Copied? && k.started
    requires AsRead(cfg, env, answers, late, k) && FailsOnlyByCause(env, k)
    ensures Passes(hash, env, k)
  {
    var used, chunk := env.summary.value.usedSize, cfg.flashChunkSize % 65536;
    PatienceCompletes(Narrow, chunk, used, flash, World(answers, late, k.writes), [], 0);
  }

  // ---------- What the run reports ----------

  /** A recovered panic leaves the zero value of the unnamed result. */
  function Reported(r: Option<SyncResult>): SyncResult {
    if r.None? then Success else r.value
  }

  /** The run reports success although no copy has passed. */
  ghost predicate FalseSuccess<D>(hash: seq<byte> -> D, cfg: Config, env: Surroundings, k: Copied) {
    Reported(Report(hash, cfg, env, k)) == Success && !Passes(hash, env, k)
  }

  /** A run is in a state that CopyAndVerify can leave. */
  ghost predicate CopyMatches(env: Surroundings, k: Copied) {
    k.Copied? <==> env.panics > 3 && env.identified && HasData(env.summary) && env.prepared
  }

  /** Success is false exactly if the run gets to a panic before the copy, or to one before the verification of
      a copy that would not pass it. A panic later finds the copy verified. */
  lemma FalseSuccessIff<D>(hash: seq<byte> -> D, cfg: Config, env: Surroundings, k: Copied)
    requires CopyMatches(env, k)
    ensures FalseSuccess(hash, cfg, env, k)
       <==> match env.panics
            case 0 => true
            case 1 => env.identified
            case 2 => env.identified && HasData(env.summary)
            case 3 => env.identified && HasData(env.summary) && env.prepared
            case 4 => k.Copied? && !k.failed && !Passes(hash, env, k)
            case _ => false
  {
  }

  /** A panic during identification, with nothing read and nothing on the disk, is reported as success. */
  lemma SuccessWithoutCopy<D>(hash: seq<byte> -> D, cfg: Config)
    ensures var env := Surroundings(true, None, false, [], None, true, true, [], 0);
            CopyMatches(env, NotCopied) && FalseSuccess(hash, cfg, env, NotCopied)
            && Effects(hash, cfg, env, NotCopied) == []
  {
  }

  /** The port took the erase command, and then some poll showed no byte in use and the ready bit. */
  ghost predicate FlashIsEmpty(env: Surroundings) {
    env.takesErase
    && exists p :: p in env.polls && p.Some? && p.value.usedSize == 0 && p.value.flags / 2 % 2 == 1
  }

  lemma EmptyIsConfirmed(env: Surroundings)
    ensures FlashIsEmpty(env) <==> Confirmed(env.takesErase, env.polls)
  {
    if Confirmed(env.takesErase, env.polls) {
      var p :| p in env.polls && Erased(p);
      assert p.Some? && p.value.usedSize == 0;
    }
    if FlashIsEmpty(env) {
      var p :| p in env.polls && p.Some? && p.value.usedSize == 0 && p.value.flags / 2 % 2 == 1;
      assert Erased(p);
    }
  }

  /** The exported run, which recovers panics outside the copy. */
  method Run<D(==)>(link: Link, cfg: Config, env: Surroundings, hash: seq<byte> -> D, ghost flash: seq<byte>)
    returns (result: SyncResult, ghost k: Copied)
    requires link.requests == [] && link.effects == [] && forall a <- link.answers :: Parsable(a)
    modifies link
    // the result and the effects, in every case
    ensures CopyMatches(env, k) && AsRead(cfg, env, old(link.answers), old(link.late), k)
    ensures result == Reported(Report(hash, cfg, env, k)) && link.effects == Effects(hash, cfg, env, k)
    // the erase is tried only behind all gates
    ensures EraseTried in link.effects ==>
      && env.identified && env.prepared && env.manifestWorks && cfg.eraseAfterSync && !cfg.dryRun
      && link.effects[0] == ManifestWritten && k.Copied? && k.present && |k.hashed| == env.summary.value.usedSize
      && env.reading.Some? && hash(env.reading.value) == hash(k.hashed)
    ensures EraseSent in link.effects ==> EraseTried in link.effects && env.takesErase
    // and then an honest controller's flash is on the disk, as written, synced, and as re-read
    ensures HonestController(cfg, env, flash, old(link.answers)) && EraseTried in link.effects ==>
      var contents := flash[..env.summary.value.usedSize];
      && k.contents == contents && k.synced == |contents|
      && (env.reading == Some(contents) || (env.reading.Some? && Collision(hash, env.reading.value, contents)))
    // what a run without a panic reports, and what it records
    ensures env.panics > 6 ==>
      && (result == Success <==>
            Passes(hash, env, k) && env.manifestWorks && !cfg.dryRun && (cfg.eraseAfterSync ==> FlashIsEmpty(env)))
      && (result == DryRun <==> Passes(hash, env, k) && env.manifestWorks && cfg.dryRun)
      && (result == AlreadyEmpty <==> env.identified && IsEmpty(env.summary))
    ensures EraseRecorded(true) in link.effects ==> EraseSent in link.effects && FlashIsEmpty(env)
    ensures EraseRecorded(false) in link.effects ==> EraseTried in link.effects && !FlashIsEmpty(env)
    ensures env.panics > 6 && Passes(hash, env, k) && env.manifestWorks ==>
      && ManifestWritten in link.effects
      && (cfg.eraseAfterSync && !cfg.dryRun ==>
            EraseTried in link.effects && EraseRecorded(FlashIsEmpty(env)) in link.effects
            && (EraseSent in link.effects <==> env.takesErase))
    // a flash of 64 KiB or more is never erased, nor reported as copied, unless something panics
    ensures HonestController(cfg, env, flash, old(link.answers)) && HasData(env.summary)
            && env.summary.value.usedSize >= 65536 ==>
      EraseTried !in link.effects && (result == Error || Reached(hash, cfg, env, k))
    // when all goes well, it is erased
    ensures Favourable(cfg, env, flash, old(link.answers), old(link.late), old(link.sends)) ==> EraseSent in link.effects
  {
    var r;
    ghost var answers, late := link.answers, link.late;
    r, k := RunSteps(link, cfg, env, hash);
    EmptyIsConfirmed(env);
    hide FlashIsEmpty, Confirmed;
    result := if r.None? then Success else r.value;
    if HonestController(cfg, env, flash, answers) && Passes(hash, env, k) {
      CopyIsFlash(cfg, env, flash, answers, late, k);
    }
    if Favourable(cfg, env, flash, answers, late, old(link.sends)) {
      FavourablePasses(hash, cfg, env, flash, answers, late, old(link.sends), k);
    }
  }
}
