/** The LED controller (internal/led/controller.go): callers of SetState, the pattern goroutine, and the
    mutex and channels between them, one atomic step at a time in any order. */
module Led {

  datatype LedState = Off | Booting | Ready | Busy | Done | Error

  /** A pattern by its number of steps; each step is on for a while, then off for a while. */
  datatype Pattern = Pattern(steps: nat, repeat: bool)

  function PatternOf(st: LedState): Pattern {
    match st
    case Off => Pattern(0, false)
    case Booting => Pattern(1, true)
    case Ready => Pattern(0, true)
    case Busy => Pattern(1, true)
    case Done => Pattern(6, false)
    case Error => Pattern(10, true)
  }

  datatype Holder = Free | Runner | Other | Setting(target: LedState) | Written | Sent

  /** Where the goroutine is. Step, Sleep, PutBack and Check are about the on or off half of step k. */
  datatype Place =
    | Top | Locked | HasRead
    | SteadySet | Wait
    | Step(k: nat, on: bool) | Sleep(k: nat, on: bool) | PutBack(k: nat, on: bool) | Check(k: nat, on: bool)
    | FinishSet | FinishIdle
    | Exited

  datatype Stopper = NotStopping | Flagged | Closed | Finished

  /** token, idle and stop are the channels; st is the goroutine's copy of the state; lit is what the
      backend was last told. */
  datatype System = System(mutex: Holder, state: LedState, token: bool, idle: bool, stopper: Stopper,
                           place: Place, st: LedState, lit: bool)

  datatype Action =
    | SetterLocks(target: LedState) | SetterWrites | SetterSends | SetterUnlocks
    | OtherLocks | OtherUnlocks | IdleTaken
    | StopFlags | StopCloses | StopFinishes
    | Locks | Reads | Unlocks | Sets | TimesOut | TakesToken | PutsBack | FindsNone | SignalsIdle | SeesStop

  predicate IsGoroutine(a: Action) {
    a in {Locks, Reads, Unlocks, Sets, TimesOut, TakesToken, PutsBack, FindsNone, SignalsIdle, SeesStop}
  }

  predicate IsStart(s: System) {
    s.mutex == Free && s.state == Off && !s.token && !s.idle && s.stopper == NotStopping && s.place == Top
  }

  predicate StopIsClosed(s: System) {
    s.stopper == Closed || s.stopper == Finished
  }

  predicate Enabled(s: System, a: Action) {
    match a
    case SetterLocks(_) => s.mutex == Free
    case SetterWrites => s.mutex.Setting?
    case SetterSends => s.mutex == Written
    case SetterUnlocks => s.mutex == Sent
    case OtherLocks => s.mutex == Free
    case OtherUnlocks => s.mutex == Other
    case IdleTaken => s.idle
    case StopFlags => s.mutex == Free && s.stopper == NotStopping
    case StopCloses => s.stopper == Flagged
    case StopFinishes => s.stopper == Closed && s.place == Exited
    case Locks => s.place == Top && s.mutex == Free
    case Reads => s.place == Locked
    case Unlocks => s.place == HasRead
    case Sets => s.place == SteadySet || s.place.Step? || s.place == FinishSet
    case TimesOut => s.place.Sleep?
    case TakesToken => s.token && (s.place.Sleep? || s.place.Check? || s.place == Wait)
    case PutsBack => s.place.PutBack?
    case FindsNone => s.place.Check? && !s.token
    case SignalsIdle => s.place == FinishIdle
    case SeesStop => StopIsClosed(s) && (s.place.Sleep? || s.place == Wait)
  }

  function Next(s: System, a: Action): System
    requires Enabled(s, a)
  {
    match a
    case SetterLocks(target) => s.(mutex := Setting(target))
    case SetterWrites => s.(mutex := Written, state := s.mutex.target)
    case SetterSends => s.(mutex := Sent, token := true)
    case SetterUnlocks => s.(mutex := Free)
    case OtherLocks => s.(mutex := Other)
    case OtherUnlocks => s.(mutex := Free)
    case IdleTaken => s.(idle := false)
    case StopFlags => s.(stopper := Flagged)
    case StopCloses => s.(stopper := Closed)
    case StopFinishes => s.(stopper := Finished, lit := false)
    case Locks => s.(mutex := Runner, place := Locked)
    case Reads => s.(st := s.state, place := HasRead)
    case Unlocks => s.(mutex := Free, place := if PatternOf(s.st).steps == 0 then SteadySet else Step(0, true))
    case Sets => NextOnSet(s)
    case TimesOut => s.(place := Check(s.place.k, s.place.on))
    case TakesToken => s.(token := false, place := if s.place.Sleep? then PutBack(s.place.k, s.place.on) else Top)
    case PutsBack => s.(token := true, place := Check(s.place.k, s.place.on))
    case FindsNone => s.(place := NextHalf(s.st, s.place.k, s.place.on))
    case SignalsIdle => s.(idle := true, place := Wait)
    case SeesStop => s.(place := Exited)
  }

  function NextOnSet(s: System): System
    requires Enabled(s, Sets)
  {
    match s.place
    case SteadySet => s.(lit := PatternOf(s.st).repeat, place := Wait)
    case FinishSet => s.(lit := false, place := FinishIdle)
    case _ => s.(lit := s.place.on, place := Sleep(s.place.k, s.place.on))
  }

  /** What follows half a step that no change interrupted. */
  function NextHalf(st: LedState, k: nat, on: bool): Place {
    if on then Step(k, false)
    else if k + 1 < PatternOf(st).steps then Step(k + 1, true)
    else if PatternOf(st).repeat then Top
    else FinishSet
  }

  // ---------- Runs ----------

  predicate Possible(s: System, run: seq<Action>)
    decreases run
  {
    run == [] || (Enabled(s, run[0]) && Possible(Next(s, run[0]), run[1..]))
  }

  function End(s: System, run: seq<Action>): System
    requires Possible(s, run)
    decreases run
  {
    if run == [] then s else End(Next(s, run[0]), run[1..])
  }

  lemma {:induction false} RunInTwo(s: System, a: seq<Action>, b: seq<Action>)
    requires Possible(s, a + b)
    ensures Possible(s, a) && Possible(End(s, a), b) && End(s, a + b) == End(End(s, a), b)
    decreases a
  {
    if a == [] {
      assert a + b == b;
    } else {
      assert (a + b)[1..] == a[1..] + b;
      RunInTwo(Next(s, a[0]), a[1..], b);
    }
  }

  // ---------- What every step keeps ----------

  /** A change is signalled, or the goroutine will read the state anyway. */
  predicate Signalled(s: System) {
    s.token || s.place == Top || s.place == Locked || s.place.PutBack?
  }

  predicate NothingLost(s: System) {
    s.st == s.state || s.mutex == Written || Signalled(s) || s.place == Exited
  }

  /** The mutex protects what the goroutine reads. */
  predicate Exclusive(s: System) {
    && (s.mutex == Runner <==> s.place == Locked || s.place == HasRead)
    && (s.place == HasRead ==> s.st == s.state)
  }

  predicate InStep(p: Place) {
    p.Step? || p.Sleep? || p.PutBack? || p.Check?
  }

  /** The goroutine stays within the pattern. */
  predicate WithinPattern(s: System) {
    && (InStep(s.place) ==> s.place.k < PatternOf(s.st).steps)
    && (s.place == SteadySet ==> PatternOf(s.st).steps == 0)
    && (s.place == FinishSet || s.place == FinishIdle ==> PatternOf(s.st).steps > 0 && !PatternOf(s.st).repeat)
    && (s.place == Wait ==> PatternOf(s.st).steps == 0 || !PatternOf(s.st).repeat)
  }

  /** What is lit, and that it stays off after Stop. */
  predicate ShowsPlace(s: System) {
    && (s.place == FinishIdle ==> !s.lit)
    && (s.place == Wait ==> s.lit == (s.st == Ready))
    && (InStep(s.place) && !s.place.Step? ==> s.lit == s.place.on)
    && (s.place == Exited ==> StopIsClosed(s))
    && (s.stopper == Finished ==> s.place == Exited && !s.lit)
  }

  predicate Consistent(s: System) {
    NothingLost(s) && Exclusive(s) && WithinPattern(s) && ShowsPlace(s)
  }

  lemma StepLosesNothing(s: System, a: Action)
    requires NothingLost(s) && Exclusive(s) && Enabled(s, a)
    ensures NothingLost(Next(s, a)) && Exclusive(Next(s, a))
  {
  }

  lemma StepStaysWithin(s: System, a: Action)
    requires Exclusive(s) && WithinPattern(s) && Enabled(s, a)
    ensures WithinPattern(Next(s, a))
  {
  }

  lemma OthersShowPlace(s: System, a: Action)
    requires ShowsPlace(s) && Enabled(s, a) && !IsGoroutine(a)
    ensures ShowsPlace(Next(s, a))
  {
  }

  lemma GoroutineShowsPlace(s: System, a: Action)
    requires WithinPattern(s) && ShowsPlace(s) && Enabled(s, a) && IsGoroutine(a)
    ensures ShowsPlace(Next(s, a))
  {
  }

  lemma StepKeepsConsistent(s: System, a: Action)
    requires Consistent(s) && Enabled(s, a)
    ensures Consistent(Next(s, a))
  {
    hide NothingLost, Exclusive, WithinPattern, ShowsPlace, Next;
    StepLosesNothing(s, a);
    StepStaysWithin(s, a);
    if IsGoroutine(a) {
      GoroutineShowsPlace(s, a);
    } else {
      OthersShowPlace(s, a);
    }
  }

  lemma {:induction false} RunKeepsConsistent(s: System, run: seq<Action>)
    requires Consistent(s) && Possible(s, run)
    ensures Consistent(End(s, run))
    decreases run
  {
    hide Consistent, Next, Enabled;
    if run != [] {
      StepKeepsConsistent(s, run[0]);
      RunKeepsConsistent(Next(s, run[0]), run[1..]);
    }
  }

  /** In every interleaving, a running pattern that is not the current state's is about to be replaced: the
      change is still being announced, or announced and not yet seen, or on its way to be read. */
  lemma NoLostChange(s: System, run: seq<Action>)
    requires IsStart(s) && Possible(s, run)
    ensures var e := End(s, run);
            e.st != e.state ==>
              e.mutex == Written || e.token || e.place == Top || e.place == Locked || e.place.PutBack? || e.place == Exited
  {
    RunKeepsConsistent(s, run);
  }

  /** When nobody is in SetState and the goroutine waits unsignalled, the LED shows the current state: on for
      Ready, off for Off and for a pattern that is over. */
  lemma WaitingShowsState(s: System, run: seq<Action>)
    requires IsStart(s) && Possible(s, run)
    requires var e := End(s, run); e.mutex != Written && !e.token && e.place == Wait
    ensures var e := End(s, run);
            e.st == e.state && e.lit == (e.state == Ready) && e.state in {Off, Ready, Done}
  {
    RunKeepsConsistent(s, run);
  }

  /** After Stop, the LED is off and stays off. */
  lemma {:induction false} StoppedStaysOff(s: System, run: seq<Action>)
    requires Consistent(s) && s.stopper == Finished && Possible(s, run)
    ensures !End(s, run).lit && Sets !in run
    decreases run
  {
    if run != [] {
      StepKeepsConsistent(s, run[0]);
      StoppedStaysOff(Next(s, run[0]), run[1..]);
    }
  }

  // ---------- What a pattern looks like ----------

  /** The values given to the backend. */
  function Shown(s: System, run: seq<Action>): seq<bool>
    requires Possible(s, run)
    decreases run
  {
    if run == [] then []
    else (if run[0] == Sets then [Next(s, run[0]).lit] else []) + Shown(Next(s, run[0]), run[1..])
  }

  /** n times on, then off. */
  function Blinks(n: nat): seq<bool> {
    if n == 0 then [] else [true, false] + Blinks(n - 1)
  }

  /** The goroutine runs to the end of the pattern: no change or stop interrupts it, and it gets to where it
      reads the state again, or is done, only at the end of the run. */
  predicate Uninterrupted(s: System, run: seq<Action>)
    requires Possible(s, run)
    decreases run
  {
    if run == [] then s.place == Top || s.place == FinishSet
    else
      && s.place != Top && s.place != FinishSet && run[0] != TakesToken && run[0] != SeesStop
      && Uninterrupted(Next(s, run[0]), run[1..])
  }

  /** How many halves of steps are still to be shown of a pattern of n steps. */
  function Halves(p: Place, n: int): int {
    if p == HasRead then 2 * n
    else if p.Step? then 2 * (n - p.k) - (if p.on then 0 else 1)
    else if InStep(p) then 2 * (n - p.k) - (if p.on then 1 else 2)
    else 0
  }

  /** The last h halves: on before an even number of further ones, off before an odd number. */
  function LastHalves(h: nat): seq<bool> {
    if h == 0 then [] else [h % 2 == 0] + LastHalves(h - 1)
  }

  lemma {:induction false} BlinksAreHalves(n: nat)
    ensures LastHalves(2 * n) == Blinks(n)
  {
    if n > 0 {
      BlinksAreHalves(n - 1);
      var m := 2 * (n - 1);
      assert LastHalves(m + 2) == [true] + ([false] + LastHalves(m));
    }
  }

  lemma OthersStay(s: System, a: Action)
    requires Enabled(s, a) && !IsGoroutine(a)
    ensures Next(s, a).place == s.place && Next(s, a).st == s.st
  {
  }

  lemma OwnStepShows(s: System, a: Action, n: nat)
    requires WithinPattern(s) && Enabled(s, a) && IsGoroutine(a) && a != TakesToken && a != SeesStop
    requires n == PatternOf(s.st).steps > 0 && (s.place == HasRead || InStep(s.place))
    ensures var h, h1 := Halves(s.place, n), Halves(Next(s, a).place, n);
            h1 >= 0 && (if a == Sets then h == h1 + 1 && Next(s, a).lit == (h % 2 == 0) else h == h1)
  {
  }

  lemma ShownStep(s: System, a: Action, n: nat)
    requires WithinPattern(s) && Enabled(s, a) && a != TakesToken && a != SeesStop
    requires n == PatternOf(s.st).steps > 0 && (s.place == HasRead || InStep(s.place))
    ensures var h, h1 := Halves(s.place, n), Halves(Next(s, a).place, n);
            h1 >= 0 && (if a == Sets then h == h1 + 1 && Next(s, a).lit == (h % 2 == 0) else h == h1)
  {
    hide Next, Enabled, PatternOf;
    if IsGoroutine(a) {
      OwnStepShows(s, a, n);
    } else {
      OthersStay(s, a);
    }
  }

  lemma StaysInPattern(s: System, a: Action)
    requires Exclusive(s) && WithinPattern(s) && Enabled(s, a) && a != TakesToken && a != SeesStop
    requires PatternOf(s.st).steps > 0 && (s.place == HasRead || InStep(s.place))
    ensures Next(s, a).st == s.st
    ensures InStep(Next(s, a).place) || Next(s, a).place == HasRead
         || Next(s, a).place == if PatternOf(s.st).repeat then Top else FinishSet
  {
  }

  /** Within a pattern of n steps, or at its end. */
  predicate OnTheWay(s: System, n: nat) {
    && Consistent(s) && n == PatternOf(s.st).steps > 0
    && (s.place == HasRead || InStep(s.place) || s.place == Top || s.place == FinishSet)
  }

  lemma WayStep(s: System, a: Action, n: nat)
    requires OnTheWay(s, n) && s.place != Top && s.place != FinishSet
    requires Enabled(s, a) && a != TakesToken && a != SeesStop
    ensures OnTheWay(Next(s, a), n)
    ensures var h, h1 := Halves(s.place, n), Halves(Next(s, a).place, n);
            h1 >= 0 && (if a == Sets then h == h1 + 1 && Next(s, a).lit == (h % 2 == 0) else h == h1)
  {
    ShownStep(s, a, n);
    StaysInPattern(s, a);
    StepKeepsConsistent(s, a);
    hide Consistent, Next, Halves, Enabled;
  }

  lemma {:induction false} HalvesAreShown(s: System, run: seq<Action>, n: nat)
    requires OnTheWay(s, n) && Possible(s, run) && Uninterrupted(s, run)
    ensures Halves(s.place, n) >= 0 && Shown(s, run) == LastHalves(Halves(s.place, n))
    decreases run
  {
    hide OnTheWay, Next, Enabled;
    if run != [] {
      WayStep(s, run[0], n);
      hide Halves;
      HalvesAreShown(Next(s, run[0]), run[1..], n);
      var rest := Shown(Next(s, run[0]), run[1..]);
      assert [] + rest == rest;
    }
  }

  /** A pattern that is not interrupted is shown in full: Booting and Busy blink once, Done six times and Error
      ten times, each time on and then off, whatever others do meanwhile. */
  lemma PatternIsShown(s: System, run: seq<Action>)
    requires Consistent(s) && s.place == HasRead && s.state in {Booting, Busy, Done, Error}
    requires Possible(s, run) && Uninterrupted(s, run)
    ensures Shown(s, run) == Blinks(if s.state == Done then 6 else if s.state == Error then 10 else 1)
    ensures End(s, run).place == if s.state == Done then FinishSet else Top
  {
    HalvesAreShown(s, run, PatternOf(s.st).steps);
    BlinksAreHalves(PatternOf(s.st).steps);
    EndOfPattern(s, run);
  }

  /** A repeating pattern starts over, another one finishes. */
  lemma {:induction false} EndOfPattern(s: System, run: seq<Action>)
    requires Consistent(s) && Possible(s, run) && Uninterrupted(s, run) && PatternOf(s.st).steps > 0
    requires s.place == HasRead || InStep(s.place)
          || s.place == if PatternOf(s.st).repeat then Top else FinishSet
    ensures End(s, run).place == if PatternOf(s.st).repeat then Top else FinishSet
    decreases run
  {
    if run != [] {
      StaysInPattern(s, run[0]);
      StepKeepsConsistent(s, run[0]);
      EndOfPattern(Next(s, run[0]), run[1..]);
    }
  }

  /** Off and Ready are shown steadily: the goroutine sets the LED once and waits. */
  lemma SteadyIsShown(s: System, before: seq<Action>, between: seq<Action>)
    requires Consistent(s) && s.place == HasRead && s.state in {Off, Ready}
    requires (forall a <- before :: !IsGoroutine(a)) && (forall a <- between :: !IsGoroutine(a))
    requires Possible(s, before + [Unlocks] + between + [Sets])
    ensures var run := before + [Unlocks] + between + [Sets];
            End(s, run).place == Wait && End(s, run).lit == (s.state == Ready)
  {
    var run := before + [Unlocks] + between + [Sets];
    RunInTwo(s, before + [Unlocks] + between, [Sets]);
    RunInTwo(s, before + [Unlocks], between);
    RunInTwo(s, before, [Unlocks]);
    OthersLeaveIt(s, before);
    OthersLeaveIt(End(s, before + [Unlocks]), between);
    assert End(End(s, before), [Unlocks]) == Next(End(s, before), Unlocks);
    var e := End(s, before + [Unlocks] + between);
    assert End(e, [Sets]) == Next(e, Sets);
  }

  /** A pattern that is over leaves the LED off, and then signals that the goroutine is idle. */
  lemma FinishSignalsIdle(s: System, between: seq<Action>)
    requires Consistent(s) && s.place == FinishSet && (forall a <- between :: !IsGoroutine(a))
    requires Possible(s, [Sets] + between + [SignalsIdle])
    ensures var e := End(s, [Sets] + between + [SignalsIdle]); e.idle && !e.lit && e.place == Wait
  {
    RunInTwo(s, [Sets] + between, [SignalsIdle]);
    RunInTwo(s, [Sets], between);
    assert End(s, [Sets]) == Next(s, Sets);
    OthersLeaveIt(Next(s, Sets), between);
    RunKeepsConsistent(s, [Sets] + between + [SignalsIdle]);
    var e := End(s, [Sets] + between);
    assert End(e, [SignalsIdle]) == Next(e, SignalsIdle);
    assert Next(e, SignalsIdle).st == s.st;
  }

  lemma {:induction false} OthersLeaveIt(s: System, run: seq<Action>)
    requires Possible(s, run) && forall a <- run :: !IsGoroutine(a)
    ensures End(s, run).place == s.place && End(s, run).st == s.st
    decreases run
  {
    if run != [] {
      assert !IsGoroutine(run[0]);
      OthersLeaveIt(Next(s, run[0]), run[1..]);
    }
  }

  // ---------- After the last SetState ----------

  /** Calls of backend.Set before the goroutine reads the state. */
  function StaleSets(run: seq<Action>): nat {
    if run == [] || run[0] == Reads then 0
    else (if run[0] == Sets then 1 else 0) + StaleSets(run[1..])
  }

  /** How many of them are still possible once the change is signalled. */
  function Budget(s: System): nat {
    if s.place == SteadySet || s.place.Step? || s.place == FinishSet then 1 else 0
  }

  /** A change is signalled and not read yet. */
  predicate Unread(s: System) {
    Signalled(s) && s.place != HasRead
  }

  /** No step of anyone makes the goroutine forget a signalled change before it reads the state or exits. */
  lemma SignalIsKept(s: System, a: Action)
    requires Unread(s) && Enabled(s, a) && a != Reads
    ensures Unread(Next(s, a)) || Next(s, a).place == Exited
    ensures (if a == Sets then 1 else 0) + Budget(Next(s, a)) <= Budget(s)
  {
  }

  lemma {:induction false} BudgetSuffices(s: System, run: seq<Action>)
    requires Possible(s, run) && (Unread(s) || s.place == Exited)
    ensures StaleSets(run) <= Budget(s)
    decreases run
  {
    if run != [] && run[0] != Reads {
      if s.place != Exited {
        SignalIsKept(s, run[0]);
      }
      BudgetSuffices(Next(s, run[0]), run[1..]);
    }
  }

  /** After SetState has sent its signal, at most one more call of backend.Set shows the old state. */
  lemma AtMostOneStaleSet(s: System, before: seq<Action>, after: seq<Action>)
    requires IsStart(s) && Possible(s, before + [SetterSends] + after)
    ensures StaleSets(after) <= 1
  {
    SentIsUnread(s, before, after);
    BudgetSuffices(End(s, before + [SetterSends]), after);
  }

  lemma SentIsUnread(s: System, before: seq<Action>, after: seq<Action>)
    requires IsStart(s) && Possible(s, before + [SetterSends] + after)
    ensures Possible(s, before + [SetterSends])
    ensures var e := End(s, before + [SetterSends]); Unread(e) && Possible(e, after)
  {
    RunInTwo(s, before + [SetterSends], after);
    RunInTwo(s, before, [SetterSends]);
    RunKeepsConsistent(s, before);
    assert End(End(s, before), [SetterSends]) == Next(End(s, before), SetterSends);
  }

  /** Steps of the goroutine before it reads the state. */
  function OwnSteps(run: seq<Action>): nat {
    if run == [] || run[0] == Reads then 0
    else (if IsGoroutine(run[0]) then 1 else 0) + OwnSteps(run[1..])
  }

  /** A bound on these once a change is signalled. */
  function Distance(s: System): nat {
    match s.place
    case Locked => 0
    case Top => 1
    case Wait => 2
    case Check(_, _) => 2
    case FinishIdle => 3
    case PutBack(_, _) => 3
    case SteadySet => 3
    case FinishSet => 4
    case Sleep(_, _) => 4
    case Step(_, _) => 5
    case HasRead => 6
    case Exited => 0
  }

  lemma StepsAreCounted(s: System, a: Action)
    requires Unread(s) && Enabled(s, a) && a != Reads
    ensures Distance(Next(s, a)) <= Distance(s) - if IsGoroutine(a) then 1 else 0
  {
  }

  lemma {:induction false} DistanceSuffices(s: System, run: seq<Action>)
    requires Possible(s, run) && (Unread(s) || s.place == Exited)
    ensures OwnSteps(run) <= Distance(s)
    decreases run
  {
    if run != [] && run[0] != Reads {
      if s.place != Exited {
        SignalIsKept(s, run[0]);
        StepsAreCounted(s, run[0]);
      }
      DistanceSuffices(Next(s, run[0]), run[1..]);
    }
  }

  /** After SetState has sent its signal, the goroutine reads the state, or exits, within five further steps
      of its own; with NeverStuck it cannot be kept from taking them. */
  lemma ReadsWithinFiveSteps(s: System, before: seq<Action>, after: seq<Action>)
    requires IsStart(s) && Possible(s, before + [SetterSends] + after)
    ensures OwnSteps(after) <= 5
  {
    SentIsUnread(s, before, after);
    DistanceSuffices(End(s, before + [SetterSends]), after);
  }

  /** The goroutine can always take a step of its own, or else whoever holds the mutex can. */
  lemma NeverStuck(s: System) returns (a: Action)
    requires Consistent(s) && Unread(s) && s.place != Exited
    ensures Enabled(s, a)
    ensures IsGoroutine(a) || (s.place == Top && a in {SetterWrites, SetterSends, SetterUnlocks, OtherUnlocks})
  {
    match s.place
    case Top =>
      a := match s.mutex
        case Setting(_) => SetterWrites
        case Written => SetterSends
        case Sent => SetterUnlocks
        case Other => OtherUnlocks
        case _ => Locks;
    case Locked => a := Reads;
    case Sleep(_, _) => a := TimesOut;
    case PutBack(_, _) => a := PutsBack;
    case FinishIdle => a := SignalsIdle;
    case Wait => a := TakesToken;
    case Check(_, _) => a := TakesToken;
    case _ => a := Sets;
  }

  /** Once read, and with no further SetState, the pattern that runs stays the current state's. */
  lemma {:induction false} CurrentStays(s: System, run: seq<Action>)
    requires Possible(s, run) && s.st == s.state && SetterWrites !in run
    ensures End(s, run).st == End(s, run).state == s.state
    decreases run
  {
    if run != [] {
      CurrentStays(Next(s, run[0]), run[1..]);
    }
  }
}
