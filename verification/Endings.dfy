/** Why a copy ends: how many answers may be lost, and what each ending has behind it. The counts of the source
    are written out here. */
module Endings {
  import opened Bytes
  import opened Reader

  /** The first n receptions; a list that is used up gives failures. */
  function Receptions(answers: seq<Reception>, n: nat): (r: seq<Reception>)
    ensures |r| == n
  {
    if n == 0 then []
    else [if answers == [] then Failure else answers[0]] + Receptions(Rest(answers), n - 1)
  }

  predicate LateAt(late: seq<bool>, i: nat) {
    i < |late| && late[i]
  }

  // ---------- Lost answers ----------

  /** Up to four misses in a row cost nothing: the data that comes next is written. */
  lemma {:induction false} FourMissesAreForgiven(size: SizeRule, chunk: nat, used: nat, w: World, copied: seq<byte>,
                                                 misses: seq<Reception>, data: seq<byte>, rest: seq<Reception>, errors: nat)
    requires |misses| + errors <= 4 && Kind(w) && chunk > 0 && |copied| < used && data != []
    requires w.answers == misses + [Answer(|copied|, data)] + rest
    requires forall r <- misses :: Misses(r, |copied|)
    ensures copied + data <= Read(size, chunk, used, w, copied, errors).copied
    decreases |misses|
  {
    KindStays(w);
    if misses == [] {
      assert w.answers[0] == Answer(|copied|, data);
      RequestsAreBounded(size, chunk, used, Wrote(w), copied + data, 0);
    } else {
      assert w.answers[0] == misses[0] && misses[0] in misses;
      assert w.answers[1..] == misses[1..] + [Answer(|copied|, data)] + rest;
      FourMissesAreForgiven(size, chunk, used, Heard(w), copied, misses[1..], data, rest, errors + 1);
    }
  }

  /** The last five requests were for one address, and none of their answers was. */
  predicate FiveMisses(asked: seq<Request>, heard: seq<Reception>, at: nat) {
    && |asked| == |heard| >= 5
    && forall i :: |asked| - 5 <= i < |asked| ==> asked[i].address == at && Misses(heard[i], at)
  }

  lemma FiveMissesInSuffix(a: seq<Request>, b: seq<Request>, g: seq<Reception>, h: seq<Reception>, at: nat)
    requires |a| == |g| > 0 && |b| == |h| && a[|a| - 1].address != at
    ensures FiveMisses(a + b, g + h, at) <==> FiveMisses(b, h, at)
  {
    var n := |a|;
    assert (a + b)[n - 1] == a[n - 1];
    forall i | 0 <= i < |b|
      ensures (a + b)[n + i] == b[i] && (g + h)[n + i] == h[i]
    {
    }
    if FiveMisses(a + b, g + h, at) {
      forall i | |b| - 5 <= i < |b| && 0 <= i
        ensures b[i].address == at && Misses(h[i], at)
      {
        assert (a + b)[n + i].address == at && Misses((g + h)[n + i], at);
      }
    }
  }

  lemma Regroup<T>(a: seq<T>, x: T, b: seq<T>)
    ensures a + ([x] + b) == (a + [x]) + b
  {
  }

  // The steps of the plain reader.

  function Asked(size: SizeRule, chunk: nat, used: nat, at: nat): Request
    requires at < used
  {
    Request(at, size(chunk, used - at))
  }

  lemma MissStep(size: SizeRule, chunk: nat, used: nat, w: World, copied: seq<byte>, errors: nat)
    requires errors <= 4 && |copied| < used && !NextLate(w) && Misses(NextAnswer(w), |copied|)
    ensures Read(size, chunk, used, w, copied, errors)
         == Asking(Asked(size, chunk, used, |copied|),
                   if errors == 4 then Copy(copied, TooManyErrors, [])
                   else Read(size, chunk, used, Heard(w), copied, errors + 1))
  {
  }

  predicate Advances(chunk: nat, w: World, at: nat) {
    var r := NextAnswer(w);
    r.Answer? && r.address == at && r.data != [] && NextWrites(w) && chunk > 0
  }

  lemma DataStep(size: SizeRule, chunk: nat, used: nat, w: World, copied: seq<byte>, errors: nat)
    requires errors <= 4 && |copied| < used && !NextLate(w) && Advances(chunk, w, |copied|)
    ensures Read(size, chunk, used, w, copied, errors)
         == Asking(Asked(size, chunk, used, |copied|), Read(size, chunk, used, Wrote(w), copied + NextAnswer(w).data, 0))
  {
  }

  lemma LastStep(size: SizeRule, chunk: nat, used: nat, w: World, copied: seq<byte>, errors: nat)
    requires errors <= 4 && |copied| < used && !NextLate(w)
    requires !Misses(NextAnswer(w), |copied|) && !Advances(chunk, w, |copied|)
    ensures var c := Read(size, chunk, used, w, copied, errors);
            && c.requests == [Asked(size, chunk, used, |copied|)] && c.ending !in {TooManyErrors, Complete, Late}
            && copied <= c.copied && HasCause(chunk, used, w, c) && !Misses(NextAnswer(w), |copied|)
            && (c.copied == copied || (|c.copied| > |copied| && chunk == 0))
  {
    assert Receptions(w.answers, 1) == [NextAnswer(w)];
  }

  /** After the misses already counted, the copy gives up exactly when five answers in a row have missed the
      address at which it stops. */
  predicate Explained(c: Copy, asked: seq<Request>, heard: seq<Reception>, answers: seq<Reception>) {
    c.ending == TooManyErrors
    <==> FiveMisses(asked + c.requests, heard + Receptions(answers, |c.requests|), |c.copied|)
  }

  function Head(answers: seq<Reception>): Reception {
    if answers == [] then Failure else answers[0]
  }

  lemma ExplainedByMiss(d: Copy, q: Request, asked: seq<Request>, heard: seq<Reception>, answers: seq<Reception>)
    requires Explained(d, asked + [q], heard + [Head(answers)], Rest(answers))
    ensures Explained(Asking(q, d), asked, heard, answers)
  {
    hide FiveMisses;
    Regroup(asked, q, d.requests);
    Regroup(heard, Head(answers), Receptions(Rest(answers), |d.requests|));
  }

  lemma ExplainedByData(d: Copy, q: Request, asked: seq<Request>, heard: seq<Reception>, answers: seq<Reception>)
    requires |asked| == |heard| && q.address != |d.copied| && Explained(d, [], [], Rest(answers))
    ensures Explained(Asking(q, d), asked, heard, answers)
  {
    hide FiveMisses;
    var h := Receptions(Rest(answers), |d.requests|);
    assert [] + d.requests == d.requests && [] + h == h;
    Regroup(asked, q, d.requests);
    Regroup(heard, Head(answers), h);
    FiveMissesInSuffix(asked + [q], d.requests, heard + [Head(answers)], h, |d.copied|);
  }

  lemma ExplainedAtOnce(c: Copy, asked: seq<Request>, heard: seq<Reception>, answers: seq<Reception>)
    requires |asked| <= 4 && c.requests == [] && c.ending != TooManyErrors
    ensures Explained(c, asked, heard, answers)
  {
  }

  /** The fifth miss ends the copy. */
  lemma ExplainedByFifth(at: nat, c: Copy, q: Request, asked: seq<Request>, heard: seq<Reception>, answers: seq<Reception>)
    requires |asked| == |heard| == 4 && c.requests == [q] && |c.copied| == at && q.address == at
    requires (forall q <- asked :: q.address == at) && (forall r <- heard :: Misses(r, at))
    requires Misses(Head(answers), at) && c.ending == TooManyErrors
    ensures Explained(c, asked, heard, answers)
  {
    assert Receptions(answers, 1) == [Head(answers)];
    forall i | 0 <= i < 5
      ensures (asked + [q])[i].address == at && Misses((heard + [Head(answers)])[i], at)
    {
      assert i < 4 ==> asked[i] in asked && heard[i] in heard;
    }
  }

  lemma ExplainedByLast(c: Copy, q: Request, asked: seq<Request>, heard: seq<Reception>, answers: seq<Reception>)
    requires |asked| == |heard| && c.requests == [q] && c.ending != TooManyErrors
    requires q.address != |c.copied| || !Misses(Head(answers), |c.copied|)
    ensures Explained(c, asked, heard, answers)
  {
    assert Receptions(answers, 1) == [Head(answers)];
    assert (asked + [q])[|asked|] == q && (heard + [Head(answers)])[|asked|] == Head(answers);
  }

  lemma {:induction false} GivesUp(size: SizeRule, chunk: nat, used: nat, w: World, copied: seq<byte>,
                                   asked: seq<Request>, heard: seq<Reception>)
    requires |asked| == |heard| <= 4
    requires forall q <- asked :: q.address == |copied|
    requires forall r <- heard :: Misses(r, |copied|)
    ensures Explained(Read(size, chunk, used, w, copied, |asked|), asked, heard, w.answers)
    decreases used - |copied|, 5 - |asked|
  {
    var c := Read(size, chunk, used, w, copied, |asked|);
    if |copied| >= used || NextLate(w) {
      ExplainedAtOnce(c, asked, heard, w.answers);
    } else {
      var r, q := NextAnswer(w), Asked(size, chunk, used, |copied|);
      if Misses(r, |copied|) {
        MissStep(size, chunk, used, w, copied, |asked|);
        hide Read, Explained;
        if |asked| < 4 {
          GivesUp(size, chunk, used, Heard(w), copied, asked + [q], heard + [r]);
          ExplainedByMiss(Read(size, chunk, used, Heard(w), copied, |asked| + 1), q, asked, heard, w.answers);
        } else {
          ExplainedByFifth(|copied|, c, q, asked, heard, w.answers);
        }
      } else if Advances(chunk, w, |copied|) {
        var d := Read(size, chunk, used, Wrote(w), copied + r.data, 0);
        DataStep(size, chunk, used, w, copied, |asked|);
        RequestsAreBounded(size, chunk, used, Wrote(w), copied + r.data, 0);
        hide Read, Explained;
        GivesUp(size, chunk, used, Wrote(w), copied + r.data, [], []);
        ExplainedByData(d, q, asked, heard, w.answers);
      } else {
        LastStep(size, chunk, used, w, copied, |asked|);
        hide Read, Explained;
        ExplainedByLast(c, q, asked, heard, w.answers);
      }
    }
  }

  /** A copy gives up exactly when five answers in a row have missed the address at which it stops. */
  lemma GivesUpIff(size: SizeRule, chunk: nat, used: nat, w: World)
    ensures var c := Read(size, chunk, used, w, [], 0);
            c.ending == TooManyErrors <==> FiveMisses(c.requests, Receptions(w.answers, |c.requests|), |c.copied|)
  {
    var c := Read(size, chunk, used, w, [], 0);
    GivesUp(size, chunk, used, w, [], [], []);
    assert [] + c.requests == c.requests;
    assert [] + Receptions(w.answers, |c.requests|) == Receptions(w.answers, |c.requests|);
  }

  // ---------- Causes ----------

  /** What was seen when the copy ended: n answers were awaited. */
  predicate HasCause(chunk: nat, used: nat, w: World, c: Copy) {
    var n, at := |c.requests|, |c.copied|;
    var heard := Receptions(w.answers, n);
    match c.ending
    case Complete => at >= used
    case Late => at < used && LateAt(w.late, n)
    case TooManyErrors => n > 0 && Misses(heard[n - 1], at)
    case EndOfData => n > 0 && heard[n - 1] == Answer(at, [])
    case WriteFailed =>
      n > 0 && heard[n - 1].Answer? && heard[n - 1].address == at && heard[n - 1].data != [] && false in w.writes
    case Panicked =>
      n > 0 && (heard[n - 1].Panics? || (chunk == 0 && heard[n - 1].Answer? && heard[n - 1].address < at))
  }

  /** Every ending has its cause, and no answer is awaited after the deadline has passed. */
  lemma {:induction false} EndsForCause(size: SizeRule, chunk: nat, used: nat, w: World, copied: seq<byte>, errors: nat)
    requires errors <= 4
    ensures var c := Read(size, chunk, used, w, copied, errors);
            HasCause(chunk, used, w, c) && forall i: nat :: LateAt(w.late, i) ==> |c.requests| <= i
    decreases used - |copied|, 5 - errors
  {
    var c := Read(size, chunk, used, w, copied, errors);
    if |copied| < used && !NextLate(w) {
      assert Receptions(w.answers, 1) == [NextAnswer(w)];
      if Misses(NextAnswer(w), |copied|) {
        MissStep(size, chunk, used, w, copied, errors);
        hide Read;
        if errors < 4 {
          EndsForCause(size, chunk, used, Heard(w), copied, errors + 1);
          LaterCause(chunk, used, w, Heard(w), Read(size, chunk, used, Heard(w), copied, errors + 1), c);
        }
      } else if Advances(chunk, w, |copied|) {
        DataStep(size, chunk, used, w, copied, errors);
        hide Read;
        EndsForCause(size, chunk, used, Wrote(w), copied + NextAnswer(w).data, 0);
        LaterCause(chunk, used, w, Wrote(w), Read(size, chunk, used, Wrote(w), copied + NextAnswer(w).data, 0), c);
      } else {
        LastStep(size, chunk, used, w, copied, errors);
      }
    }
  }

  /** The cause in the rest of the world is one in the world. */
  lemma LaterCause(chunk: nat, used: nat, w: World, v: World, d: Copy, c: Copy)
    requires v.answers == Rest(w.answers) && v.late == Rest(w.late) && (v.writes == w.writes || v.writes == Rest(w.writes))
    requires |c.requests| == |d.requests| + 1 && c.copied == d.copied && c.ending == d.ending
    requires HasCause(chunk, used, v, d) && forall i: nat :: LateAt(v.late, i) ==> |d.requests| <= i
    requires !LateAt(w.late, 0)
    ensures HasCause(chunk, used, w, c) && forall i: nat :: LateAt(w.late, i) ==> |c.requests| <= i
  {
    var n := |c.requests|;
    assert n > 1 ==> Receptions(w.answers, n)[n - 1] == Receptions(v.answers, n - 1)[n - 2];
    forall i: nat | LateAt(w.late, i)
      ensures n <= i
    {
      assert LateAt(v.late, i - 1);
    }
  }

  // ---------- Step by step ----------

  /** The answer to a request, and the address at which the copy is afterwards. */
  predicate Follows(q: Request, r: Reception, next: nat) {
    if r.Answer? && r.address == q.address then r.data != [] && next == q.address + |r.data|
    else !r.Panics? && next == q.address
  }

  /** Where the copy is after request i. */
  function Next(asked: seq<Request>, i: nat, last: nat): nat {
    if i + 1 < |asked| then asked[i + 1].address else last
  }

  predicate AllFollow(asked: seq<Request>, heard: seq<Reception>, last: nat)
    requires |asked| == |heard|
  {
    forall i :: 0 <= i < |asked| ==> Follows(asked[i], heard[i], Next(asked, i, last))
  }

  lemma AllFollowLonger(q: Request, asked: seq<Request>, r: Reception, heard: seq<Reception>, next: nat, last: nat)
    requires |asked| == |heard| && AllFollow(asked, heard, last) && Follows(q, r, next)
    requires next == if asked == [] then last else asked[0].address
    ensures AllFollow([q] + asked, [r] + heard, last)
  {
    hide Follows;
    var a, h := [q] + asked, [r] + heard;
    forall i | 0 <= i < |a|
      ensures Follows(a[i], h[i], Next(a, i, last))
    {
      assert i > 0 ==> Follows(asked[i - 1], heard[i - 1], Next(asked, i - 1, last));
    }
  }

  /** What has been asked and heard up to the point where the copy is whole or late, or up to the last answer. */
  function Settled(c: Copy): nat {
    if c.ending == Complete || c.ending == Late || c.requests == [] then |c.requests| else |c.requests| - 1
  }

  function SettledAt(c: Copy): nat {
    if Settled(c) < |c.requests| then c.requests[Settled(c)].address else |c.copied|
  }

  predicate StartsAt(c: Copy, at: nat) {
    if c.requests == [] then c.ending in {Complete, Late} && |c.copied| == at else c.requests[0].address == at
  }

  /** With chunks of no size the first data is written and then divided by zero. */
  predicate Steady(chunk: nat, c: Copy, answers: seq<Reception>) {
    var n := Settled(c);
    && AllFollow(c.requests[..n], Receptions(answers, n), SettledAt(c))
    && (n < |c.requests| && chunk > 0 ==> SettledAt(c) == |c.copied|)
  }

  lemma SteadyAtFirst(chunk: nat, c: Copy, answers: seq<Reception>)
    requires Settled(c) == 0 && (c.requests != [] && chunk > 0 ==> c.requests[0].address == |c.copied|)
    ensures Steady(chunk, c, answers)
  {
  }

  lemma SteadyLonger(chunk: nat, q: Request, d: Copy, answers: seq<Reception>, next: nat)
    requires Steady(chunk, d, Rest(answers)) && StartsAt(d, next) && Follows(q, Head(answers), next)
    ensures Steady(chunk, Asking(q, d), answers)
  {
    hide AllFollow, Follows;
    var n, c := Settled(d), Asking(q, d);
    AllFollowLonger(q, d.requests[..n], Head(answers), Receptions(Rest(answers), n), next, SettledAt(d));
    assert Settled(c) == n + 1 && c.requests[..n + 1] == [q] + d.requests[..n];
  }

  /** Each answer for the address asked brings data, and the next request is for the byte behind it; after
      another answer the same byte is asked for again. Only the last answer may end the copy. */
  lemma {:induction false} StepsFollow(size: SizeRule, chunk: nat, used: nat, w: World, copied: seq<byte>, errors: nat)
    requires errors <= 4
    ensures var c := Read(size, chunk, used, w, copied, errors);
            Steady(chunk, c, w.answers) && StartsAt(c, |copied|)
    decreases used - |copied|, 5 - errors
  {
    var c := Read(size, chunk, used, w, copied, errors);
    hide Steady;
    if |copied| >= used || NextLate(w) {
      SteadyAtFirst(chunk, c, w.answers);
    } else {
      var r, q := NextAnswer(w), Asked(size, chunk, used, |copied|);
      if Misses(r, |copied|) {
        MissStep(size, chunk, used, w, copied, errors);
        hide Read;
        if errors < 4 {
          StepsFollow(size, chunk, used, Heard(w), copied, errors + 1);
          SteadyLonger(chunk, q, Read(size, chunk, used, Heard(w), copied, errors + 1), w.answers, |copied|);
        } else {
          SteadyAtFirst(chunk, c, w.answers);
        }
      } else if Advances(chunk, w, |copied|) {
        DataStep(size, chunk, used, w, copied, errors);
        hide Read;
        StepsFollow(size, chunk, used, Wrote(w), copied + r.data, 0);
        SteadyLonger(chunk, q, Read(size, chunk, used, Wrote(w), copied + r.data, 0), w.answers, |copied + r.data|);
      } else {
        LastStep(size, chunk, used, w, copied, errors);
        hide Read;
        SteadyAtFirst(chunk, c, w.answers);
      }
    }
  }
}
