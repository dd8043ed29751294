/** Making room by deleting the oldest sessions (internal/storage/manifest.go, CleanupOldestSessions). */
module Cleanup {
  import opened Bytes

  datatype Candidate = Candidate(fcDir: string, name: string)

  /** An entry of the storage root: a file, or the directory of a flight controller with its own entries, each
      marked whether it is a directory; none if it cannot be read. */
  datatype RootEntry = PlainFile | FcDir(name: string, entries: Option<seq<(string, bool)>>)

  // ---------- Order of age ----------

  /** Session directories are named by their time, so the lexicographic order is the order of age. */
  predicate Older(a: string, b: string) {
    b != [] && (a == [] || a[0] < b[0] || (a[0] == b[0] && Older(a[1..], b[1..])))
  }

  /** Of two different names one is older, and not the other. */
  lemma {:induction false} OneIsOlder(a: string, b: string)
    ensures a != b ==> (Older(a, b) <==> !Older(b, a))
    ensures a == b ==> !Older(a, b)
  {
    if a != [] && b != [] && a[0] == b[0] {
      OneIsOlder(a[1..], b[1..]);
      assert a == [a[0]] + a[1..] && b == [b[0]] + b[1..];
    }
  }

  /** The names agree before position i, where the first ends or has the smaller character. */
  predicate FirstDifference(a: string, b: string, i: nat) {
    && i <= |a| && i < |b| && (forall k :: 0 <= k < i ==> a[k] == b[k])
    && (i == |a| || a[i] < b[i])
  }

  lemma DifferenceBehind(a: string, b: string, i: nat)
    requires a != [] && b != [] && a[0] == b[0]
    ensures FirstDifference(a[1..], b[1..], i) <==> FirstDifference(a, b, i + 1)
  {
    if FirstDifference(a, b, i + 1) {
      forall k | 0 <= k < i
        ensures a[1..][k] == b[1..][k]
      {
        assert a[k + 1] == b[k + 1];
      }
    }
    if FirstDifference(a[1..], b[1..], i) {
      forall k | 0 <= k < i + 1
        ensures a[k] == b[k]
      {
        assert k > 0 ==> a[1..][k - 1] == b[1..][k - 1];
      }
    }
  }

  /** A name is older exactly if it is a proper prefix, or has the smaller character at the first difference. */
  lemma {:induction false} OlderIff(a: string, b: string)
    ensures Older(a, b) <==> exists i: nat :: FirstDifference(a, b, i)
  {
    if a != [] && b != [] && a[0] == b[0] {
      OlderIff(a[1..], b[1..]);
      if Older(a, b) {
        var i: nat :| FirstDifference(a[1..], b[1..], i);
        DifferenceBehind(a, b, i);
      }
      if i: nat :| FirstDifference(a, b, i) {
        DifferenceBehind(a, b, i - 1);
      }
    } else if Older(a, b) {
      assert FirstDifference(a, b, 0);
    }
  }

  // Session names are times, such as 2026-01-02_030405.

  predicate IsDigit(c: char) { '0' <= c <= '9' }

  /** Names of one layout have digits at the same places, and the same characters elsewhere. */
  predicate SameLayout(a: string, b: string) {
    && |a| == |b|
    && forall i :: 0 <= i < |a| ==> if IsDigit(a[i]) then IsDigit(b[i]) else a[i] == b[i]
  }

  /** Ten to the number of digits. */
  function Span(s: string): (n: nat)
    ensures n > 0
  {
    if s == [] then 1 else if IsDigit(s[0]) then 10 * Span(s[1..]) else Span(s[1..])
  }

  function Product(d: nat, n: nat): nat { d * n }

  /** The number that the digits of a name spell. */
  function Time(s: string): nat {
    if s == [] then 0
    else (if IsDigit(s[0]) then Product(s[0] as int - '0' as int, Span(s[1..])) else 0) + Time(s[1..])
  }

  lemma NextProduct(d: nat, n: nat)
    ensures Product(d + 1, n) == Product(d, n) + n
  {
  }

  lemma {:induction false} SmallerDigit(d: nat, e: nat, n: nat)
    requires d < e
    ensures Product(d, n) + n <= Product(e, n)
  {
    hide Product;
    NextProduct(e - 1, n);
    if d < e - 1 {
      SmallerDigit(d, e - 1, n);
    }
  }

  lemma TenTimes(n: nat)
    ensures Product(10, n) == 10 * n
  {
  }

  lemma {:induction false} TimeBound(s: string)
    ensures Time(s) < Span(s)
  {
    hide Product;
    if s != [] {
      TimeBound(s[1..]);
      if IsDigit(s[0]) {
        SmallerDigit(s[0] as int - '0' as int, 10, Span(s[1..]));
        TenTimes(Span(s[1..]));
      }
    }
  }

  lemma {:induction false} SameSpan(a: string, b: string)
    requires SameLayout(a, b)
    ensures Span(a) == Span(b)
  {
    if a != [] {
      SameSpan(a[1..], b[1..]);
    }
  }

  /** Among names of one layout the older one has the smaller time. */
  lemma {:induction false} OlderIsEarlier(a: string, b: string)
    requires SameLayout(a, b)
    ensures Older(a, b) <==> Time(a) < Time(b)
  {
    hide Product;
    if a != [] {
      OlderIsEarlier(a[1..], b[1..]);
      SameSpan(a[1..], b[1..]);
      TimeBound(a[1..]);
      TimeBound(b[1..]);
      if a[0] != b[0] {
        var d, e := a[0] as int - '0' as int, b[0] as int - '0' as int;
        if d < e {
          SmallerDigit(d, e, Span(a[1..]));
        } else {
          SmallerDigit(e, d, Span(a[1..]));
        }
      }
    }
  }

  predicate OldestFirst(order: seq<Candidate>) {
    forall i, j :: 0 <= i < j < |order| ==> !Older(order[j].name, order[i].name)
  }

  // ---------- Candidates ----------

  ghost predicate IsSession(root: seq<RootEntry>, c: Candidate) {
    exists i, j :: IsSessionAt(root, c, i, j)
  }

  ghost predicate IsSessionAt(root: seq<RootEntry>, c: Candidate, i: int, j: int) {
    && 0 <= i < |root| && root[i].FcDir? && root[i].entries.Some? && 0 <= j < |root[i].entries.value|
    && root[i].entries.value[j].1 && c == Candidate(root[i].name, root[i].entries.value[j].0)
  }

  /** Every directory in a readable directory of the root is a candidate, and nothing else is. */
  method CollectCandidates(root: seq<RootEntry>) returns (candidates: seq<Candidate>)
    ensures forall c :: c in candidates <==> IsSession(root, c)
  {
    candidates := [];
    for i := 0 to |root|
      invariant forall c :: c in candidates <==> exists k, j :: k < i && IsSessionAt(root, c, k, j)
    {
      if root[i].FcDir? && root[i].entries.Some? {
        var entries := root[i].entries.value;
        for j := 0 to |entries|
          invariant forall c :: c in candidates <==>
            exists k, l :: (k < i || (k == i && l < j)) && IsSessionAt(root, c, k, l)
        {
          ghost var before := candidates;
          if entries[j].1 {
            var c := Candidate(root[i].name, entries[j].0);
            assert IsSessionAt(root, c, i, j);
            candidates := candidates + [c];
          }
        }
      }
    }
  }

  // ---------- Deletion ----------

  /** The sessions on the disk and the flight-controller directories. Free space as measured, and the outcomes
      of deletions, are arbitrary. */
  class Store {
    var sessions: set<Candidate>
    var fcDirs: set<string>
    var free: seq<Option<int>>
    var outcomes: seq<bool>
    ghost var measured: seq<Option<int>>
    ghost var refused: seq<Candidate>

    constructor (sessions: set<Candidate>, fcDirs: set<string>, free: seq<Option<int>>, outcomes: seq<bool>)
      ensures this.sessions == sessions && this.fcDirs == fcDirs && this.free == free && this.outcomes == outcomes
      ensures measured == [] && refused == []
    {
      this.sessions, this.fcDirs, this.free, this.outcomes := sessions, fcDirs, free, outcomes;
      measured, refused := [], [];
    }

    /** No deletion fails from here on. */
    ghost predicate Works()
      reads this
    {
      false !in outcomes
    }

    /** Every session has its directory. */
    ghost predicate Valid()
      reads this
    {
      forall c <- sessions :: c.fcDir in fcDirs
    }

    method FreeBytes() returns (f: Option<int>)
      modifies this`free, this`measured
      ensures measured == old(measured) + [f]
    {
      f := if free == [] then None else free[0];
      free := if free == [] then [] else free[1..];
      measured := measured + [f];
    }

    method RemoveAll(c: Candidate) returns (ok: bool)
      modifies this`sessions, this`outcomes, this`refused
      ensures sessions == if ok then old(sessions) - {c} else old(sessions)
      ensures refused == old(refused) + if ok then [] else [c]
      ensures ok == (old(outcomes) == [] || old(outcomes)[0]) && (old(Works()) ==> ok && Works())
    {
      ok := outcomes == [] || outcomes[0];
      outcomes := if outcomes == [] then [] else outcomes[1..];
      if ok {
        sessions := sessions - {c};
      } else {
        refused := refused + [c];
      }
    }

    /** A directory with sessions in it is not empty; one that seems empty is removed, if that works. */
    method RemoveIfEmpty(fcDir: string)
      requires Valid()
      modifies this`fcDirs, this`outcomes
      ensures Valid() && old(fcDirs) - {fcDir} <= fcDirs <= old(fcDirs)
      ensures old(Works()) ==> Works() && fcDirs == old(fcDirs) - if Empty(fcDir) then {fcDir} else {}
    {
      var ok := outcomes == [] || outcomes[0];
      outcomes := if outcomes == [] then [] else outcomes[1..];
      if ok && forall c <- sessions :: c.fcDir != fcDir {
        fcDirs := fcDirs - {fcDir};
      }
    }

    ghost predicate Empty(fcDir: string)
      reads this
    {
      forall c <- sessions :: c.fcDir != fcDir
    }
  }

  datatype End = Enough | NoneLeft | CannotMeasure | CannotDelete | CannotList

  function AsSet(order: seq<Candidate>): set<Candidate> {
    set c | c in order
  }

  /** Before each of the first n deletions too little was free. */
  ghost predicate WasNeeded(measured: seq<Option<int>>, n: nat, required: int) {
    n <= |measured| && forall i :: 0 <= i < n ==> measured[i].Some? && measured[i].value < required
  }

  /** Why the deletions stopped after the first n. */
  ghost predicate Stopped(end: End, measured: seq<Option<int>>, n: nat, total: nat, required: int) {
    match end
    case Enough => |measured| == n + 1 && measured[n].Some? && measured[n].value >= required
    case NoneLeft => n == total
    case CannotMeasure => |measured| == n + 1 && measured[n].None?
    case CannotDelete => n < total && WasNeeded(measured, n + 1, required)
    case CannotList => false
  }

  /** Deletes sessions in the given order until enough is free. Exactly the first ones are deleted: before each
      deletion too little was free, and the deletions stop with enough free, with none left, or with an error. */
  method DeleteInOrder(store: Store, order: seq<Candidate>, required: int) returns (deleted: seq<Candidate>, end: End)
    requires store.Valid() && store.measured == [] && store.refused == []
    modifies store
    ensures store.Valid() && store.sessions == old(store.sessions) - AsSet(deleted)
    ensures store.refused == if end == CannotDelete && |deleted| < |order| then [order[|deleted|]] else []
    ensures old(store.Works()) ==>
      end != CannotDelete && forall d <- deleted :: store.Empty(d.fcDir) ==> d.fcDir !in store.fcDirs
    ensures deleted <= order && WasNeeded(store.measured, |deleted|, required)
    ensures Stopped(end, store.measured, |deleted|, |order|, required)
  {
    deleted := [];
    for i := 0 to |order|
      invariant store.Valid() && deleted == order[..i] && |store.measured| == i && store.refused == []
      invariant old(store.Works()) ==>
        store.Works() && forall d <- deleted :: store.Empty(d.fcDir) ==> d.fcDir !in store.fcDirs
      invariant store.sessions == old(store.sessions) - AsSet(deleted)
      invariant WasNeeded(store.measured, i, required)
    {
      var free := store.FreeBytes();
      if free.None? {
        return deleted, CannotMeasure;
      }
      if free.value >= required {
        return deleted, Enough;
      }
      var ok := store.RemoveAll(order[i]);
      if !ok {
        return deleted, CannotDelete;
      }
      store.RemoveIfEmpty(order[i].fcDir);
      deleted := deleted + [order[i]];
    }
    end := NoneLeft;
  }

  /** No session that remains is strictly older than a deleted one. */
  lemma SurvivorsAreNotOlder(order: seq<Candidate>, deleted: seq<Candidate>, s: Candidate, d: Candidate)
    requires OldestFirst(order) && deleted <= order && s in order && s !in deleted && d in deleted
    ensures !Older(s.name, d.name)
  {
    var i :| 0 <= i < |deleted| && deleted[i] == d;
    var j :| 0 <= j < |order| && order[j] == s;
    assert deleted == order[..|deleted|] && order[i] == d;
  }

  // ---------- The whole cleanup ----------

  /** A sort by age; it may order sessions of the same name in any way. */
  ghost predicate Sorts(sort: seq<Candidate> -> seq<Candidate>) {
    forall cs :: IsSortOf(sort(cs), cs)
  }

  ghost predicate IsSortOf(sorted: seq<Candidate>, cs: seq<Candidate>) {
    OldestFirst(sorted) && multiset(sorted) == multiset(cs)
  }

  lemma SameMembers(sorted: seq<Candidate>, cs: seq<Candidate>)
    requires multiset(sorted) == multiset(cs)
    ensures forall c :: c in sorted <==> c in cs
  {
    forall c
      ensures c in sorted <==> c in cs
    {
      assert c in multiset(sorted) <==> c in multiset(cs);
    }
  }

  datatype Root = Missing | Unreadable | Listed(entries: seq<RootEntry>)

  /** Deletes the oldest listed sessions until enough is free: a prefix of the order of age, so no listed
      session that remains is strictly older than a deleted one. Each deletion was needed, and without an error
      the cleanup stops short of the target only when no listed session is left. Sessions below a directory
      that cannot be read are not listed, and stay. */
  method CleanupOldestSessions(store: Store, root: Root, sort: seq<Candidate> -> seq<Candidate>, required: int)
    returns (deleted: seq<Candidate>, end: End, ghost order: seq<Candidate>)
    requires store.Valid() && store.measured == [] && store.refused == [] && Sorts(sort)
    requires root.Listed? ==> forall c :: IsSession(root.entries, c) ==> c in store.sessions
    modifies store
    ensures store.Valid() && store.sessions == old(store.sessions) - AsSet(deleted)
    ensures deleted <= order && OldestFirst(order) && WasNeeded(store.measured, |deleted|, required)
    ensures forall c :: c in order <==> required > 0 && root.Listed? && IsSession(root.entries, c)
    ensures store.refused != [] <==> end == CannotDelete
    ensures old(store.Works()) ==>
      end != CannotDelete && forall d <- deleted :: store.Empty(d.fcDir) ==> d.fcDir !in store.fcDirs
    ensures if required <= 0 then end == Enough
            else if root.Missing? then end == NoneLeft
            else if root.Unreadable? then end == CannotList
            else Stopped(end, store.measured, |deleted|, |order|, required)
    ensures forall s, d :: s in store.sessions && s in order && d in deleted ==> !Older(s.name, d.name)
    ensures forall s, d :: s in store.sessions && s in order && d in deleted && SameLayout(s.name, d.name) ==>
      Time(d.name) <= Time(s.name)
  {
    order := [];
    if required <= 0 {
      return [], Enough, order;
    }
    if root.Missing? {
      return [], NoneLeft, order;
    }
    if root.Unreadable? {
      return [], CannotList, order;
    }
    var candidates := CollectCandidates(root.entries);
    var sorted := sort(candidates);
    assert IsSortOf(sorted, candidates);
    SameMembers(sorted, candidates);
    hide IsSession, Sorts, WasNeeded, Stopped;
    deleted, end := DeleteInOrder(store, sorted, required);
    order := sorted;
    forall s, d | s in store.sessions && s in order && d in deleted
      ensures !Older(s.name, d.name) && (SameLayout(s.name, d.name) ==> Time(d.name) <= Time(s.name))
    {
      SurvivorsAreNotOlder(order, deleted, s, d);
      if SameLayout(s.name, d.name) {
        OlderIsEarlier(s.name, d.name);
      }
    }
  }
}
