/** Streams of self-delimiting units, parsed by a function that recognises the first unit. */
module Streams {

  /** What a stream starts with: not yet known, n elements to skip, or a unit of n elements. */
  datatype Head<+M> = Incomplete | Junk(n: nat) | Good(message: M, n: nat)

  datatype Parsed<+T, +M> = Parsed(messages: seq<M>, rest: seq<T>)

  /** A recogniser consumes something, and what follows the unit does not change its verdict. */
  ghost predicate Recogniser<T(!new), M(!new)>(first: seq<T> -> Head<M>) {
    && (forall s :: !first(s).Incomplete? ==> 0 < first(s).n <= |s|)
    && (forall s, t :: !first(s).Incomplete? ==> first(s + t) == first(s))
  }

  /** Every unit of the stream in order, and the unfinished tail. */
  ghost function Parse<T(!new), M(!new)>(first: seq<T> -> Head<M>, s: seq<T>): Parsed<T, M>
    requires Recogniser(first)
    decreases |s|
  {
    match first(s)
    case Incomplete => Parsed([], s)
    case Junk(n) => Parse(first, s[n..])
    case Good(m, n) => var p := Parse(first, s[n..]); Parsed([m] + p.messages, p.rest)
  }

  lemma {:induction false} RestIsUnfinished<T(!new), M(!new)>(first: seq<T> -> Head<M>, s: seq<T>)
    requires Recogniser(first)
    ensures first(Parse(first, s).rest).Incomplete?
    decreases |s|
  {
    if !first(s).Incomplete? {
      RestIsUnfinished(first, s[first(s).n..]);
    }
  }

  /** The tail is a suffix of the stream. */
  lemma {:induction false} RestIsSuffix<T(!new), M(!new)>(first: seq<T> -> Head<M>, s: seq<T>)
    requires Recogniser(first)
    ensures var r := Parse(first, s).rest; |r| <= |s| && r == s[|s| - |r|..]
    decreases |s|
  {
    if !first(s).Incomplete? {
      RestIsSuffix(first, s[first(s).n..]);
    }
  }

  lemma ParseStep<T(!new), M(!new)>(first: seq<T> -> Head<M>, s: seq<T>)
    requires Recogniser(first) && !first(s).Incomplete?
    ensures 0 < first(s).n <= |s|
    ensures var p := Parse(first, s[first(s).n..]);
            Parse(first, s) == if first(s).Good? then Parsed([first(s).message] + p.messages, p.rest) else p
  {
  }

  lemma HeadStays<T(!new), M(!new)>(first: seq<T> -> Head<M>, a: seq<T>, b: seq<T>)
    requires Recogniser(first) && !first(a).Incomplete?
    ensures first(a + b) == first(a) && 0 < first(a).n <= |a| && (a + b)[first(a).n..] == a[first(a).n..] + b
  {
    assert first(a + b) == first(a);
  }

  /** Parsing a stream in two pieces, keeping only the unfinished tail of the first, changes nothing. */
  lemma {:induction false} ParseConcat<T(!new), M(!new)>(first: seq<T> -> Head<M>, a: seq<T>, b: seq<T>)
    requires Recogniser(first)
    ensures var p := Parse(first, a);
            var q := Parse(first, p.rest + b);
            Parse(first, a + b) == Parsed(p.messages + q.messages, q.rest)
    decreases |a|
  {
    if first(a).Incomplete? {
      assert Parse(first, a) == Parsed([], a);
      assert [] + Parse(first, a + b).messages == Parse(first, a + b).messages;
    } else {
      hide Parse, Recogniser;
      HeadStays(first, a, b);
      ParseStep(first, a);
      ParseStep(first, a + b);
      ParseConcat(first, a[first(a).n..], b);
      if first(a).Good? {
        var p := Parse(first, a[first(a).n..]);
        Associative([first(a).message], p.messages, Parse(first, p.rest + b).messages);
      }
    }
  }

  ghost function ParseAll<T(!new), M(!new)>(first: seq<T> -> Head<M>, tail: seq<T>, chunks: seq<seq<T>>): Parsed<T, M>
    requires Recogniser(first)
    decreases |chunks|
  {
    if chunks == [] then Parsed([], tail)
    else
      var p := Parse(first, tail + chunks[0]);
      var q := ParseAll(first, p.rest, chunks[1..]);
      Parsed(p.messages + q.messages, q.rest)
  }

  function Joined<T>(chunks: seq<seq<T>>): seq<T> {
    if chunks == [] then [] else chunks[0] + Joined(chunks[1..])
  }

  lemma Associative<T>(a: seq<T>, b: seq<T>, c: seq<T>)
    ensures a + (b + c) == (a + b) + c
  {
  }

  /** How a stream is cut into chunks does not matter. */
  lemma {:induction false} ChunksDoNotMatter<T(!new), M(!new)>(first: seq<T> -> Head<M>, tail: seq<T>, chunks: seq<seq<T>>)
    requires Recogniser(first) && first(tail).Incomplete?
    ensures ParseAll(first, tail, chunks) == Parse(first, tail + Joined(chunks))
    decreases |chunks|
  {
    if chunks == [] {
      assert tail + Joined(chunks) == tail;
    } else {
      var p := Parse(first, tail + chunks[0]);
      RestIsUnfinished(first, tail + chunks[0]);
      ChunksDoNotMatter(first, p.rest, chunks[1..]);
      ParseConcat(first, tail + chunks[0], Joined(chunks[1..]));
      Associative(tail, chunks[0], Joined(chunks[1..]));
    }
  }

  // ---------- Where the units are ----------

  /** From start to end, as positions in the whole stream. */
  datatype Span<+M> = Span(start: nat, end: nat, message: M)

  /** The units of s from position at on. */
  ghost function Spans<T(!new), M(!new)>(first: seq<T> -> Head<M>, s: seq<T>, at: nat): seq<Span<M>>
    requires Recogniser(first) && at <= |s|
    decreases |s| - at
  {
    match first(s[at..])
    case Incomplete => []
    case Junk(n) => Spans(first, s, at + n)
    case Good(m, n) => [Span(at, at + n, m)] + Spans(first, s, at + n)
  }

  ghost predicate IsUnit<T(!new), M(!new)>(first: seq<T> -> Head<M>, s: seq<T>, span: Span<M>) {
    && span.start < span.end <= |s|
    && first(s[span.start..]) == Good(span.message, span.end - span.start)
  }

  /** Between at and end, in order, and disjoint. */
  ghost predicate Ordered<M>(spans: seq<Span<M>>, at: nat, end: nat) {
    && (forall i :: 0 <= i < |spans| ==> at <= spans[i].start <= spans[i].end <= end)
    && (forall i, j :: 0 <= i < j < |spans| ==> spans[i].end <= spans[j].start)
  }

  function MessagesOf<M>(spans: seq<Span<M>>): seq<M> {
    seq(|spans|, i requires 0 <= i < |spans| => spans[i].message)
  }

  lemma MessagesCons<M>(head: Span<M>, tail: seq<Span<M>>)
    ensures MessagesOf([head] + tail) == [head.message] + MessagesOf(tail)
  {
  }

  lemma {:induction false} SpansCarryMessages<T(!new), M(!new)>(first: seq<T> -> Head<M>, s: seq<T>, at: nat)
    requires Recogniser(first) && at <= |s|
    ensures Parse(first, s[at..]).messages == MessagesOf(Spans(first, s, at))
    decreases |s| - at
  {
    var h := first(s[at..]);
    if !h.Incomplete? {
      ParseStep(first, s[at..]);
      assert s[at..][h.n..] == s[at + h.n..];
      hide Parse, MessagesOf;
      SpansCarryMessages(first, s, at + h.n);
      if h.Good? {
        MessagesCons(Span(at, at + h.n, h.message), Spans(first, s, at + h.n));
      }
    }
  }

  lemma {:induction false} SpansAreUnits<T(!new), M(!new)>(first: seq<T> -> Head<M>, s: seq<T>, at: nat)
    requires Recogniser(first) && at <= |s|
    ensures forall span <- Spans(first, s, at) :: IsUnit(first, s, span)
    decreases |s| - at
  {
    var h := first(s[at..]);
    if !h.Incomplete? {
      SpansAreUnits(first, s, at + h.n);
    }
  }

  /** The units end where the unfinished tail starts. */
  ghost function End<T(!new), M(!new)>(first: seq<T> -> Head<M>, s: seq<T>, at: nat): int
    requires Recogniser(first) && at <= |s|
  {
    |s| - |Parse(first, s[at..]).rest|
  }

  lemma EndNext<T(!new), M(!new)>(first: seq<T> -> Head<M>, s: seq<T>, at: nat)
    requires Recogniser(first) && at <= |s|
    ensures var h := first(s[at..]);
            at <= End(first, s, at) && (!h.Incomplete? ==> at + h.n <= |s| && End(first, s, at) == End(first, s, at + h.n))
  {
    RestIsSuffix(first, s[at..]);
    var h := first(s[at..]);
    if !h.Incomplete? {
      ParseStep(first, s[at..]);
      assert s[at..][h.n..] == s[at + h.n..];
    }
  }

  lemma {:induction false} SpansAreOrdered<T(!new), M(!new)>(first: seq<T> -> Head<M>, s: seq<T>, at: nat)
    requires Recogniser(first) && at <= |s|
    ensures at <= End(first, s, at) && Ordered(Spans(first, s, at), at, End(first, s, at))
    decreases |s| - at
  {
    var h := first(s[at..]);
    EndNext(first, s, at);
    if !h.Incomplete? {
      hide Ordered, End;
      SpansAreOrdered(first, s, at + h.n);
      EndNext(first, s, at + h.n);
      if h.Good? {
        OrderedCons(Span(at, at + h.n, h.message), Spans(first, s, at + h.n), End(first, s, at));
      } else {
        OrderedEarlier(Spans(first, s, at + h.n), at, at + h.n, End(first, s, at));
      }
    }
  }

  lemma OrderedEarlier<M>(spans: seq<Span<M>>, at: nat, later: nat, end: nat)
    requires at <= later && Ordered(spans, later, end)
    ensures Ordered(spans, at, end)
  {
  }

  lemma OrderedCons<M>(head: Span<M>, tail: seq<Span<M>>, end: nat)
    requires head.start <= head.end <= end && Ordered(tail, head.end, end)
    ensures Ordered([head] + tail, head.start, end)
  {
  }
}
