/** The decoder of the compressed flash data (internal/msp/huffman.go), and the encoder it inverts. */
module Huffman {
  import opened Bytes
  import opened HuffmanTable

  /** Values by code length and code. */
  type Lookup = map<(nat, nat), Value>

  // ---------- What the decoder computes ----------

  /** (b >> shift) & 1, shifted one bit at a time. */
  predicate BitOf(b: nat, shift: nat) {
    if shift == 0 then b % 2 == 1 else BitOf(b / 2, shift - 1)
  }

  /** Bits of the input, most significant first within each byte. */
  function InputBits(input: seq<byte>): (bits: seq<bool>)
    ensures |bits| == 8 * |input|
  {
    seq(8 * |input|, p requires 0 <= p < 8 * |input| => BitOf(input[p / 8], 7 - p % 8))
  }

  lemma BitAtPosition(input: seq<byte>, pos: nat)
    requires pos < 8 * |input|
    ensures InputBits(input)[pos] == BitOf(input[pos / 8], 7 - pos % 8)
  {
  }

  datatype Next = Symbol(value: Value, at: nat) | Ended | Unmatched(at: nat)

  /** The next value, after codeLen bits that are no code themselves. */
  function NextValue(m: Lookup, bits: seq<bool>, at: nat, codeLen: nat, code: nat): (r: Next)
    requires at <= |bits| && codeLen <= MAX_CODE_LEN
    ensures r.Symbol? ==> at < r.at <= |bits|
    decreases |bits| - at
  {
    if codeLen == MAX_CODE_LEN then Unmatched(at)
    else if at >= |bits| then Ended
    else
      var next := 2 * code + if bits[at] then 1 else 0;
      if (codeLen + 1, next) in m then Symbol(m[(codeLen + 1, next)], at + 1)
      else NextValue(m, bits, at + 1, codeLen + 1, next)
  }

  function NextFrom(m: Lookup, bits: seq<bool>, at: nat): (r: Next)
    requires at <= |bits|
    ensures r.Symbol? ==> at < r.at <= |bits|
  {
    NextValue(m, bits, at, 0, 0)
  }

  datatype Outcome = Decoded(out: seq<byte>) | EndOfInput | InvalidCode(at: nat)

  /** Up to n more values, fewer at the end marker. */
  function DecodeFrom(m: Lookup, bits: seq<bool>, at: nat, n: nat): Outcome
    requires at <= |bits|
    decreases n
  {
    if n == 0 then Decoded([])
    else
      match NextFrom(m, bits, at)
      case Ended => EndOfInput
      case Unmatched(p) => InvalidCode(p)
      case Symbol(v, p) =>
        if v == HUFFMAN_EOF then Decoded([])
        else
          Prepend([v], DecodeFrom(m, bits, p, n - 1))
  }

  /** An outcome with values decoded before it. */
  function Prepend(out: seq<byte>, r: Outcome): Outcome {
    match r
    case Decoded(rest) => Decoded(out + rest)
    case other => other
  }

  lemma DecodeStep(m: Lookup, bits: seq<bool>, at: nat, n: nat)
    requires at <= |bits| && n > 0
    requires NextFrom(m, bits, at).Symbol? && NextFrom(m, bits, at).value != HUFFMAN_EOF
    ensures var s := NextFrom(m, bits, at);
            DecodeFrom(m, bits, at, n) == Prepend([s.value], DecodeFrom(m, bits, s.at, n - 1))
  {
  }

  /** No more bytes come out than were asked for. */
  lemma {:induction false} DecodedAtMost(m: Lookup, bits: seq<bool>, at: nat, n: nat)
    requires at <= |bits| && DecodeFrom(m, bits, at, n).Decoded?
    ensures |DecodeFrom(m, bits, at, n).out| <= n
    decreases n
  {
    if n > 0 && NextFrom(m, bits, at).value != HUFFMAN_EOF {
      DecodeStep(m, bits, at, n);
      DecodedAtMost(m, bits, NextFrom(m, bits, at).at, n - 1);
    }
  }

  lemma PrependNothing(r: Outcome)
    ensures Prepend([], r) == r
  {
    if r.Decoded? {
      assert [] + r.out == r.out;
    }
  }

  lemma PrependAll(out: seq<byte>)
    ensures Prepend(out, Decoded([])) == Decoded(out)
  {
    assert out + [] == out;
  }

  lemma PrependNext(out: seq<byte>, v: byte, r: Outcome)
    ensures Prepend(out, Prepend([v], r)) == Prepend(out + [v], r)
  {
    if r.Decoded? {
      assert out + ([v] + r.out) == out + [v] + r.out;
    }
  }

  /** The inner loop: one bit after another until they are a code. */
  method ReadValue(huffmanLookup: Lookup, input: seq<byte>, start: nat) returns (next: Next)
    requires start <= 8 * |input|
    ensures next == NextFrom(huffmanLookup, InputBits(input), start)
  {
    hide InputBits, BitOf;
    var bitPos: nat := start;
    var code: nat := 0;
    var codeLen: nat := 0;
    while codeLen < MAX_CODE_LEN
      invariant bitPos <= 8 * |input| && codeLen <= MAX_CODE_LEN
      invariant NextFrom(huffmanLookup, InputBits(input), start)
             == NextValue(huffmanLookup, InputBits(input), bitPos, codeLen, code)
    {
      if bitPos >= |input| * 8 {
        return Ended;
      }
      BitAtPosition(input, bitPos);
      var byteIdx := bitPos / 8;
      var bitIdx := 7 - bitPos % 8;
      var bit := if BitOf(input[byteIdx], bitIdx) then 1 else 0;
      code := 2 * code + bit;
      bitPos := bitPos + 1;
      codeLen := codeLen + 1;
      if (codeLen, code) in huffmanLookup {
        return Symbol(huffmanLookup[(codeLen, code)], bitPos);
      }
    }
    next := Unmatched(bitPos);
  }

  /** The outer loop: values until there are charCount of them. */
  method HuffmanDecode(huffmanLookup: Lookup, input: seq<byte>, charCount: nat) returns (r: Outcome)
    ensures r == DecodeFrom(huffmanLookup, InputBits(input), 0, charCount)
  {
    if charCount == 0 {
      return Decoded([]);
    }
    var out: seq<byte> := [];
    var bitPos: nat := 0;
    PrependNothing(DecodeFrom(huffmanLookup, InputBits(input), 0, charCount));
    while |out| < charCount
      invariant |out| <= charCount && bitPos <= 8 * |input|
      invariant DecodeFrom(huffmanLookup, InputBits(input), 0, charCount)
             == Prepend(out, DecodeFrom(huffmanLookup, InputBits(input), bitPos, charCount - |out|))
    {
      var next := ReadValue(huffmanLookup, input, bitPos);
      match next
      case Ended =>
        return EndOfInput;
      case Unmatched(at) =>
        return InvalidCode(at);
      case Symbol(value, at) =>
        if value == HUFFMAN_EOF {
          PrependAll(out);
          return Decoded(out);
        }
        DecodeStep(huffmanLookup, InputBits(input), bitPos, charCount - |out|);
        PrependNext(out, value, DecodeFrom(huffmanLookup, InputBits(input), at, charCount - |out| - 1));
        out := out + [value];
        bitPos := at;
    }
    PrependAll(out);
    r := Decoded(out);
  }

  // ---------- Prefix codes ----------

  /** A code whose every value is found under one code. */
  ghost predicate IsCode(m: Lookup, low: nat -> nat) {
    && Filled(m, low)
    && (forall v: Value :: HasCode(m, v))
    && (forall k, l :: k in m && l in m && m[k] == m[l] ==> k == l)
  }

  /** The codes of each length fill the range from the lowest to the longest path that no shorter code
      has cut off. */
  ghost predicate Filled(m: Lookup, low: nat -> nat) {
    && Shape(low)
    && (forall n: nat, code: nat :: (n, code) in m <==> InRange(low, n, code))
  }

  ghost predicate HasCode(m: Lookup, v: Value) {
    exists k :: k in m && m[k] == v
  }

  ghost predicate Shape(low: nat -> nat) {
    && low(0) == 1 && low(MAX_CODE_LEN) == 0
    && (forall n :: 0 <= n < MAX_CODE_LEN ==> low(n + 1) <= 2 * low(n))
  }

  predicate InRange(low: nat -> nat, codeLen: nat, code: nat)
  {
    0 < codeLen <= MAX_CODE_LEN && low(codeLen) <= code < 2 * low(codeLen - 1)
  }

  /** Bits that are no code stay below the lowest code of their length, so at twelve bits none are left:
      no input is invalid, and twelve bits always hold a code. */
  lemma {:induction false} AlwaysMatched(m: Lookup, low: nat -> nat, bits: seq<bool>, at: nat, codeLen: nat, code: nat)
    requires Filled(m, low) && at <= |bits| && codeLen < MAX_CODE_LEN && code < low(codeLen)
    ensures !NextValue(m, bits, at, codeLen, code).Unmatched?
    ensures |bits| - at >= MAX_CODE_LEN - codeLen ==> NextValue(m, bits, at, codeLen, code).Symbol?
    decreases MAX_CODE_LEN - codeLen
  {
    if at < |bits| {
      var next := 2 * code + if bits[at] then 1 else 0;
      if (codeLen + 1, next) !in m {
        assert !InRange(low, codeLen + 1, next);
        AlwaysMatched(m, low, bits, at + 1, codeLen + 1, next);
      }
    }
  }

  // ---------- Codewords ----------

  /** The low codeLen bits of a code, most significant first. */
  function CodeBits(codeLen: nat, code: nat): (bits: seq<bool>)
    ensures |bits| == codeLen
  {
    if codeLen == 0 then [] else CodeBits(codeLen - 1, code / 2) + [code % 2 == 1]
  }

  ghost function KeyOf(m: Lookup, low: nat -> nat, v: Value): (k: (nat, nat))
    requires IsCode(m, low)
    ensures k in m && m[k] == v
  {
    assert HasCode(m, v);
    var k :| k in m && m[k] == v;
    k
  }

  ghost function Codeword(m: Lookup, low: nat -> nat, v: Value): seq<bool>
    requires IsCode(m, low)
  {
    var k := KeyOf(m, low, v);
    CodeBits(k.0, k.1)
  }

  lemma SliceNext<T>(s: seq<T>, at: nat, n: nat)
    requires at + n < |s|
    ensures s[at..at + n + 1] == s[at..at + n] + [s[at + n]]
  {
  }

  lemma LastOf<T>(a: seq<T>, x: T, b: seq<T>, y: T)
    requires a + [x] == b + [y]
    ensures a == b && x == y
  {
    assert (a + [x])[|a|] == x && (b + [y])[|b|] == y;
    assert (a + [x])[..|a|] == a && (b + [y])[..|b|] == b;
  }

  lemma Reassembled(code: nat)
    ensures 2 * (code / 2) + (if code % 2 == 1 then 1 else 0) == code
  {
  }

  /** The last bit of a spelled code. */
  lemma LastBit(bits: seq<bool>, at: nat, n: nat, code: nat)
    requires 0 < n && at + n <= |bits| && bits[at..at + n] == CodeBits(n, code)
    ensures bits[at..at + n - 1] == CodeBits(n - 1, code / 2)
    ensures 2 * (code / 2) + (if bits[at + n - 1] then 1 else 0) == code
  {
    SliceNext(bits, at, n - 1);
    LastOf(bits[at..at + n - 1], bits[at + n - 1], CodeBits(n - 1, code / 2), code % 2 == 1);
    Reassembled(code);
  }

  lemma ReadOn(m: Lookup, bits: seq<bool>, at: nat, n: nat, code: nat, next: nat)
    requires at < |bits| && n < MAX_CODE_LEN && next == 2 * code + if bits[at] then 1 else 0
    requires (n + 1, next) !in m
    ensures NextValue(m, bits, at, n, code) == NextValue(m, bits, at + 1, n + 1, next)
  {
  }

  lemma ReadLast(m: Lookup, bits: seq<bool>, at: nat, n: nat, code: nat, next: nat)
    requires at < |bits| && n < MAX_CODE_LEN && next == 2 * code + if bits[at] then 1 else 0
    requires (n + 1, next) in m
    ensures NextValue(m, bits, at, n, code) == Symbol(m[(n + 1, next)], at + 1)
  {
  }

  /** Bits that spell a proper prefix of a code are read through. */
  lemma {:induction false} PrefixIsRead(m: Lookup, low: nat -> nat, bits: seq<bool>, at: nat, n: nat, code: nat)
    requires Filled(m, low) && at + n <= |bits| && n <= MAX_CODE_LEN
    requires code < low(n) && bits[at..at + n] == CodeBits(n, code)
    ensures NextFrom(m, bits, at) == NextValue(m, bits, at + n, n, code)
  {
    hide NextValue, CodeBits;
    if n > 0 {
      LastBit(bits, at, n, code);
      PrefixIsRead(m, low, bits, at, n - 1, code / 2);
      assert !InRange(low, n, code);
      ReadOn(m, bits, at + n - 1, n - 1, code / 2, code);
    }
  }

  lemma KeyIsRead(m: Lookup, low: nat -> nat, bits: seq<bool>, at: nat, n: nat, code: nat)
    requires Filled(m, low) && (n, code) in m && at + n <= |bits|
    requires bits[at..at + n] == CodeBits(n, code)
    ensures NextFrom(m, bits, at) == Symbol(m[(n, code)], at + n)
  {
    assert InRange(low, n, code);
    LastBit(bits, at, n, code);
    PrefixIsRead(m, low, bits, at, n - 1, code / 2);
    ReadLast(m, bits, at + n - 1, n - 1, code / 2, code);
  }

  /** Bits that spell the code of a value are read as the value. */
  lemma CodeIsRead(m: Lookup, low: nat -> nat, bits: seq<bool>, at: nat, v: Value)
    requires IsCode(m, low) && at <= |bits| && Codeword(m, low, v) <= bits[at..]
    ensures NextFrom(m, bits, at) == Symbol(v, at + |Codeword(m, low, v)|)
  {
    var (n, code) := KeyOf(m, low, v);
    assert bits[at..at + n] == bits[at..][..n];
    KeyIsRead(m, low, bits, at, n, code);
  }

  lemma KeyOfEntry(m: Lookup, low: nat -> nat, k: (nat, nat))
    requires IsCode(m, low) && k in m
    ensures KeyOf(m, low, m[k]) == k
  {
  }

  /** What is read as a value are bits that spell its code. */
  lemma {:induction false} ReadIsKey(m: Lookup, bits: seq<bool>, from: nat, n: nat, code: nat) returns (k: (nat, nat))
    requires from + n <= |bits| && n <= MAX_CODE_LEN
    requires bits[from..from + n] == CodeBits(n, code)
    requires NextValue(m, bits, from + n, n, code).Symbol?
    ensures var s := NextValue(m, bits, from + n, n, code);
            k in m && m[k] == s.value && bits[from..s.at] == CodeBits(k.0, k.1)
    decreases MAX_CODE_LEN - n
  {
    var next := 2 * code + if bits[from + n] then 1 else 0;
    SliceNext(bits, from, n);
    assert next / 2 == code && (next % 2 == 1) == bits[from + n];
    if (n + 1, next) in m {
      k := (n + 1, next);
    } else {
      k := ReadIsKey(m, bits, from, n + 1, next);
    }
  }

  lemma ReadIsCode(m: Lookup, low: nat -> nat, bits: seq<bool>, at: nat)
    requires IsCode(m, low) && at <= |bits| && NextFrom(m, bits, at).Symbol?
    ensures var s := NextFrom(m, bits, at);
            bits[at..s.at] == Codeword(m, low, s.value)
  {
    var k := ReadIsKey(m, bits, at, 0, 0);
    KeyOfEntry(m, low, k);
  }

  // ---------- Decoding inverts encoding ----------

  /** The codeword of each value. */
  type Words = Value -> seq<bool>

  ghost function WordsOf(m: Lookup, low: nat -> nat): Words {
    (v: Value) => if IsCode(m, low) then Codeword(m, low, v) else []
  }

  /** A codeword at a position is read as its value, what is read as a value is its codeword, and no bits
      are anything else. */
  ghost predicate Reads(m: Lookup, words: Words) {
    && (forall bits: seq<bool>, at: nat, v: Value ::
          Holds(bits, at, words(v)) ==> NextFrom(m, bits, at) == Symbol(v, at + |words(v)|))
    && (forall bits: seq<bool>, at: nat :: at <= |bits| && NextFrom(m, bits, at).Symbol? ==>
          bits[at..NextFrom(m, bits, at).at] == words(NextFrom(m, bits, at).value))
    && (forall bits: seq<bool>, at: nat :: at <= |bits| ==> !NextFrom(m, bits, at).Unmatched?)
  }

  /** The bits from a position on start with w. */
  predicate Holds(bits: seq<bool>, at: nat, w: seq<bool>) {
    at <= |bits| && w <= bits[at..]
  }

  lemma CodeReads(m: Lookup, low: nat -> nat)
    requires IsCode(m, low)
    ensures Reads(m, WordsOf(m, low))
  {
    var words := WordsOf(m, low);
    forall bits: seq<bool>, at: nat, v: Value | Holds(bits, at, words(v))
      ensures NextFrom(m, bits, at) == Symbol(v, at + |words(v)|)
    {
      CodeIsRead(m, low, bits, at, v);
    }
    forall bits: seq<bool>, at: nat | at <= |bits| && NextFrom(m, bits, at).Symbol?
      ensures bits[at..NextFrom(m, bits, at).at] == words(NextFrom(m, bits, at).value)
    {
      ReadIsCode(m, low, bits, at);
    }
    forall bits: seq<bool>, at: nat | at <= |bits|
      ensures !NextFrom(m, bits, at).Unmatched?
    {
      AlwaysMatched(m, low, bits, at, 0, 0);
    }
  }

  lemma WordIsRead(m: Lookup, words: Words, bits: seq<bool>, at: nat, v: Value)
    requires Reads(m, words) && Holds(bits, at, words(v))
    ensures NextFrom(m, bits, at) == Symbol(v, at + |words(v)|)
  {
  }

  lemma DecodeEof(m: Lookup, bits: seq<bool>, at: nat, n: nat)
    requires at <= |bits| && n > 0
    requires NextFrom(m, bits, at).Symbol? && NextFrom(m, bits, at).value == HUFFMAN_EOF
    ensures DecodeFrom(m, bits, at, n) == Decoded([])
  {
  }

  function Encode(words: Words, s: seq<byte>): seq<bool> {
    if s == [] then [] else words(s[0]) + Encode(words, s[1..])
  }

  /** The bits that make the decoder return s when asked for n bytes: the code of s, with the end marker
      behind it when s has fewer than n bytes. */
  function Spelling(words: Words, n: nat, s: seq<byte>): seq<bool> {
    if |s| == n then Encode(words, s) else Encode(words, s) + words(HUFFMAN_EOF)
  }

  lemma SplitPrefix<T>(a: seq<T>, b: seq<T>, s: seq<T>, at: nat)
    requires at + |a| <= |s| && s[at..at + |a|] == a
    ensures a + b <= s[at..] <==> b <= s[at + |a|..]
  {
    assert s[at..] == a + s[at + |a|..];
    if a + b <= s[at..] {
      assert (a + b)[|a|..] == b;
      assert s[at..][|a|..|a + b|] == b;
    }
  }

  lemma PrefixFits<T>(a: seq<T>, b: seq<T>, s: seq<T>, at: nat)
    requires at <= |s| && a + b <= s[at..]
    ensures at + |a| <= |s| && s[at..at + |a|] == a && a <= s[at..]
  {
    assert (a + b)[..|a|] == a;
    assert s[at..][..|a|] == s[at..at + |a|];
  }

  lemma SliceIsPrefix<T>(s: seq<T>, from: nat, to: nat)
    requires from <= to <= |s|
    ensures |s[from..to]| == to - from && s[from..to] <= s[from..]
  {
  }

  lemma SpellingNext(words: Words, n: nat, s: seq<byte>)
    requires 0 < |s| <= n
    ensures Spelling(words, n, s) == words(s[0]) + Spelling(words, n - 1, s[1..])
  {
    var w, rest, eof := words(s[0]), Encode(words, s[1..]), words(HUFFMAN_EOF);
    assert (w + rest) + eof == w + (rest + eof);
  }

  lemma SpellingOfNothing(words: Words, n: nat)
    ensures Spelling(words, n, []) == if n == 0 then [] else words(HUFFMAN_EOF)
  {
    assert [] + words(HUFFMAN_EOF) == words(HUFFMAN_EOF);
  }

  lemma DecodedCons(m: Lookup, bits: seq<bool>, at: nat, p: nat, n: nat, s: seq<byte>)
    requires at < p <= |bits| && n > 0 && s != [] && NextFrom(m, bits, at) == Symbol(s[0], p)
    ensures DecodeFrom(m, bits, at, n) == Decoded(s) <==> DecodeFrom(m, bits, p, n - 1) == Decoded(s[1..])
  {
    DecodeStep(m, bits, at, n);
    ConsIff(s[0], s, DecodeFrom(m, bits, p, n - 1));
  }

  lemma ConsIff(v: byte, s: seq<byte>, r: Outcome)
    requires s != [] && s[0] == v
    ensures Prepend([v], r) == Decoded(s) <==> r == Decoded(s[1..])
  {
    assert [v] + s[1..] == s;
    if Prepend([v], r) == Decoded(s) {
      assert ([v] + r.out)[1..] == r.out;
    }
  }

  /** The bits from a position on start with the spelling of s. */
  predicate Spelled(words: Words, bits: seq<bool>, at: nat, n: nat, s: seq<byte>) {
    |s| <= n && Holds(bits, at, Spelling(words, n, s))
  }

  lemma NothingIsDecoded(m: Lookup, words: Words, bits: seq<bool>, at: nat, n: nat, s: seq<byte>)
    requires Reads(m, words) && s == [] && Spelled(words, bits, at, n, s)
    ensures DecodeFrom(m, bits, at, n) == Decoded(s)
  {
    SpellingOfNothing(words, n);
    if n > 0 {
      WordIsRead(m, words, bits, at, HUFFMAN_EOF);
      DecodeEof(m, bits, at, n);
    }
  }

  lemma NothingIsSpelled(m: Lookup, words: Words, bits: seq<bool>, at: nat, n: nat)
    requires Reads(m, words) && at <= |bits|
    requires n == 0 || (NextFrom(m, bits, at).Symbol? && NextFrom(m, bits, at).value == HUFFMAN_EOF)
    ensures Spelled(words, bits, at, n, [])
  {
    SpellingOfNothing(words, n);
    if n > 0 {
      SliceIsPrefix(bits, at, NextFrom(m, bits, at).at);
    }
  }

  lemma FirstIsRead(m: Lookup, words: Words, bits: seq<bool>, at: nat, n: nat, s: seq<byte>) returns (p: nat)
    requires Reads(m, words) && s != [] && Spelled(words, bits, at, n, s)
    ensures at < p <= |bits|
    ensures Spelled(words, bits, p, n - 1, s[1..])
    ensures DecodeFrom(m, bits, p, n - 1) == Decoded(s[1..]) ==> DecodeFrom(m, bits, at, n) == Decoded(s)
  {
    hide Encode, Spelling, Reads, DecodeFrom, NextFrom;
    SpellingNext(words, n, s);
    PrefixFits(words(s[0]), Spelling(words, n - 1, s[1..]), bits, at);
    WordIsRead(m, words, bits, at, s[0]);
    SplitPrefix(words(s[0]), Spelling(words, n - 1, s[1..]), bits, at);
    p := at + |words(s[0])|;
    DecodedCons(m, bits, at, p, n, s);
  }

  lemma FirstIsSpelled(m: Lookup, words: Words, bits: seq<bool>, at: nat, p: nat, n: nat, s: seq<byte>)
    requires Reads(m, words) && s != [] && n > 0 && at < p <= |bits| && NextFrom(m, bits, at) == Symbol(s[0], p)
    requires Spelled(words, bits, p, n - 1, s[1..])
    ensures Spelled(words, bits, at, n, s)
  {
    hide Encode, Spelling, NextFrom;
    SpellingNext(words, n, s);
    SliceIsPrefix(bits, at, p);
    SplitPrefix(words(s[0]), Spelling(words, n - 1, s[1..]), bits, at);
  }

  lemma {:induction false} SpelledIsDecoded(m: Lookup, words: Words, bits: seq<bool>, at: nat, n: nat, s: seq<byte>)
    requires Reads(m, words) && Spelled(words, bits, at, n, s)
    ensures DecodeFrom(m, bits, at, n) == Decoded(s)
    decreases n
  {
    hide Spelling, Encode, Holds, Reads;
    if s == [] {
      NothingIsDecoded(m, words, bits, at, n, s);
    } else {
      var p := FirstIsRead(m, words, bits, at, n, s);
      SpelledIsDecoded(m, words, bits, p, n - 1, s[1..]);
    }
  }

  lemma NoMoreDecoded(m: Lookup, bits: seq<bool>, at: nat, n: nat, s: seq<byte>)
    requires at <= |bits| && DecodeFrom(m, bits, at, n) == Decoded(s)
    ensures n > 0 ==> NextFrom(m, bits, at).Symbol?
    ensures s == [] <==> n == 0 || NextFrom(m, bits, at).value == HUFFMAN_EOF
    ensures s != [] ==> NextFrom(m, bits, at).value == s[0]
  {
  }

  lemma {:induction false} DecodedIsSpelled(m: Lookup, words: Words, bits: seq<bool>, at: nat, n: nat, s: seq<byte>)
    requires Reads(m, words) && at <= |bits| && DecodeFrom(m, bits, at, n) == Decoded(s)
    ensures Spelled(words, bits, at, n, s)
    decreases n
  {
    NoMoreDecoded(m, bits, at, n, s);
    if s == [] {
      NothingIsSpelled(m, words, bits, at, n);
    } else {
      var p := NextFrom(m, bits, at).at;
      DecodedCons(m, bits, at, p, n, s);
      DecodedIsSpelled(m, words, bits, p, n - 1, s[1..]);
      FirstIsSpelled(m, words, bits, at, p, n, s);
    }
  }

  /** Asked for n bytes, the decoder returns s exactly on the inputs that start with the spelling of s,
      whatever follows it. */
  lemma DecodesIff(m: Lookup, words: Words, bits: seq<bool>, n: nat, s: seq<byte>)
    requires Reads(m, words)
    ensures DecodeFrom(m, bits, 0, n) == Decoded(s) <==> |s| <= n && Spelling(words, n, s) <= bits
  {
    assert bits[0..] == bits;
    if DecodeFrom(m, bits, 0, n) == Decoded(s) {
      DecodedIsSpelled(m, words, bits, 0, n, s);
    }
    if |s| <= n && Spelling(words, n, s) <= bits {
      SpelledIsDecoded(m, words, bits, 0, n, s);
    }
  }

  /** The "invalid code" error cannot happen: the only failure is input that ends too early. */
  lemma {:induction false} NeverInvalid(m: Lookup, words: Words, bits: seq<bool>, at: nat, n: nat)
    requires Reads(m, words) && at <= |bits|
    ensures !DecodeFrom(m, bits, at, n).InvalidCode?
    decreases n
  {
    if n > 0 {
      var next := NextFrom(m, bits, at);
      if next.Symbol? && next.value != HUFFMAN_EOF {
        DecodeStep(m, bits, at, n);
        NeverInvalid(m, words, bits, next.at, n - 1);
      }
    }
  }

  /** No codeword is a prefix of another. */
  lemma PrefixFree(m: Lookup, words: Words, v: Value, w: Value)
    requires Reads(m, words) && words(v) <= words(w)
    ensures v == w
  {
    var bits := words(w);
    assert bits[0..] == bits;
    WordIsRead(m, words, bits, 0, v);
    WordIsRead(m, words, bits, 0, w);
  }

  /** Any twelve bits start with a codeword: the code leaves no path unused. */
  lemma Complete(m: Lookup, low: nat -> nat, bits: seq<bool>) returns (v: Value)
    requires IsCode(m, low) && |bits| >= MAX_CODE_LEN
    ensures Codeword(m, low, v) <= bits
  {
    AlwaysMatched(m, low, bits, 0, 0, 0);
    ReadIsCode(m, low, bits, 0);
    v := NextFrom(m, bits, 0).value;
    assert bits[0..NextFrom(m, bits, 0).at] == bits[..NextFrom(m, bits, 0).at];
  }
}
