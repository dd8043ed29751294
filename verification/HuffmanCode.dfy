/** The lookup built from the code table (internal/msp/huffman.go), and decoding of packed bytes. */
module HuffmanCode {
  import opened Bytes
  import opened Huffman
  import opened HuffmanTable
  import Registers

  // ---------- The lookup ----------

  function Key(e: Entry): (nat, nat) {
    (e.codeLen, e.code)
  }

  /** The table in any order: init sorts it before it fills the lookup. */
  ghost predicate SameEntries(tree: seq<Entry>) {
    forall e :: e in tree <==> e in RawTree()
  }

  /** The lookup has exactly the entries of the table. */
  ghost predicate Lists(m: Lookup, tree: seq<Entry>) {
    && (forall e :: e in tree ==> Key(e) in m && m[Key(e)] == e.value)
    && (forall k :: k in m ==> Entry(m[k], k.0, k.1) in tree)
  }

  /** No two entries have the same code. */
  ghost predicate Distinct(tree: seq<Entry>) {
    forall d, e :: d in tree && e in tree && Key(d) == Key(e) ==> d == e
  }

  // ---------- The table is a complete prefix code ----------

  /** The code at a place of the table is within the range of its length, and tells the place. */
  lemma PlaceOfCode(e: Entry, i: nat)
    requires InPlace(e, i)
    ensures InRange(Lowest, e.codeLen, e.code) && i == Place(e.codeLen, e.code)
  {
    Runs(e.codeLen);
  }

  function Place(codeLen: nat, code: nat): int
    requires codeLen > 0
  {
    Start(codeLen) + Highest(codeLen) - code
  }

  lemma Runs(n: nat)
    requires 2 <= n <= MAX_CODE_LEN
    ensures Start(n + 1) == Start(n) + Highest(n) - Lowest(n) + 1 <= 257
  {
  }

  /** The code of a length at a place. */
  lemma CodeOfPlace(e: Entry, n: nat, code: nat)
    requires InRange(Lowest, n, code) && Place(n, code) >= 0 && InPlace(e, Place(n, code))
    ensures Key(e) == (n, code)
  {
    StartGrows(n, e.codeLen);
  }

  lemma StartGrows(n: nat, k: nat)
    requires 2 <= n <= MAX_CODE_LEN && 2 <= k <= MAX_CODE_LEN
    ensures n < k ==> Start(n + 1) <= Start(k)
    ensures k < n ==> Start(k + 1) <= Start(n)
  {
  }

  lemma RangesStart(n: nat, code: nat)
    requires InRange(Lowest, n, code)
    ensures 2 <= n && Start(n) <= Place(n, code) < Start(n + 1) <= 257
  {
    if n >= 2 {
      Runs(n);
    }
  }

  lemma PlaceOfEntry(e: Entry) returns (i: nat)
    requires e in RawTree()
    ensures i < |RawTree()| == 257 && RawTree()[i] == e && InPlace(e, i)
  {
    RawTreeInPlace();
    i :| 0 <= i < |RawTree()| && RawTree()[i] == e;
    assert InPlace(RawTree()[i], 0 + i);
  }

  lemma EntryAtPlace(n: nat, code: nat) returns (e: Entry)
    requires InRange(Lowest, n, code)
    ensures e in RawTree() && Key(e) == (n, code)
  {
    RangesStart(n, code);
    RawTreeInPlace();
    e := RawTree()[Place(n, code)];
    assert InPlace(RawTree()[Place(n, code)], 0 + Place(n, code));
    CodeOfPlace(e, n, code);
  }

  lemma RawTreeIsDistinct()
    ensures Distinct(RawTree())
  {
    forall d, e | d in RawTree() && e in RawTree() && Key(d) == Key(e)
      ensures d == e
    {
      var i := PlaceOfEntry(d);
      var j := PlaceOfEntry(e);
      PlaceOfCode(d, i);
      PlaceOfCode(e, j);
    }
  }

  lemma LowestShape()
    ensures Shape(Lowest)
  {
  }

  lemma SameValueSameEntry(d: Entry, e: Entry)
    requires d in RawTree() && e in RawTree() && d.value == e.value
    ensures d == e
  {
    var i := PlaceOfEntry(d);
    var j := PlaceOfEntry(e);
    ValueInverts(i);
    ValueInverts(j);
  }

  /** The lookup that init builds is a complete prefix code for the 256 byte values and the end marker. */
  lemma LookupIsCode(m: Lookup, tree: seq<Entry>)
    requires SameEntries(tree) && Lists(m, tree)
    ensures IsCode(m, Lowest)
  {
    LowestShape();
    forall n: nat, code: nat
      ensures (n, code) in m <==> InRange(Lowest, n, code)
    {
      if (n, code) in m {
        var e := Entry(m[(n, code)], n, code);
        var i := PlaceOfEntry(e);
        PlaceOfCode(e, i);
      }
      if InRange(Lowest, n, code) {
        var e := EntryAtPlace(n, code);
        assert Key(e) in m;
      }
    }
    forall v: Value
      ensures HasCode(m, v)
    {
      EntryOf(v);
      var e := RawTree()[IndexOf(v)];
      assert Key(e) in m && m[Key(e)] == v;
    }
    forall k, l | k in m && l in m && m[k] == m[l]
      ensures k == l
    {
      SameValueSameEntry(Entry(m[k], k.0, k.1), Entry(m[l], l.0, l.1));
    }
  }

  // ---------- Building it ----------

  /** The last part of init, for the table in any order: the lookup has exactly its entries, and is a complete
      prefix code. */
  method BuildLookup(tree: seq<Entry>) returns (m: Lookup)
    requires SameEntries(tree)
    ensures Lists(m, tree) && IsCode(m, Lowest)
  {
    hide SameEntries, RawTree, Lists, IsCode;
    TreeIsDistinct(tree);
    m := map[];
    NothingListed();
    for i := 0 to |tree|
      invariant Lists(m, tree[..i])
    {
      var e := tree[i];
      ListsNext(m, tree, i);
      m := m[Key(e) := e.value];
    }
    WholePrefix(tree);
    LookupIsCode(m, tree);
  }

  lemma TreeIsDistinct(tree: seq<Entry>)
    requires SameEntries(tree)
    ensures Distinct(tree)
  {
    hide RawTree;
    RawTreeIsDistinct();
  }

  lemma NothingListed()
    ensures Lists(map[], [])
  {
  }

  lemma ListsNext(m: Lookup, tree: seq<Entry>, i: nat)
    requires i < |tree| && Distinct(tree) && Lists(m, tree[..i])
    ensures Lists(m[Key(tree[i]) := tree[i].value], tree[..i + 1])
  {
    assert tree[..i + 1] == tree[..i] + [tree[i]];
  }

  // ---------- Packed bytes ----------

  lemma HalfOfValue(n: nat, bit: bool)
    ensures var b := 2 * n + if bit then 1 else 0; b / 2 == n && (b % 2 == 1) == bit
  {
  }

  lemma {:induction false} DigitOfValue(bits: seq<bool>, i: nat)
    requires i < |bits|
    ensures BitOf(Registers.Value(bits), |bits| - 1 - i) == bits[i]
  {
    var init, last := bits[..|bits| - 1], bits[|bits| - 1];
    HalfOfValue(Registers.Value(init), last);
    if i < |init| {
      DigitOfValue(init, i);
      assert init[i] == bits[i];
    }
  }

  function PackByte(bits: seq<bool>): byte
    requires |bits| == 8
  {
    Registers.ValueBound(bits);
    assert Registers.Pow2(8) == 256;
    Registers.Value(bits)
  }

  /** The bits in whole bytes, filled up with padding. */
  function Pack(bits: seq<bool>, padding: bool): (input: seq<byte>)
    ensures |input| == (|bits| + 7) / 8
  {
    if bits == [] then []
    else if |bits| < 8 then [PackByte(bits + seq(8 - |bits|, _ => padding))]
    else [PackByte(bits[..8])] + Pack(bits[8..], padding)
  }

  lemma InputBitsCons(b: byte, rest: seq<byte>)
    ensures InputBits([b] + rest) == InputBits([b]) + InputBits(rest)
  {
    forall p | 0 <= p < 8 * |rest|
      ensures InputBits([b] + rest)[8 + p] == InputBits(rest)[p]
    {
      assert (8 + p) / 8 == 1 + p / 8 && (8 + p) % 8 == p % 8;
      assert ([b] + rest)[1 + p / 8] == rest[p / 8];
    }
  }

  lemma BitsOfPacked(bits: seq<bool>)
    requires |bits| == 8
    ensures InputBits([PackByte(bits)]) == bits
  {
    forall i | 0 <= i < 8
      ensures InputBits([PackByte(bits)])[i] == bits[i]
    {
      DigitOfValue(bits, i);
    }
  }

  lemma PrefixOfSum<T>(a: seq<T>, s: seq<T>, t: seq<T>, n: nat)
    requires n <= |s| && s[..n] == a && s[n..] <= t
    ensures s <= a + t
  {
    assert s == a + s[n..];
  }

  lemma {:induction false} PackKeepsBits(bits: seq<bool>, padding: bool)
    ensures bits <= InputBits(Pack(bits, padding))
  {
    if bits == [] {
    } else if |bits| < 8 {
      BitsOfPacked(bits + seq(8 - |bits|, _ => padding));
    } else {
      BitsOfPacked(bits[..8]);
      PackKeepsBits(bits[8..], padding);
      InputBitsCons(PackByte(bits[..8]), Pack(bits[8..], padding));
      PrefixOfSum(InputBits([PackByte(bits[..8])]), bits, InputBits(Pack(bits[8..], padding)), 8);
    }
  }

  // ---------- The source's decoder ----------

  /** Decoding inverts encoding: packed into bytes in any way, followed by anything, the spelling of s is
      decoded to s; and nothing else is. */
  lemma DecodingInvertsEncoding(m: Lookup, tree: seq<Entry>, input: seq<byte>, n: nat, s: seq<byte>)
    requires SameEntries(tree) && Lists(m, tree)
    ensures DecodeFrom(m, InputBits(input), 0, n) == Decoded(s)
       <==> |s| <= n && Spelling(WordsOf(m, Lowest), n, s) <= InputBits(input)
  {
    LookupIsCode(m, tree);
    CodeReads(m, Lowest);
    DecodesIff(m, WordsOf(m, Lowest), InputBits(input), n, s);
  }

  lemma RoundTrip(m: Lookup, tree: seq<Entry>, n: nat, s: seq<byte>, padding: bool)
    requires SameEntries(tree) && Lists(m, tree) && |s| <= n
    ensures DecodeFrom(m, InputBits(Pack(Spelling(WordsOf(m, Lowest), n, s), padding)), 0, n) == Decoded(s)
  {
    var bits := Spelling(WordsOf(m, Lowest), n, s);
    PackKeepsBits(bits, padding);
    DecodingInvertsEncoding(m, tree, Pack(bits, padding), n, s);
  }

  /** A known input: the codes 11 of 0x00 and 101 of 0x01, padded with zeros, are the byte 0xE8. */
  lemma KnownInput(m: Lookup, tree: seq<Entry>)
    requires SameEntries(tree) && Lists(m, tree)
    ensures DecodeFrom(m, InputBits([0xE8]), 0, 2) == Decoded([0x00, 0x01])
  {
    hide DecodeFrom;
    KnownBits();
    KnownDecoding(m, tree, InputBits([0xE8]));
  }

  lemma KnownDecoding(m: Lookup, tree: seq<Entry>, bits: seq<bool>)
    requires SameEntries(tree) && Lists(m, tree)
    requires |bits| >= 5 && bits[..5] == [true, true, true, false, true]
    ensures DecodeFrom(m, bits, 0, 2) == Decoded([0x00, 0x01])
  {
    hide SameEntries, Lists, NextValue, DecodeFrom;
    KnownCodes(m, tree);
    FirstFive(bits);
    ReadOn(m, bits, 0, 0, 0, 1);
    ReadLast(m, bits, 1, 1, 1, 3);
    ReadOn(m, bits, 2, 0, 0, 1);
    ReadOn(m, bits, 3, 1, 1, 2);
    ReadLast(m, bits, 4, 2, 2, 5);
    DecodeStep(m, bits, 0, 2);
    DecodeStep(m, bits, 2, 1);
    NoMore(m, bits, 5);
  }

  lemma FirstFive(bits: seq<bool>)
    requires |bits| >= 5 && bits[..5] == [true, true, true, false, true]
    ensures bits[0] && bits[1] && bits[2] && !bits[3] && bits[4]
  {
    assert bits[..5][0] && bits[..5][1] && bits[..5][2] && !bits[..5][3] && bits[..5][4];
  }

  lemma NoMore(m: Lookup, bits: seq<bool>, at: nat)
    requires at <= |bits|
    ensures DecodeFrom(m, bits, at, 0) == Decoded([])
  {
  }

  lemma KnownBits()
    ensures InputBits([0xE8])[..5] == [true, true, true, false, true]
  {
    assert BitOf(0xE8, 7) && BitOf(0xE8, 6) && BitOf(0xE8, 5) && !BitOf(0xE8, 4) && BitOf(0xE8, 3);
  }

  lemma KnownCodes(m: Lookup, tree: seq<Entry>)
    requires SameEntries(tree) && Lists(m, tree)
    ensures (1, 1) !in m && (2, 3) in m && m[(2, 3)] == 0x00
    ensures (2, 2) !in m && (3, 5) in m && m[(3, 5)] == 0x01
  {
    LookupIsCode(m, tree);
    assert !InRange(Lowest, 1, 1) && !InRange(Lowest, 2, 2);
    FirstEntries();
    hide RawTree, IsCode;
    assert Key(Entry(0x00, 2, 3)) in m && Key(Entry(0x01, 3, 5)) in m;
  }

  lemma FirstEntries()
    ensures Entry(0x00, 2, 3) in RawTree() && Entry(0x01, 3, 5) in RawTree()
  {
    FrontInPlace();
    BackInPlace();
    InFront(Entry(0x00, 2, 3));
    InFront(Entry(0x01, 3, 5));
  }

  lemma InFront(e: Entry)
    requires e in Part0()
    ensures e in RawTree()
  {
    hide Part0;
    assert e in Front();
  }

  /** Decoding fails only where the input ends before a spelling does, and never with "invalid code". */
  lemma FailsIff(m: Lookup, tree: seq<Entry>, input: seq<byte>, n: nat)
    requires SameEntries(tree) && Lists(m, tree)
    ensures !DecodeFrom(m, InputBits(input), 0, n).InvalidCode?
    ensures DecodeFrom(m, InputBits(input), 0, n) == EndOfInput
       <==> forall s: seq<byte> :: !Spelled(WordsOf(m, Lowest), InputBits(input), 0, n, s)
  {
    LookupIsCode(m, tree);
    CodeReads(m, Lowest);
    var words, bits := WordsOf(m, Lowest), InputBits(input);
    NeverInvalid(m, words, bits, 0, n);
    WholeIsPrefix(bits);
    hide Reads, IsCode, DecodeFrom, InputBits, Spelling, WordsOf, SameEntries, Lists;
    if DecodeFrom(m, bits, 0, n) == EndOfInput {
      forall s: seq<byte> ensures !Spelled(words, bits, 0, n, s) {
        DecodesIff(m, words, bits, n, s);
      }
    } else {
      DecodesIff(m, words, bits, n, DecodeFrom(m, bits, 0, n).out);
      assert Spelled(words, bits, 0, n, DecodeFrom(m, bits, 0, n).out);
    }
  }

  lemma WholeIsPrefix<T>(s: seq<T>)
    ensures s[0..] == s
  {
  }
}
