/** The code table of the blackbox compression (internal/msp/huffman.go), in the order of the source. */
module HuffmanTable {

  const HUFFMAN_EOF := -1
  const MAX_CODE_LEN: nat := 12

  /** A byte or the end marker. */
  type Value = v: int | HUFFMAN_EOF <= v < 256

  datatype Entry = Entry(value: Value, codeLen: nat, code: nat)

  function Part0(): seq<Entry> {
    [
      Entry(0x00, 2, 0x0003), Entry(0x01, 3, 0x0005), Entry(0x02, 4, 0x0009), Entry(0x03, 5, 0x0011),
      Entry(0x04, 5, 0x0010), Entry(0x50, 5, 0x000f), Entry(0x05, 6, 0x001d), Entry(0x06, 6, 0x001c),
      Entry(0x07, 6, 0x001b), Entry(0x08, 6, 0x001a), Entry(0x10, 6, 0x0019), Entry(0x09, 7, 0x0031),
      Entry(0x0a, 7, 0x0030), Entry(0x0b, 7, 0x002f), Entry(0x0c, 7, 0x002e), Entry(0x0d, 7, 0x002d)
    ]
  }

  function Part1(): seq<Entry> {
    [
      Entry(0x0e, 7, 0x002c), Entry(0x0f, 7, 0x002b), Entry(0x11, 7, 0x002a), Entry(0x12, 7, 0x0029),
      Entry(0x13, 8, 0x0051), Entry(0x14, 8, 0x0050), Entry(0x15, 8, 0x004f), Entry(0x16, 8, 0x004e),
      Entry(0x17, 8, 0x004d), Entry(0x18, 8, 0x004c), Entry(0x19, 8, 0x004b), Entry(0x1a, 8, 0x004a),
      Entry(0x1b, 8, 0x0049), Entry(0x1c, 8, 0x0048), Entry(0x1d, 8, 0x0047), Entry(0x1e, 8, 0x0046)
    ]
  }

  function Part2(): seq<Entry> {
    [
      Entry(0x1f, 8, 0x0045), Entry(0x20, 8, 0x0044), Entry(0x21, 8, 0x0043), Entry(0x22, 8, 0x0042),
      Entry(0x23, 8, 0x0041), Entry(0x24, 8, 0x0040), Entry(0x30, 8, 0x003f), Entry(0x40, 8, 0x003e),
      Entry(0xf0, 8, 0x003d), Entry(0x25, 9, 0x0079), Entry(0x26, 9, 0x0078), Entry(0x27, 9, 0x0077),
      Entry(0x28, 9, 0x0076), Entry(0x29, 9, 0x0075), Entry(0x2a, 9, 0x0074), Entry(0x2b, 9, 0x0073)
    ]
  }

  function Part3(): seq<Entry> {
    [
      Entry(0x2c, 9, 0x0072), Entry(0x2d, 9, 0x0071), Entry(0x2e, 9, 0x0070), Entry(0x2f, 9, 0x006f),
      Entry(0x31, 9, 0x006e), Entry(0x32, 9, 0x006d), Entry(0x33, 9, 0x006c), Entry(0x34, 9, 0x006b),
      Entry(0x35, 9, 0x006a), Entry(0x36, 9, 0x0069), Entry(0x37, 9, 0x0068), Entry(0x38, 9, 0x0067),
      Entry(0x39, 9, 0x0066), Entry(0x3a, 9, 0x0065), Entry(0x3b, 9, 0x0064), Entry(0x3c, 9, 0x0063)
    ]
  }

  function Part4(): seq<Entry> {
    [
      Entry(0x3d, 9, 0x0062), Entry(0x3e, 9, 0x0061), Entry(0x3f, 9, 0x0060), Entry(0x41, 9, 0x005f),
      Entry(0x42, 9, 0x005e), Entry(0x43, 9, 0x005d), Entry(0x44, 9, 0x005c), Entry(0x45, 9, 0x005b),
      Entry(0x46, 9, 0x005a), Entry(0x47, 9, 0x0059), Entry(0x48, 9, 0x0058), Entry(0x49, 9, 0x0057),
      Entry(0x4c, 9, 0x0056), Entry(0x4f, 9, 0x0055), Entry(0x51, 9, 0x0054), Entry(0x80, 9, 0x0053)
    ]
  }

  function Part5(): seq<Entry> {
    [
      Entry(0xe0, 9, 0x0052), Entry(0xf1, 9, 0x0051), Entry(0xff, 9, 0x0050), Entry(0x4a, 10, 0x009f),
      Entry(0x4b, 10, 0x009e), Entry(0x4d, 10, 0x009d), Entry(0x4e, 10, 0x009c), Entry(0x52, 10, 0x009b),
      Entry(0x53, 10, 0x009a), Entry(0x54, 10, 0x0099), Entry(0x55, 10, 0x0098), Entry(0x56, 10, 0x0097),
      Entry(0x57, 10, 0x0096), Entry(0x58, 10, 0x0095), Entry(0x59, 10, 0x0094), Entry(0x5a, 10, 0x0093)
    ]
  }

  function Part6(): seq<Entry> {
    [
      Entry(0x5b, 10, 0x0092), Entry(0x5c, 10, 0x0091), Entry(0x5d, 10, 0x0090), Entry(0x5e, 10, 0x008f),
      Entry(0x5f, 10, 0x008e), Entry(0x60, 10, 0x008d), Entry(0x61, 10, 0x008c), Entry(0x62, 10, 0x008b),
      Entry(0x63, 10, 0x008a), Entry(0x64, 10, 0x0089), Entry(0x65, 10, 0x0088), Entry(0x66, 10, 0x0087),
      Entry(0x67, 10, 0x0086), Entry(0x68, 10, 0x0085), Entry(0x69, 10, 0x0084), Entry(0x6a, 10, 0x0083)
    ]
  }

  function Part7(): seq<Entry> {
    [
      Entry(0x6b, 10, 0x0082), Entry(0x6c, 10, 0x0081), Entry(0x6d, 10, 0x0080), Entry(0x6e, 10, 0x007f),
      Entry(0x6f, 10, 0x007e), Entry(0x70, 10, 0x007d), Entry(0x71, 10, 0x007c), Entry(0x72, 10, 0x007b),
      Entry(0x73, 10, 0x007a), Entry(0x74, 10, 0x0079), Entry(0x75, 10, 0x0078), Entry(0x76, 10, 0x0077),
      Entry(0x77, 10, 0x0076), Entry(0x78, 10, 0x0075), Entry(0x79, 10, 0x0074), Entry(0x7a, 10, 0x0073)
    ]
  }

  function Part8(): seq<Entry> {
    [
      Entry(0x7b, 10, 0x0072), Entry(0x7c, 10, 0x0071), Entry(0x7d, 10, 0x0070), Entry(0x7e, 10, 0x006f),
      Entry(0x7f, 10, 0x006e), Entry(0x81, 10, 0x006d), Entry(0x82, 10, 0x006c), Entry(0x83, 10, 0x006b),
      Entry(0x84, 10, 0x006a), Entry(0x85, 10, 0x0069), Entry(0x86, 10, 0x0068), Entry(0x87, 10, 0x0067),
      Entry(0x88, 10, 0x0066), Entry(0x89, 10, 0x0065), Entry(0x8a, 10, 0x0064), Entry(0x8b, 10, 0x0063)
    ]
  }

  function Part9(): seq<Entry> {
    [
      Entry(0x8c, 10, 0x0062), Entry(0x8d, 10, 0x0061), Entry(0x8e, 10, 0x0060), Entry(0x8f, 10, 0x005f),
      Entry(0x90, 10, 0x005e), Entry(0x91, 10, 0x005d), Entry(0x92, 10, 0x005c), Entry(0x93, 10, 0x005b),
      Entry(0x94, 10, 0x005a), Entry(0x95, 10, 0x0059), Entry(0x96, 10, 0x0058), Entry(0x97, 10, 0x0057),
      Entry(0x98, 10, 0x0056), Entry(0x99, 10, 0x0055), Entry(0x9a, 10, 0x0054), Entry(0x9b, 10, 0x0053)
    ]
  }

  function Part10(): seq<Entry> {
    [
      Entry(0x9c, 10, 0x0052), Entry(0x9d, 10, 0x0051), Entry(0x9e, 10, 0x0050), Entry(0x9f, 10, 0x004f),
      Entry(0xa0, 10, 0x004e), Entry(0xa1, 10, 0x004d), Entry(0xa2, 10, 0x004c), Entry(0xa3, 10, 0x004b),
      Entry(0xa4, 10, 0x004a), Entry(0xa5, 10, 0x0049), Entry(0xa6, 10, 0x0048), Entry(0xa7, 10, 0x0047),
      Entry(0xa8, 10, 0x0046), Entry(0xa9, 10, 0x0045), Entry(0xaa, 10, 0x0044), Entry(0xab, 10, 0x0043)
    ]
  }

  function Part11(): seq<Entry> {
    [
      Entry(0xac, 10, 0x0042), Entry(0xad, 10, 0x0041), Entry(0xae, 10, 0x0040), Entry(0xaf, 10, 0x003f),
      Entry(0xb0, 10, 0x003e), Entry(0xb1, 10, 0x003d), Entry(0xb2, 10, 0x003c), Entry(0xb3, 10, 0x003b),
      Entry(0xb4, 10, 0x003a), Entry(0xb5, 10, 0x0039), Entry(0xb6, 10, 0x0038), Entry(0xb7, 10, 0x0037),
      Entry(0xb8, 10, 0x0036), Entry(0xb9, 10, 0x0035), Entry(0xba, 10, 0x0034), Entry(0xbb, 10, 0x0033)
    ]
  }

  function Part12(): seq<Entry> {
    [
      Entry(0xbc, 10, 0x0032), Entry(0xbd, 10, 0x0031), Entry(0xbe, 10, 0x0030), Entry(0xbf, 10, 0x002f),
      Entry(0xc0, 10, 0x002e), Entry(0xc1, 10, 0x002d), Entry(0xc2, 10, 0x002c), Entry(0xc3, 10, 0x002b),
      Entry(0xc4, 10, 0x002a), Entry(0xc5, 10, 0x0029), Entry(0xc6, 10, 0x0028), Entry(0xc7, 10, 0x0027),
      Entry(0xc8, 10, 0x0026), Entry(0xc9, 10, 0x0025), Entry(0xca, 10, 0x0024), Entry(0xcb, 10, 0x0023)
    ]
  }

  function Part13(): seq<Entry> {
    [
      Entry(0xcc, 10, 0x0022), Entry(0xcd, 10, 0x0021), Entry(0xce, 10, 0x0020), Entry(0xcf, 10, 0x001f),
      Entry(0xd0, 10, 0x001e), Entry(0xd1, 10, 0x001d), Entry(0xd2, 10, 0x001c), Entry(0xd3, 10, 0x001b),
      Entry(0xd4, 10, 0x001a), Entry(0xd6, 10, 0x0019), Entry(0xd7, 10, 0x0018), Entry(0xd8, 10, 0x0017),
      Entry(0xd9, 10, 0x0016), Entry(0xda, 10, 0x0015), Entry(0xdb, 10, 0x0014), Entry(0xdc, 10, 0x0013)
    ]
  }

  function Part14(): seq<Entry> {
    [
      Entry(0xde, 10, 0x0012), Entry(0xdf, 10, 0x0011), Entry(0xe1, 10, 0x0010), Entry(0xe2, 10, 0x000f),
      Entry(0xe4, 10, 0x000e), Entry(0xef, 10, 0x000d), Entry(0xd5, 11, 0x0019), Entry(0xdd, 11, 0x0018),
      Entry(0xe3, 11, 0x0017), Entry(0xe5, 11, 0x0016), Entry(0xe6, 11, 0x0015), Entry(0xe7, 11, 0x0014),
      Entry(0xe8, 11, 0x0013), Entry(0xe9, 11, 0x0012), Entry(0xea, 11, 0x0011), Entry(0xeb, 11, 0x0010)
    ]
  }

  function Part15(): seq<Entry> {
    [
      Entry(0xec, 11, 0x000f), Entry(0xed, 11, 0x000e), Entry(0xee, 11, 0x000d), Entry(0xf2, 11, 0x000c),
      Entry(0xf3, 11, 0x000b), Entry(0xf4, 11, 0x000a), Entry(0xf5, 11, 0x0009), Entry(0xf6, 11, 0x0008),
      Entry(0xf7, 11, 0x0007), Entry(0xf8, 11, 0x0006), Entry(0xfa, 11, 0x0005), Entry(0xfb, 11, 0x0004),
      Entry(0xfc, 11, 0x0003), Entry(0xfd, 11, 0x0002), Entry(0xfe, 11, 0x0001), Entry(0xf9, 12, 0x0001)
    ]
  }

  function Part16(): seq<Entry> {
    [
      Entry(HUFFMAN_EOF, 12, 0x0000)
    ]
  }

  function Front(): seq<Entry> {
    Part0() + Part1() + Part2() + Part3() + Part4() + Part5() + Part6() + Part7()
  }

  function Back(): seq<Entry> {
    Part8() + Part9() + Part10() + Part11() + Part12() + Part13() + Part14() + Part15() + Part16()
  }

  /** rawTree: 257 entries, one per byte value and one for the end of the data. */
  function RawTree(): seq<Entry> {
    Front() + Back()
  }

  // ---------- The table is canonical ----------

  /** The lowest code of each length; a length with no code has one above its highest. */
  function Lowest(codeLen: nat): nat {
    match codeLen
    case 0 => 1
    case 1 => 2
    case 2 => 3
    case 3 => 5
    case 4 => 9
    case 5 => 15
    case 6 => 25
    case 7 => 41
    case 8 => 61
    case 9 => 80
    case 10 => 13
    case 11 => 1
    case _ => 0
  }

  /** The highest code of each length is the longest path that no shorter code has cut off. */
  function Highest(codeLen: nat): int
    requires codeLen > 0
  {
    2 * Lowest(codeLen - 1) - 1
  }

  /** The index of the first entry of each length. */
  function Start(codeLen: nat): nat {
    match codeLen
    case 0 => 0
    case 1 => 0
    case 2 => 0
    case 3 => 1
    case 4 => 2
    case 5 => 3
    case 6 => 6
    case 7 => 11
    case 8 => 20
    case 9 => 41
    case 10 => 83
    case 11 => 230
    case 12 => 255
    case _ => 257
  }

  /** Where the entry with a given value is. The values come in runs. */
  function IndexOf(value: int): int {
    if value <= 127 then
      if value <= 63 then
        if value <= 16 then
          if value <= 8 then
            if value <= 4 then
              if value <= -1 then value + 257 else value
            else
              value + 1
          else
            if value <= 15 then value + 2 else value - 6
        else
          if value <= 47 then
            if value <= 36 then value + 1 else value + 4
          else
            if value <= 48 then value - 10 else value + 3
      else
        if value <= 78 then
          if value <= 75 then
            if value <= 73 then
              if value <= 64 then value - 25 else value + 2
            else
              value + 9
          else
            if value <= 76 then value else value + 8
        else
          if value <= 80 then
            if value <= 79 then value - 2 else value - 75
          else
            if value <= 81 then value - 3 else value + 5
    else
      if value <= 227 then
        if value <= 221 then
          if value <= 213 then
            if value <= 212 then
              if value <= 128 then value - 49 else value + 4
            else
              value + 17
          else
            if value <= 220 then value + 3 else value + 10
        else
          if value <= 224 then
            if value <= 223 then value + 2 else value - 144
          else
            if value <= 226 then value + 1 else value + 5
      else
        if value <= 241 then
          if value <= 239 then
            if value <= 238 then
              if value <= 228 then value else value + 4
            else
              value - 10
          else
            if value <= 240 then value - 200 else value - 160
        else
          if value <= 249 then
            if value <= 248 then value + 1 else value + 6
          else
            if value <= 254 then value else value - 173
  }

  /** The value of the entry at an index. */
  function ValueAt(index: int): int {
    if index <= 81 then
      if index <= 40 then
        if index <= 17 then
          if index <= 9 then
            if index <= 5 then
              if index <= 4 then index else index + 75
            else
              index - 1
          else
            if index <= 10 then index + 6 else index - 2
        else
          if index <= 38 then
            if index <= 37 then index - 1 else index + 10
          else
            if index <= 39 then index + 25 else index + 200
      else
        if index <= 77 then
          if index <= 75 then
            if index <= 66 then
              if index <= 51 then index - 4 else index - 3
            else
              index - 2
          else
            if index <= 76 then index else index + 2
        else
          if index <= 79 then
            if index <= 78 then index + 3 else index + 49
          else
            if index <= 80 then index + 144 else index + 160
    else
      if index <= 228 then
        if index <= 216 then
          if index <= 86 then
            if index <= 84 then
              if index <= 82 then index + 173 else index - 9
            else
              index - 8
          else
            if index <= 132 then index - 5 else index - 4
        else
          if index <= 225 then
            if index <= 223 then index - 3 else index - 2
          else
            if index <= 227 then index - 1 else index
      else
        if index <= 242 then
          if index <= 231 then
            if index <= 230 then
              if index <= 229 then index + 10 else index - 17
            else
              index - 10
          else
            if index <= 232 then index - 5 else index - 4
        else
          if index <= 254 then
            if index <= 249 then index - 1 else index
          else
            if index <= 255 then index - 6 else index - 257
  }

  /** The entry belongs at index i of the canonical table. */
  predicate InPlace(e: Entry, i: nat) {
    && 2 <= e.codeLen <= MAX_CODE_LEN
    && Start(e.codeLen) <= i < Start(e.codeLen + 1)
    && e.code == Highest(e.codeLen) - (i - Start(e.codeLen))
    && e.value == ValueAt(i)
  }

  ghost predicate AllInPlace(entries: seq<Entry>, at: nat) {
    forall i :: 0 <= i < |entries| ==> InPlace(entries[i], at + i)
  }

  lemma JoinInPlace(a: seq<Entry>, b: seq<Entry>, at: nat)
    requires AllInPlace(a, at) && AllInPlace(b, at + |a|)
    ensures AllInPlace(a + b, at)
  {
    forall i | 0 <= i < |a + b|
      ensures InPlace((a + b)[i], at + i)
    {
      if i < |a| {
        assert InPlace(a[i], at + i);
      } else {
        assert InPlace(b[i - |a|], at + |a| + (i - |a|));
      }
    }
  }

  lemma Part0InPlace()
    ensures |Part0()| == 16 && AllInPlace(Part0(), 0)
  {
  }

  lemma Part1InPlace()
    ensures |Part1()| == 16 && AllInPlace(Part1(), 16)
  {
  }

  lemma Part2InPlace()
    ensures |Part2()| == 16 && AllInPlace(Part2(), 32)
  {
  }

  lemma Part3InPlace()
    ensures |Part3()| == 16 && AllInPlace(Part3(), 48)
  {
  }

  lemma Part4InPlace()
    ensures |Part4()| == 16 && AllInPlace(Part4(), 64)
  {
  }

  lemma Part5InPlace()
    ensures |Part5()| == 16 && AllInPlace(Part5(), 80)
  {
  }

  lemma Part6InPlace()
    ensures |Part6()| == 16 && AllInPlace(Part6(), 96)
  {
  }

  lemma Part7InPlace()
    ensures |Part7()| == 16 && AllInPlace(Part7(), 112)
  {
  }

  lemma Part8InPlace()
    ensures |Part8()| == 16 && AllInPlace(Part8(), 128)
  {
  }

  lemma Part9InPlace()
    ensures |Part9()| == 16 && AllInPlace(Part9(), 144)
  {
  }

  lemma Part10InPlace()
    ensures |Part10()| == 16 && AllInPlace(Part10(), 160)
  {
  }

  lemma Part11InPlace()
    ensures |Part11()| == 16 && AllInPlace(Part11(), 176)
  {
  }

  lemma Part12InPlace()
    ensures |Part12()| == 16 && AllInPlace(Part12(), 192)
  {
  }

  lemma Part13InPlace()
    ensures |Part13()| == 16 && AllInPlace(Part13(), 208)
  {
  }

  lemma Part14InPlace()
    ensures |Part14()| == 16 && AllInPlace(Part14(), 224)
  {
  }

  lemma Part15InPlace()
    ensures |Part15()| == 16 && AllInPlace(Part15(), 240)
  {
  }

  lemma Part16InPlace()
    ensures |Part16()| == 1 && AllInPlace(Part16(), 256)
  {
  }

  lemma FrontInPlace()
    ensures |Front()| == 128 && AllInPlace(Front(), 0)
  {
    hide AllInPlace, Part0, Part1, Part2, Part3, Part4, Part5, Part6, Part7;
    Part0InPlace();
    var t := Part0();
    Part1InPlace();
    JoinInPlace(t, Part1(), 0);
    t := t + Part1();
    Part2InPlace();
    JoinInPlace(t, Part2(), 0);
    t := t + Part2();
    Part3InPlace();
    JoinInPlace(t, Part3(), 0);
    t := t + Part3();
    Part4InPlace();
    JoinInPlace(t, Part4(), 0);
    t := t + Part4();
    Part5InPlace();
    JoinInPlace(t, Part5(), 0);
    t := t + Part5();
    Part6InPlace();
    JoinInPlace(t, Part6(), 0);
    t := t + Part6();
    Part7InPlace();
    JoinInPlace(t, Part7(), 0);
    t := t + Part7();
    assert t == Front();
  }

  lemma BackInPlace()
    ensures |Back()| == 129 && AllInPlace(Back(), 128)
  {
    hide AllInPlace, Part8, Part9, Part10, Part11, Part12, Part13, Part14, Part15, Part16;
    Part8InPlace();
    var t := Part8();
    Part9InPlace();
    JoinInPlace(t, Part9(), 128);
    t := t + Part9();
    Part10InPlace();
    JoinInPlace(t, Part10(), 128);
    t := t + Part10();
    Part11InPlace();
    JoinInPlace(t, Part11(), 128);
    t := t + Part11();
    Part12InPlace();
    JoinInPlace(t, Part12(), 128);
    t := t + Part12();
    Part13InPlace();
    JoinInPlace(t, Part13(), 128);
    t := t + Part13();
    Part14InPlace();
    JoinInPlace(t, Part14(), 128);
    t := t + Part14();
    Part15InPlace();
    JoinInPlace(t, Part15(), 128);
    t := t + Part15();
    Part16InPlace();
    JoinInPlace(t, Part16(), 128);
    t := t + Part16();
    assert t == Back();
  }

  /** Every entry is in place, so codes are assigned as Lowest and Highest say. */
  lemma RawTreeInPlace()
    ensures |RawTree()| == 257 && AllInPlace(RawTree(), 0)
  {
    FrontInPlace();
    BackInPlace();
    JoinInPlace(Front(), Back(), 0);
  }

  lemma LowIndexInverts(v: int)
    requires HUFFMAN_EOF <= v < 0x60
    ensures 0 <= IndexOf(v) < 257 && ValueAt(IndexOf(v)) == v
  {
  }

  lemma HighIndexInverts(v: int)
    requires 0x60 <= v < 256
    ensures 0 <= IndexOf(v) < 257 && ValueAt(IndexOf(v)) == v
  {
  }

  lemma IndexInverts(v: int)
    requires HUFFMAN_EOF <= v < 256
    ensures 0 <= IndexOf(v) < 257 && ValueAt(IndexOf(v)) == v
  {
    if v < 0x60 {
      LowIndexInverts(v);
    } else {
      HighIndexInverts(v);
    }
  }

  lemma ValueInverts(i: int)
    requires 0 <= i < 257
    ensures IndexOf(ValueAt(i)) == i
  {
    if i < 100 {
      LowValueInverts(i);
    } else {
      HighValueInverts(i);
    }
  }

  lemma LowValueInverts(i: int)
    requires 0 <= i < 100
    ensures IndexOf(ValueAt(i)) == i
  {
  }

  lemma HighValueInverts(i: int)
    requires 100 <= i < 257
    ensures IndexOf(ValueAt(i)) == i
  {
  }

  /** Every byte value, and the end marker, has its entry. */
  lemma EntryOf(v: int)
    requires HUFFMAN_EOF <= v < 256
    ensures |RawTree()| == 257 && 0 <= IndexOf(v) < 257 && RawTree()[IndexOf(v)].value == v
  {
    RawTreeInPlace();
    IndexInverts(v);
    assert InPlace(RawTree()[IndexOf(v)], 0 + IndexOf(v));
  }
}
