/** CRC-8/DVB-S2 and the XOR checksum (internal/msp/crc.go). */
module Crc {
  import opened Bytes
  import opened Registers

  // ---------- What the code computes ----------

  /** Polynomial 0xD5: x^8 + x^7 + x^6 + x^4 + x^2 + 1 without its leading term. */
  function ShiftBit(crc: Reg): Reg {
    if Top(crc) then Reg((crc.v << 1) ^ 0xD5) else Shl(crc)
  }

  function ShiftBits(crc: Reg, n: nat): Reg {
    if n == 0 then crc else ShiftBit(ShiftBits(crc, n - 1))
  }

  function TableEntry(i: Reg): Reg {
    ShiftBits(i, 8)
  }

  /** The checksum of v2 frames: one table step per byte. */
  function Dvb(data: seq<byte>, initial: Reg): Reg {
    if data == [] then initial
    else TableEntry(Xor(Dvb(data[..|data| - 1], initial), RegOf(data[|data| - 1])))
  }

  /** The checksum of v1 frames. */
  function XorAll(data: seq<byte>): Reg {
    if data == [] then Reg(0) else Xor(XorAll(data[..|data| - 1]), RegOf(data[|data| - 1]))
  }

  /** The checksum function of each protocol version. */
  function Checksum(version: int, body: seq<byte>): byte {
    ToByte(if version == 1 then XorAll(body) else Dvb(body, Reg(0)))
  }

  const TABLE_SIZE: nat := 256

  /** The first n entries of the table. */
  function Entries(n: nat): (e: seq<Reg>)
    requires n <= 256
    ensures |e| == n
  {
    if n == 0 then [] else Entries(n - 1) + [TableEntry(RegOf(n - 1))]
  }

  lemma {:induction false} EntryAt(n: nat, i: byte)
    requires i < n <= 256
    ensures Entries(n)[i] == TableEntry(RegOf(i))
  {
    if i < n - 1 {
      EntryAt(n - 1, i);
    }
  }

  ghost predicate TableReady(table: array<Reg>)
    reads table
  {
    table.Length == TABLE_SIZE && forall i: byte :: 0 <= i < 256 ==> table[i] == TableEntry(RegOf(i))
  }

  method InitEntry(i: Reg) returns (crc: Reg)
    ensures crc == TableEntry(i)
  {
    crc := i;
    for bit := 0 to 8
      invariant crc == ShiftBits(i, bit)
    {
      if crc.v & 0x80 != 0 {
        crc := Reg((crc.v << 1) ^ 0xD5);
      } else {
        crc := Reg(crc.v << 1);
      }
    }
  }

  method InitTable(table: array<Reg>)
    requires table.Length == TABLE_SIZE
    modifies table
    ensures TableReady(table)
  {
    for i := 0 to TABLE_SIZE
      invariant table[..i] == Entries(i)
    {
      var entry := InitEntry(RegOf(i));
      table[i] := entry;
    }
    forall i: byte | 0 <= i < 256
      ensures table[i] == TableEntry(RegOf(i))
    {
      EntryAt(TABLE_SIZE, i);
      assert table[i] == table[..TABLE_SIZE][i];
    }
  }

  method Crc8Xor(data: seq<byte>) returns (crc: Reg)
    ensures crc == XorAll(data)
  {
    crc := Reg(0);
    for i := 0 to |data|
      invariant crc == XorAll(data[..i])
    {
      PrefixNext(data, i);
      crc := Xor(crc, RegOf(data[i]));
    }
    WholePrefix(data);
  }

  method Lookup(table: array<Reg>, index: Reg) returns (entry: Reg)
    requires TableReady(table)
    ensures entry == TableEntry(index)
  {
    RegOfByte(index);
    entry := table[ToByte(index)];
  }

  method Crc8DvbS2(table: array<Reg>, data: seq<byte>, initial: Reg) returns (crc: Reg)
    requires TableReady(table)
    ensures crc == Dvb(data, initial)
  {
    crc := initial;
    for i := 0 to |data|
      invariant crc == Dvb(data[..i], initial)
    {
      PrefixNext(data, i);
      crc := Lookup(table, Xor(crc, RegOf(data[i])));
    }
    WholePrefix(data);
  }

  // ---------- The shift register, one message bit at a time ----------

  function SerialStep(reg: Reg, bit: bool): Reg {
    if Top(reg) != bit then Reg((reg.v << 1) ^ 0xD5) else Shl(reg)
  }

  function Serial(bits: seq<bool>, reg: Reg): Reg {
    if bits == [] then reg
    else SerialStep(Serial(bits[..|bits| - 1], reg), bits[|bits| - 1])
  }

  lemma {:induction false} SerialConcat(a: seq<bool>, b: seq<bool>, reg: Reg)
    ensures Serial(a + b, reg) == Serial(b, Serial(a, reg))
  {
    if b == [] {
      assert a + b == a;
    } else {
      var n := |b| - 1;
      SerialConcat(a, b[..n], reg);
      assert (a + b)[..|a + b| - 1] == a + b[..n];
    }
  }

  lemma ShiftBitParts(r: Reg)
    ensures ShiftBit(r) == Xor(Shl(r), Unit(Top(r), 0xD5))
  {
  }

  lemma SerialStepParts(r: Reg, c: bool)
    ensures SerialStep(r, c) == Xor(ShiftBit(r), Unit(c, 0xD5))
  {
  }

  /** Folding a byte into the register first and shifting after is the same as feeding its top bit. */
  lemma ShiftFeeds(reg: Reg, b: Reg)
    ensures ShiftBit(Xor(reg, b)) == Xor(SerialStep(reg, Top(b)), Shl(b))
  {
    ShiftBitParts(Xor(reg, b));
    ShiftBitParts(reg);
    SerialStepParts(reg, Top(b));
    ShlOfXor(reg, b);
    TopOfXor(reg, b);
    UnitLinear(Top(reg), Top(b), 0xD5);
    XorSwap(Shl(reg), Shl(b), Unit(Top(reg), 0xD5), Unit(Top(b), 0xD5));
  }

  lemma {:induction false} ShiftsFeed(reg: Reg, b: Reg, k: nat)
    requires k <= 8
    ensures ShiftBits(Xor(reg, b), k) == Xor(Serial(RegBits(b)[..k], reg), ShiftLeft(b, k))
  {
    if k > 0 {
      ShiftsFeed(reg, b, k - 1);
      ShiftFeeds(Serial(RegBits(b)[..k - 1], reg), ShiftLeft(b, k - 1));
      assert RegBits(b)[..k][..k - 1] == RegBits(b)[..k - 1];
    }
  }

  lemma TableStepIsSerial(reg: Reg, b: Reg)
    ensures TableEntry(Xor(reg, b)) == Serial(RegBits(b), reg)
  {
    ShiftsFeed(reg, b, 8);
    assert RegBits(b)[..8] == RegBits(b);
    ShiftOut(b);
    XorZero(Serial(RegBits(b), reg));
  }

  /** The table-driven checksum is the shift register run over the message bits. */
  lemma {:induction false} DvbIsSerial(data: seq<byte>, initial: Reg)
    ensures Dvb(data, initial) == Serial(Bits(data), initial)
  {
    if data != [] {
      var n := |data| - 1;
      var last := RegOf(data[n]);
      DvbIsSerial(data[..n], initial);
      SerialConcat(Bits(data[..n]), RegBits(last), initial);
      TableStepIsSerial(Dvb(data[..n], initial), last);
    }
  }
}
