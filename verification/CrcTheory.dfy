/** What CRC-8/DVB-S2 is (a polynomial remainder) and which transmission errors it detects. */
module CrcTheory {
  import opened Bytes
  import opened Registers
  import opened Crc

  // ---------- Linearity ----------

  lemma ShiftBitLinear(r: Reg, s: Reg)
    ensures ShiftBit(Xor(r, s)) == Xor(ShiftBit(r), ShiftBit(s))
  {
    ShiftBitParts(Xor(r, s));
    ShiftBitParts(r);
    ShiftBitParts(s);
    ShlOfXor(r, s);
    TopOfXor(r, s);
    UnitLinear(Top(r), Top(s), 0xD5);
    XorPairs(Shl(r), Shl(s), Unit(Top(r), 0xD5), Unit(Top(s), 0xD5));
  }

  lemma StepLinear(r: Reg, s: Reg, b: bool, c: bool)
    ensures SerialStep(Xor(r, s), b != c) == Xor(SerialStep(r, b), SerialStep(s, c))
  {
    SerialStepParts(Xor(r, s), b != c);
    SerialStepParts(r, b);
    SerialStepParts(s, c);
    ShiftBitLinear(r, s);
    UnitLinear(b, c, 0xD5);
    XorPairs(ShiftBit(r), ShiftBit(s), Unit(b, 0xD5), Unit(c, 0xD5));
  }

  lemma {:induction false} SerialLinear(a: seq<bool>, b: seq<bool>, r: Reg, s: Reg)
    requires |a| == |b|
    ensures Serial(XorBits(a, b), Xor(r, s)) == Xor(Serial(a, r), Serial(b, s))
  {
    if a != [] {
      var n := |a| - 1;
      SerialLinear(a[..n], b[..n], r, s);
      assert XorBits(a, b)[..n] == XorBits(a[..n], b[..n]);
      StepLinear(Serial(a[..n], r), Serial(b[..n], s), a[n], b[n]);
    }
  }

  /** The checksum of a sum of messages is the sum of their checksums. */
  lemma DvbLinear(a: seq<byte>, b: seq<byte>, r: Reg, s: Reg)
    requires |a| == |b|
    ensures Dvb(XorBytes(a, b), Xor(r, s)) == Xor(Dvb(a, r), Dvb(b, s))
  {
    DvbIsSerial(XorBytes(a, b), Xor(r, s));
    DvbIsSerial(a, r);
    DvbIsSerial(b, s);
    BitsOfXor(a, b);
    SerialLinear(Bits(a), Bits(b), r, s);
  }

  /** A checksum continued from the checksum of a prefix is the checksum of the whole. */
  lemma {:induction false} DvbConcat(a: seq<byte>, b: seq<byte>, initial: Reg)
    ensures Dvb(a + b, initial) == Dvb(b, Dvb(a, initial))
  {
    if b == [] {
      assert a + b == a;
    } else {
      var n := |b| - 1;
      DvbConcat(a, b[..n], initial);
      assert (a + b)[..|a + b| - 1] == a + b[..n];
    }
  }

  // ---------- Division by x^8 + x^7 + x^6 + x^4 + x^2 + 1 over GF(2) ----------

  /** The coefficients of the generator, highest first. */
  function Generator(): (g: seq<bool>)
    ensures |g| == 9 && g[0]
  {
    [true, true, true, false, true, false, true, false, true]
  }

  lemma GeneratorBits()
    ensures Generator() == [true] + RegBits(Reg(0xD5))
  {
    var r := Reg(0xD5);
    assert ShiftLeft(r, 1) == Reg(0xAA);
    assert ShiftLeft(r, 2) == Reg(0x54);
    assert ShiftLeft(r, 3) == Reg(0xA8);
    assert ShiftLeft(r, 4) == Reg(0x50);
    assert ShiftLeft(r, 5) == Reg(0xA0);
    assert ShiftLeft(r, 6) == Reg(0x40);
    assert ShiftLeft(r, 7) == Reg(0x80);
  }

  /** Brings down one coefficient and subtracts the generator when the leading one is set. */
  function DivStep(r: Reg, c: bool): Reg {
    if Top(r) then Xor(Down(r, c), Reg(0xD5)) else Down(r, c)
  }

  function Remainder(bits: seq<bool>): Reg {
    if bits == [] then Reg(0) else DivStep(Remainder(bits[..|bits| - 1]), bits[|bits| - 1])
  }

  function Quotient(bits: seq<bool>): (q: seq<bool>)
    ensures |q| == |bits|
  {
    if bits == [] then []
    else Quotient(bits[..|bits| - 1]) + [Top(Remainder(bits[..|bits| - 1]))]
  }

  /** The product of a polynomial and the generator. */
  function TimesGenerator(q: seq<bool>): (p: seq<bool>)
    ensures |p| == |q| + 8
  {
    if q == [] then Zeros(8)
    else
      var n := |q| - 1;
      XorBits(TimesGenerator(q[..n]) + [false], Zeros(n) + if q[n] then Generator() else Zeros(9))
  }

  lemma BitOfDivStep(r: Reg, c: bool, i: nat)
    requires i < 8
    ensures BitAt(DivStep(r, c), i) == (BitAt(Down(r, c), i) != (Top(r) && BitAt(Reg(0xD5), i)))
  {
    ShiftOfXor(Down(r, c), Reg(0xD5), i);
    TopOfXor(ShiftLeft(Down(r, c), i), ShiftLeft(Reg(0xD5), i));
  }

  lemma DivStepBits(r: Reg, c: bool)
    ensures RegBits(r) + [c] == XorBits(if Top(r) then Generator() else Zeros(9), [false] + RegBits(DivStep(r, c)))
  {
    GeneratorBits();
    hide Generator;
    var g, d := if Top(r) then Generator() else Zeros(9), DivStep(r, c);
    forall i | 0 <= i < 9
      ensures (RegBits(r) + [c])[i] == (g[i] != ([false] + RegBits(d))[i])
    {
      if i == 0 {
        assert ShiftLeft(r, 0) == r;
      } else {
        BitOfDown(r, c, i - 1);
        BitOfDivStep(r, c, i - 1);
        assert g[i] == (Top(r) && BitAt(Reg(0xD5), i - 1));
      }
    }
  }

  /** Dividend = quotient * generator + remainder, the remainder having degree below 8. */
  ghost predicate Divides(bits: seq<bool>) {
    Zeros(8) + bits == XorBits(TimesGenerator(Quotient(bits)), Zeros(|bits|) + RegBits(Remainder(bits)))
  }

  lemma {:induction false} DivisionIdentity(bits: seq<bool>)
    ensures Zeros(8) + bits == XorBits(TimesGenerator(Quotient(bits)), Zeros(|bits|) + RegBits(Remainder(bits)))
  {
    AlwaysDivides(bits);
  }

  lemma {:induction false} AlwaysDivides(bits: seq<bool>)
    ensures Divides(bits)
  {
    hide Divides;
    if bits == [] {
      NothingDivides();
    } else {
      var n := |bits| - 1;
      AlwaysDivides(bits[..n]);
      DivisionNext(bits[..n], bits[n]);
      assert bits == bits[..n] + [bits[n]];
    }
  }

  lemma NothingDivides()
    ensures Divides([])
  {
    ZeroBits();
  }

  lemma DivisionNext(m: seq<bool>, c: bool)
    requires Divides(m)
    ensures Divides(m + [c])
  {
    hide Quotient, Remainder, TimesGenerator, XorBits, Zeros, RegBits, DivStep;
    var r := Remainder(m);
    var g := if Top(r) then Generator() else Zeros(9);
    RemainderNext(m, c);
    DivStepBits(r, c);
    TimesNext(Quotient(m), Top(r));
    DivisionStep(TimesGenerator(Quotient(m)), m, RegBits(r), c, g, RegBits(DivStep(r, c)));
  }

  lemma RemainderNext(m: seq<bool>, c: bool)
    ensures Remainder(m + [c]) == DivStep(Remainder(m), c)
    ensures Quotient(m + [c]) == Quotient(m) + [Top(Remainder(m))]
  {
    assert (m + [c])[..|m|] == m;
  }

  lemma TimesNext(q: seq<bool>, b: bool)
    ensures TimesGenerator(q + [b]) == XorBits(TimesGenerator(q) + [false], Zeros(|q|) + if b then Generator() else Zeros(9))
  {
    hide XorBits, Zeros, RegBits;
    assert (q + [b])[..|q|] == q;
  }

  lemma DivisionStep(p: seq<bool>, m: seq<bool>, r: seq<bool>, c: bool, g: seq<bool>, d: seq<bool>)
    requires |r| == |d| == 8 && |g| == 9 && |p| == |m| + 8
    requires Zeros(8) + m == XorBits(p, Zeros(|m|) + r)
    requires r + [c] == XorBits(g, [false] + d)
    ensures Zeros(8) + (m + [c]) == XorBits(XorBits(p + [false], Zeros(|m|) + g), Zeros(|m| + 1) + d)
  {
    var z := Zeros(|m|);
    XorShuffle(p, z, r, c, g, [false] + d);
    assert Zeros(8) + (m + [c]) == (Zeros(8) + m) + [c];
    assert Zeros(|m| + 1) + d == z + ([false] + d);
  }

  lemma XorShuffle(p: seq<bool>, z: seq<bool>, r: seq<bool>, c: bool, g: seq<bool>, low: seq<bool>)
    requires |p| == |z| + |r| && |g| == |low| == |r| + 1
    requires z == Zeros(|z|) && r + [c] == XorBits(g, low)
    ensures XorBits(p, z + r) + [c] == XorBits(XorBits(p + [false], z + g), z + low)
  {
    var left, right := XorBits(p, z + r) + [c], XorBits(XorBits(p + [false], z + g), z + low);
    forall i | 0 <= i < |left|
      ensures left[i] == right[i]
    {
      if i >= |z| {
        var k := i - |z|;
        assert (r + [c])[k] == (g[k] != low[k]);
      }
    }
  }

  lemma {:induction false} ShiftBitsLinear(r: Reg, s: Reg, n: nat)
    ensures ShiftBits(Xor(r, s), n) == Xor(ShiftBits(r, n), ShiftBits(s, n))
  {
    if n > 0 {
      ShiftBitsLinear(r, s, n - 1);
      ShiftBitLinear(ShiftBits(r, n - 1), ShiftBits(s, n - 1));
    }
  }

  lemma {:induction false} ShiftBitFirst(r: Reg, n: nat)
    ensures ShiftBits(ShiftBit(r), n) == ShiftBit(ShiftBits(r, n))
  {
    if n > 0 {
      ShiftBitFirst(r, n - 1);
    }
  }

  lemma EightOfUnit(c: bool)
    ensures ShiftBits(Unit(c, 1), 8) == Unit(c, 0xD5)
  {
    var r := Unit(c, 1);
    assert ShiftBits(r, 1) == Unit(c, 2);
    assert ShiftBits(r, 2) == Unit(c, 4);
    assert ShiftBits(r, 3) == Unit(c, 8);
    assert ShiftBits(r, 4) == Unit(c, 16);
    assert ShiftBits(r, 5) == Unit(c, 32);
    assert ShiftBits(r, 6) == Unit(c, 64);
    assert ShiftBits(r, 7) == Unit(c, 128);
  }

  lemma DivStepParts(r: Reg, c: bool)
    ensures DivStep(r, c) == Xor(ShiftBit(r), Unit(c, 1))
  {
  }

  /** The shift register stays eight steps of division ahead. */
  lemma {:induction false} SerialIsAhead(bits: seq<bool>)
    ensures Serial(bits, Reg(0)) == ShiftBits(Remainder(bits), 8)
  {
    if bits == [] {
      EightOfUnit(false);
    } else {
      var n := |bits| - 1;
      var r, c := Remainder(bits[..n]), bits[n];
      SerialIsAhead(bits[..n]);
      DivStepParts(r, c);
      ShiftBitsLinear(ShiftBit(r), Unit(c, 1), 8);
      ShiftBitFirst(r, 8);
      EightOfUnit(c);
      SerialStepParts(ShiftBits(r, 8), c);
    }
  }

  lemma {:induction false} RemainderOfShifted(bits: seq<bool>, n: nat)
    ensures Remainder(bits + Zeros(n)) == ShiftBits(Remainder(bits), n)
  {
    if n == 0 {
      assert bits + Zeros(0) == bits;
    } else {
      RemainderOfShifted(bits, n - 1);
      assert (bits + Zeros(n))[..|bits| + n - 1] == bits + Zeros(n - 1);
      DivStepParts(Remainder(bits + Zeros(n - 1)), false);
      XorZero(ShiftBit(Remainder(bits + Zeros(n - 1))));
    }
  }

  /** The checksum is the remainder of message * x^8 on division by the generator (section 5.1.4 of EN 302 307). */
  lemma DvbIsRemainder(data: seq<byte>)
    ensures var bits := Bits(data) + Zeros(8);
            Zeros(8) + bits == XorBits(TimesGenerator(Quotient(bits)), Zeros(|bits|) + RegBits(Dvb(data, Reg(0))))
  {
    DvbIsSerial(data, Reg(0));
    SerialIsAhead(Bits(data));
    RemainderOfShifted(Bits(data), 8);
    DivisionIdentity(Bits(data) + Zeros(8));
  }

  /** An initial value acts as if added to the first message byte. */
  lemma DvbInitial(first: byte, rest: seq<byte>, initial: byte)
    ensures Dvb([first] + rest, RegOf(initial)) == Dvb([XorByte(initial, first)] + rest, Reg(0))
  {
    DvbConcat([first], rest, RegOf(initial));
    DvbConcat([XorByte(initial, first)], rest, Reg(0));
    RegOfByte(Xor(RegOf(initial), RegOf(first)));
    XorZero(RegOf(XorByte(initial, first)));
    assert Dvb([first], RegOf(initial)) == TableEntry(Xor(RegOf(initial), RegOf(first)));
    assert Dvb([XorByte(initial, first)], Reg(0)) == TableEntry(Xor(Reg(0), RegOf(XorByte(initial, first))));
  }

  // ---------- Multiples of the generator ----------

  /** The polynomial is a multiple of the generator. */
  ghost predicate Divisible(bits: seq<bool>) {
    exists q: seq<bool> :: IsMultiple(q, bits)
  }

  predicate IsMultiple(q: seq<bool>, bits: seq<bool>) {
    |q| == |bits| && TimesGenerator(q) == Zeros(8) + bits
  }

  lemma {:induction false} TimesLinear(a: seq<bool>, b: seq<bool>)
    requires |a| == |b|
    ensures TimesGenerator(XorBits(a, b)) == XorBits(TimesGenerator(a), TimesGenerator(b))
  {
    if a != [] {
      var n := |a| - 1;
      TimesLinear(a[..n], b[..n]);
      PrefixOfXor(a, b, n);
      hide XorBits, Zeros, Generator;
      TimesLinearStep(TimesGenerator(a[..n]), TimesGenerator(b[..n]), a[n], b[n], n);
    }
  }

  lemma PrefixOfXor(a: seq<bool>, b: seq<bool>, n: nat)
    requires |a| == |b| && n <= |a|
    ensures XorBits(a, b)[..n] == XorBits(a[..n], b[..n])
  {
  }

  /** The generator, or nothing. */
  function Term(c: bool): (g: seq<bool>)
    ensures |g| == 9
  {
    if c then Generator() else Zeros(9)
  }

  lemma TimesLinearStep(p: seq<bool>, q: seq<bool>, a: bool, b: bool, n: nat)
    requires |p| == |q| == n + 8
    ensures XorBits(XorBits(p, q) + [false], Zeros(n) + Term(a != b))
         == XorBits(XorBits(p + [false], Zeros(n) + Term(a)), XorBits(q + [false], Zeros(n) + Term(b)))
  {
    hide Generator;
  }

  /** A multiple of degree below 8 is zero. */
  lemma {:induction false} SmallMultipleIsZero(q: seq<bool>)
    requires forall i :: 0 <= i < |q| ==> !TimesGenerator(q)[i]
    ensures TimesGenerator(q) == Zeros(|q| + 8)
  {
    if q != [] {
      var n := |q| - 1;
      hide Generator;
      forall i | 0 <= i < n
        ensures !TimesGenerator(q[..n])[i]
      {
        assert !TimesGenerator(q)[i];
      }
      SmallMultipleIsZero(q[..n]);
      assert !TimesGenerator(q)[n];
    }
  }

  /** A message with its checksum behind it is a multiple of the generator, and with anything else it is not. */
  lemma ChecksIffDivisible(block: seq<byte>)
    requires |block| > 0
    ensures Checks(block) <==> Divisible(Bits(block))
  {
    var body, last := block[..|block| - 1], RegOf(block[|block| - 1]);
    var r := Dvb(body, Reg(0));
    DvbIsRemainder(body);
    RegOfByte(r);
    assert Bits(block) == Bits(body) + RegBits(last);
    hide Quotient, TimesGenerator, Dvb, Bits, RegBits, XorBits, Zeros, Divisible;
    OnlyRemainderDivides(Quotient(Bits(body) + Zeros(8)), Bits(body), RegBits(r), RegBits(last));
    if RegBits(r) == RegBits(last) {
      SameBits(r, last);
    }
  }

  /** Behind a message with remainder r, only r completes a multiple of the generator. */
  lemma OnlyRemainderDivides(q: seq<bool>, m: seq<bool>, r: seq<bool>, s: seq<bool>)
    requires |r| == |s| == 8 && |q| == |m| + 8
    requires Zeros(8) + (m + Zeros(8)) == XorBits(TimesGenerator(q), Zeros(|m + Zeros(8)|) + r)
    ensures Divisible(m + s) <==> r == s
  {
    hide TimesGenerator, XorBits, Zeros;
    if r == s {
      Shifted(TimesGenerator(q), m, r);
      assert IsMultiple(q, m + s);
    }
    if Divisible(m + s) {
      var p :| IsMultiple(p, m + s);
      SameMultiple(q, p, m, r, s);
    }
  }

  lemma SameMultiple(q: seq<bool>, p: seq<bool>, m: seq<bool>, r: seq<bool>, s: seq<bool>)
    requires |r| == |s| == 8 && |q| == |p| == |m| + 8
    requires Zeros(8) + (m + Zeros(8)) == XorBits(TimesGenerator(q), Zeros(|m + Zeros(8)|) + r)
    requires TimesGenerator(p) == Zeros(8) + (m + s)
    ensures r == s
  {
    hide TimesGenerator, Zeros, XorBits;
    TimesLinear(q, p);
    Difference(TimesGenerator(q), TimesGenerator(p), m, r, s);
    assert forall i :: 0 <= i < |XorBits(q, p)| ==> !TimesGenerator(XorBits(q, p))[i];
    SmallMultipleIsZero(XorBits(q, p));
    NoDifference(|m|, r, s);
  }

  lemma Shifted(p: seq<bool>, m: seq<bool>, r: seq<bool>)
    requires |r| == 8 && |p| == |m| + 16
    requires Zeros(8) + (m + Zeros(8)) == XorBits(p, Zeros(|m + Zeros(8)|) + r)
    ensures p == Zeros(8) + (m + r)
  {
    var left, right := Zeros(8) + (m + Zeros(8)), Zeros(8) + (m + r);
    forall i | 0 <= i < |p|
      ensures p[i] == right[i]
    {
      assert left[i] == (p[i] != (Zeros(|m + Zeros(8)|) + r)[i]);
    }
  }

  lemma Difference(p: seq<bool>, q: seq<bool>, m: seq<bool>, r: seq<bool>, s: seq<bool>)
    requires |r| == |s| == 8 && |p| == |m| + 16
    requires Zeros(8) + (m + Zeros(8)) == XorBits(p, Zeros(|m + Zeros(8)|) + r)
    requires q == Zeros(8) + (m + s)
    ensures XorBits(p, q) == Zeros(|m| + 8) + XorBits(r, s)
  {
    Shifted(p, m, r);
  }

  lemma NoDifference(k: nat, r: seq<bool>, s: seq<bool>)
    requires |r| == |s| == 8 && Zeros(k + 8) + XorBits(r, s) == Zeros(k + 16)
    ensures r == s
  {
    forall i | 0 <= i < 8
      ensures r[i] == s[i]
    {
      assert XorBits(r, s)[i] == (Zeros(k + 8) + XorBits(r, s))[k + 8 + i];
    }
  }

  // ---------- Error detection ----------

  /** Whether the last byte is the checksum of the bytes before it. */
  predicate Checks(block: seq<byte>)
    requires |block| > 0
  {
    block[|block| - 1] == ToByte(Dvb(block[..|block| - 1], Reg(0)))
  }

  lemma StepInjective(r: Reg, s: Reg, b: bool)
    requires SerialStep(r, b) == SerialStep(s, b)
    ensures r == s
  {
  }

  lemma {:induction false} SerialInjective(bits: seq<bool>, r: Reg, s: Reg)
    requires Serial(bits, r) == Serial(bits, s)
    ensures r == s
  {
    if bits != [] {
      var n := |bits| - 1;
      StepInjective(Serial(bits[..n], r), Serial(bits[..n], s), bits[n]);
      SerialInjective(bits[..n], r, s);
    }
  }

  lemma {:induction false} SerialOfZeros(n: nat)
    ensures Serial(Zeros(n), Reg(0)) == Reg(0)
  {
    if n > 0 {
      SerialOfZeros(n - 1);
      assert Zeros(n)[..n - 1] == Zeros(n - 1);
    }
  }

  lemma TableZeroIff(a: Reg, b: Reg)
    ensures TableEntry(Xor(a, b)) == Reg(0) <==> a == b
  {
    XorSelf(b);
    XorSelf(Reg(0));
    TableStepIsSerial(a, b);
    TableStepIsSerial(b, b);
    TableStepIsSerial(Reg(0), Reg(0));
    SerialOfZeros(8);
    ZeroBits();
    if TableEntry(Xor(a, b)) == Reg(0) {
      SerialInjective(RegBits(b), a, b);
    }
  }

  /** A block checks exactly when the checksum of all of it, its own checksum included, is zero. */
  lemma ChecksIffZero(block: seq<byte>)
    requires |block| > 0
    ensures Checks(block) <==> Dvb(block, Reg(0)) == Reg(0)
  {
    var crc := Dvb(block[..|block| - 1], Reg(0));
    TableZeroIff(crc, RegOf(block[|block| - 1]));
    RegOfByte(crc);
  }

  /** Damage goes unnoticed exactly when the error pattern itself has checksum zero. */
  lemma UnnoticedIff(block: seq<byte>, error: seq<byte>)
    requires 0 < |block| == |error| && Checks(block)
    ensures Checks(XorBytes(block, error)) <==> Dvb(error, Reg(0)) == Reg(0)
  {
    ChecksIffZero(block);
    ChecksIffZero(XorBytes(block, error));
    XorSelf(Reg(0));
    DvbLinear(block, error, Reg(0), Reg(0));
    XorZero(Dvb(error, Reg(0)));
  }

  /** Whether an odd number of the register's bits is set. */
  predicate Odd(r: Reg) {
    var x := r.v ^ (r.v >> 4);
    var y := x ^ (x >> 2);
    (y ^ (y >> 1)) & 1 != 0
  }

  lemma StepParity(r: Reg, b: bool)
    ensures Odd(SerialStep(r, b)) == (Odd(r) != b)
  {
  }

  /** The generator is divisible by x + 1, so the register keeps the parity of the message. */
  lemma {:induction false} SerialParity(bits: seq<bool>)
    ensures Odd(Serial(bits, Reg(0))) <==> Ones(bits) % 2 == 1
  {
    if bits != [] {
      var n := |bits| - 1;
      SerialParity(bits[..n]);
      StepParity(Serial(bits[..n], Reg(0)), bits[n]);
    }
  }

  /** At least one flipped bit, and all flipped bits within eight consecutive positions. */
  ghost predicate Burst(error: seq<bool>) {
    true in error && exists from: nat :: WithinEight(error, from)
  }

  ghost predicate WithinEight(error: seq<bool>, from: nat) {
    forall i :: 0 <= i < |error| && error[i] ==> from <= i < from + 8
  }

  lemma {:induction false} ShiftLeftMore(r: Reg, m: nat, n: nat)
    requires m <= n && ShiftLeft(r, m) == Reg(0)
    ensures ShiftLeft(r, n) == Reg(0)
  {
    if m < n {
      ShiftLeftMore(r, m, n - 1);
    }
  }

  /** A step ends in a register with a clear lowest bit only when it did not subtract the generator. */
  lemma EvenStep(r: Reg, b: bool)
    requires ShiftLeft(SerialStep(r, b), 7) == Reg(0)
    ensures SerialStep(r, b) == Shl(r) && Top(r) == b
  {
    var s := SerialStep(r, b);
    assert ShiftLeft(s, 1) == Reg(s.v << 1);
    assert ShiftLeft(s, 3) == Reg(s.v << 3);
    assert ShiftLeft(s, 5) == Reg(s.v << 5);
    LowClear(s);
    StepLow(r, b);
  }

  lemma LowClear(s: Reg)
    requires s.v << 7 == 0
    ensures s.v & 1 == 0
  {
  }

  lemma StepLow(r: Reg, b: bool)
    requires SerialStep(r, b).v & 1 == 0
    ensures SerialStep(r, b) == Shl(r) && Top(r) == b
  {
  }

  /** Eight bits or fewer lead to zero only from the register that holds exactly those bits. */
  lemma {:induction false} ShortToZero(bits: seq<bool>, r: Reg)
    requires |bits| <= 8 && Serial(bits, r) == Reg(0)
    ensures ShiftLeft(r, |bits|) == Reg(0)
    ensures forall i :: 0 <= i < |bits| ==> BitAt(r, i) == bits[i]
  {
    if bits != [] {
      var n := |bits| - 1;
      var next := SerialStep(r, bits[0]);
      FirstStep(bits, r);
      ShortToZero(bits[1..], next);
      ShiftLeftMore(next, n, 7);
      EvenStep(r, bits[0]);
      ShiftOfShl(r, n);
      forall i | 1 <= i < |bits|
        ensures BitAt(r, i) == bits[i]
      {
        ShiftOfShl(r, i - 1);
        assert bits[i] == bits[1..][i - 1];
      }
    }
  }

  lemma FirstStep(bits: seq<bool>, r: Reg)
    requires bits != []
    ensures Serial(bits, r) == Serial(bits[1..], SerialStep(r, bits[0]))
  {
    SerialConcat([bits[0]], bits[1..], r);
    assert [bits[0]] + bits[1..] == bits;
    assert [bits[0]][..0] == [];
    assert Serial([bits[0]], r) == SerialStep(r, bits[0]);
  }

  /** A burst between zeros. */
  lemma SplitBurst(error: seq<bool>) returns (before: nat, mid: seq<bool>, at: nat, behind: nat)
    requires Burst(error)
    ensures error == Zeros(before) + (mid + Zeros(behind)) && at < |mid| <= 8 && mid[at]
  {
    before :| WithinEight(error, before);
    var k :| 0 <= k < |error| && error[k];
    var end := if before + 8 < |error| then before + 8 else |error|;
    mid, at, behind := error[before..end], k - before, |error| - end;
  }

  /** Zeros before and behind do not change whether the register ends at zero. */
  lemma ZerosAround(before: nat, mid: seq<bool>, behind: nat)
    ensures Serial(Zeros(before) + (mid + Zeros(behind)), Reg(0)) == Reg(0) ==> Serial(mid, Reg(0)) == Reg(0)
  {
    hide Serial, Zeros;
    SerialConcat(Zeros(before), mid + Zeros(behind), Reg(0));
    SerialConcat(mid, Zeros(behind), Reg(0));
    SerialOfZeros(before);
    SerialOfZeros(behind);
    if Serial(Zeros(before) + (mid + Zeros(behind)), Reg(0)) == Reg(0) {
      SerialInjective(Zeros(behind), Serial(mid, Reg(0)), Reg(0));
    }
  }

  lemma BurstToNonZero(error: seq<bool>)
    requires Burst(error)
    ensures Serial(error, Reg(0)) != Reg(0)
  {
    var before, mid, at, behind := SplitBurst(error);
    hide Serial, Zeros;
    ZerosAround(before, mid, behind);
    if Serial(mid, Reg(0)) == Reg(0) {
      ShortToZero(mid, Reg(0));
      ShiftZero(at);
    }
  }

  /** The error patterns that are always noticed. */
  ghost predicate Noticeable(error: seq<byte>) {
    Ones(Bits(error)) % 2 == 1 || Burst(Bits(error))
  }

  /** An odd number of flipped bits, or a burst of up to eight, never leaves a block that checks. */
  lemma NoticeableIsNoticed(block: seq<byte>, error: seq<byte>)
    requires 0 < |block| == |error| && Checks(block) && Noticeable(error)
    ensures !Checks(XorBytes(block, error))
  {
    UnnoticedIff(block, error);
    DvbIsSerial(error, Reg(0));
    SerialParity(Bits(error));
    if Burst(Bits(error)) {
      BurstToNonZero(Bits(error));
    }
    assert !Odd(Reg(0));
  }
}
