/** Bytes as bit patterns: exclusive or, shifts, and the bits of a message. */
module Registers {
  import opened Bytes

  /** A byte seen as a shift register. Boxed, so that proofs compare registers as values and not bit by bit. */
  datatype Reg = Reg(v: bv8)

  // ---------- Shifts and exclusive or ----------

  /** r & 0x80 != 0 */
  predicate Top(r: Reg) { r.v & 0x80 != 0 }

  /** r << 1 */
  function Shl(r: Reg): Reg { Reg(r.v << 1) }

  /** a ^ b */
  function Xor(a: Reg, b: Reg): Reg { Reg(a.v ^ b.v) }

  function ShiftLeft(r: Reg, n: nat): Reg {
    if n == 0 then r else Shl(ShiftLeft(r, n - 1))
  }

  /** (r << 1) | c */
  function Down(r: Reg, c: bool): Reg {
    Reg((r.v << 1) | (if c then 1 else 0))
  }

  function Unit(bit: bool, value: bv8): Reg {
    Reg(if bit then value else 0)
  }

  lemma TopOfXor(a: Reg, b: Reg)
    ensures Top(Xor(a, b)) == (Top(a) != Top(b))
  {
  }

  lemma ShlOfXor(a: Reg, b: Reg)
    ensures Shl(Xor(a, b)) == Xor(Shl(a), Shl(b))
  {
  }

  lemma {:induction false} ShiftOfXor(a: Reg, b: Reg, n: nat)
    ensures ShiftLeft(Xor(a, b), n) == Xor(ShiftLeft(a, n), ShiftLeft(b, n))
  {
    if n > 0 {
      ShiftOfXor(a, b, n - 1);
      ShlOfXor(ShiftLeft(a, n - 1), ShiftLeft(b, n - 1));
    }
  }

  lemma ShiftOut(r: Reg)
    ensures ShiftLeft(r, 8) == Reg(0)
  {
    assert ShiftLeft(r, 1) == Reg(r.v << 1);
    assert ShiftLeft(r, 3) == Reg(r.v << 3);
    assert ShiftLeft(r, 5) == Reg(r.v << 5);
    assert ShiftLeft(r, 7) == Reg(r.v << 7);
  }

  lemma {:induction false} ShiftOfShl(r: Reg, i: nat)
    ensures ShiftLeft(Shl(r), i) == ShiftLeft(r, i + 1)
  {
    if i > 0 {
      ShiftOfShl(r, i - 1);
    }
  }

  lemma {:induction false} ShiftZero(i: nat)
    ensures ShiftLeft(Reg(0), i) == Reg(0)
  {
    if i > 0 {
      ShiftZero(i - 1);
    }
  }

  lemma XorZero(r: Reg)
    ensures Xor(r, Reg(0)) == r && Xor(Reg(0), r) == r
  {
  }

  lemma XorSelf(r: Reg)
    ensures Xor(r, r) == Reg(0)
  {
  }

  lemma XorToZero(a: Reg, b: Reg)
    requires Xor(a, b) == Reg(0)
    ensures a == b
  {
  }

  lemma UnitLinear(b: bool, c: bool, value: bv8)
    ensures Unit(b != c, value) == Xor(Unit(b, value), Unit(c, value))
  {
  }

  lemma XorPairs(a: Reg, b: Reg, c: Reg, d: Reg)
    ensures Xor(Xor(a, b), Xor(c, d)) == Xor(Xor(a, c), Xor(b, d))
  {
  }

  lemma XorSwap(a: Reg, b: Reg, c: Reg, d: Reg)
    ensures Xor(Xor(a, b), Xor(c, d)) == Xor(Xor(Xor(a, c), d), b)
  {
  }

  lemma DownParts(r: Reg, c: bool)
    ensures Down(r, c) == Xor(Shl(r), Unit(c, 1))
  {
  }

  // ---------- Bits, most significant first ----------

  predicate BitAt(r: Reg, i: nat) {
    Top(ShiftLeft(r, i))
  }

  function RegBits(r: Reg): (bits: seq<bool>)
    ensures |bits| == 8
  {
    seq(8, i requires 0 <= i < 8 => BitAt(r, i))
  }

  function Zeros(n: nat): (bits: seq<bool>)
    ensures |bits| == n
    ensures forall i :: 0 <= i < n ==> !bits[i]
  {
    seq(n, _ => false)
  }

  function XorBits(a: seq<bool>, b: seq<bool>): (c: seq<bool>)
    requires |a| == |b|
    ensures |c| == |a|
    ensures forall i :: 0 <= i < |a| ==> c[i] == (a[i] != b[i])
  {
    seq(|a|, i requires 0 <= i < |a| => a[i] != b[i])
  }

  /** How many bits are set. */
  function Ones(bits: seq<bool>): nat {
    if bits == [] then 0
    else Ones(bits[..|bits| - 1]) + if bits[|bits| - 1] then 1 else 0
  }

  lemma XorRegBits(a: Reg, b: Reg)
    ensures XorBits(RegBits(a), RegBits(b)) == RegBits(Xor(a, b))
  {
    forall i | 0 <= i < 8
      ensures BitAt(Xor(a, b), i) == (BitAt(a, i) != BitAt(b, i))
    {
      ShiftOfXor(a, b, i);
      TopOfXor(ShiftLeft(a, i), ShiftLeft(b, i));
    }
  }

  lemma XorOfConcat(a: seq<bool>, c: seq<bool>, b: seq<bool>, d: seq<bool>)
    requires |a| == |b| && |c| == |d|
    ensures XorBits(a + c, b + d) == XorBits(a, b) + XorBits(c, d)
  {
  }

  lemma ZeroBits()
    ensures RegBits(Reg(0)) == Zeros(8)
  {
    forall i | 0 <= i < 8
      ensures !BitAt(Reg(0), i)
    {
      ShiftZero(i);
    }
  }

  lemma ClearBits(r: Reg)
    requires forall i :: 0 <= i < 8 ==> !BitAt(r, i)
    ensures r == Reg(0)
  {
    assert !BitAt(r, 0) && !BitAt(r, 1) && !BitAt(r, 2) && !BitAt(r, 3);
    assert !BitAt(r, 4) && !BitAt(r, 5) && !BitAt(r, 6) && !BitAt(r, 7);
    assert ShiftLeft(r, 1) == Reg(r.v << 1);
    assert ShiftLeft(r, 2) == Reg(r.v << 2);
    assert ShiftLeft(r, 3) == Reg(r.v << 3);
    assert ShiftLeft(r, 4) == Reg(r.v << 4);
    assert ShiftLeft(r, 5) == Reg(r.v << 5);
    assert ShiftLeft(r, 6) == Reg(r.v << 6);
    assert ShiftLeft(r, 7) == Reg(r.v << 7);
  }

  lemma SameBits(a: Reg, b: Reg)
    requires RegBits(a) == RegBits(b)
    ensures a == b
  {
    forall i | 0 <= i < 8
      ensures !BitAt(Xor(a, b), i)
    {
      ShiftOfXor(a, b, i);
      TopOfXor(ShiftLeft(a, i), ShiftLeft(b, i));
      assert RegBits(a)[i] == RegBits(b)[i];
    }
    ClearBits(Xor(a, b));
    XorToZero(a, b);
  }

  lemma LowBit(c: bool, i: nat)
    requires i < 8
    ensures Top(ShiftLeft(Unit(c, 1), i)) == (c && i == 7)
  {
    var r := Unit(c, 1);
    assert ShiftLeft(r, 1) == Reg(if c then 2 else 0);
    assert ShiftLeft(r, 2) == Reg(if c then 4 else 0);
    assert ShiftLeft(r, 3) == Reg(if c then 8 else 0);
    assert ShiftLeft(r, 4) == Reg(if c then 16 else 0);
    assert ShiftLeft(r, 5) == Reg(if c then 32 else 0);
    assert ShiftLeft(r, 6) == Reg(if c then 64 else 0);
    assert ShiftLeft(r, 7) == Reg(if c then 128 else 0);
  }

  lemma BitOfDown(r: Reg, c: bool, i: nat)
    requires i < 8
    ensures BitAt(Down(r, c), i) == if i < 7 then BitAt(r, i + 1) else c
  {
    DownParts(r, c);
    ShiftOfXor(Shl(r), Unit(c, 1), i);
    TopOfXor(ShiftLeft(Shl(r), i), ShiftLeft(Unit(c, 1), i));
    ShiftOfShl(r, i);
    LowBit(c, i);
    if i == 7 {
      ShiftOut(r);
    }
  }

  // ---------- Registers and numbers ----------

  function Value(bits: seq<bool>): nat {
    if bits == [] then 0
    else 2 * Value(bits[..|bits| - 1]) + if bits[|bits| - 1] then 1 else 0
  }

  function Pow2(n: nat): nat {
    if n == 0 then 1 else 2 * Pow2(n - 1)
  }

  lemma {:induction false} ValueBound(bits: seq<bool>)
    ensures Value(bits) < Pow2(|bits|)
  {
    if bits != [] {
      ValueBound(bits[..|bits| - 1]);
    }
  }

  lemma {:induction false} SameValue(a: seq<bool>, b: seq<bool>)
    requires |a| == |b| && Value(a) == Value(b)
    ensures a == b
  {
    if a != [] {
      var n := |a| - 1;
      SameValue(a[..n], b[..n]);
      assert a == a[..n] + [a[n]] && b == b[..n] + [b[n]];
    }
  }

  lemma {:induction false} ValueOfClear(rest: seq<bool>)
    ensures Value([false] + rest) == Value(rest)
  {
    if rest != [] {
      ValueOfClear(rest[..|rest| - 1]);
      assert ([false] + rest)[..|rest|] == [false] + rest[..|rest| - 1];
    }
  }

  lemma {:induction false} ValueOfSet(rest: seq<bool>)
    ensures Value([true] + rest) == Pow2(|rest|) + Value(rest)
  {
    if rest == [] {
      assert [true][..0] == [];
    } else {
      ValueOfSet(rest[..|rest| - 1]);
      assert ([true] + rest)[..|rest|] == [true] + rest[..|rest| - 1];
    }
  }

  lemma {:induction false} ValueOfZeros(n: nat)
    ensures Value(Zeros(n)) == 0
  {
    if n > 0 {
      ValueOfZeros(n - 1);
      assert Zeros(n)[..n - 1] == Zeros(n - 1);
    }
  }

  /** The number a register holds. */
  function ToByte(r: Reg): byte {
    ValueBound(RegBits(r));
    assert Pow2(8) == 256;
    Value(RegBits(r))
  }

  lemma NumOfDown(r: Reg, c: bool)
    requires !Top(r)
    ensures Value(RegBits(Down(r, c))) == 2 * ToByte(r) + if c then 1 else 0
  {
    var rest := RegBits(r)[1..];
    forall i | 0 <= i < 8
      ensures BitAt(Down(r, c), i) == (rest + [c])[i]
    {
      BitOfDown(r, c, i);
    }
    assert RegBits(Down(r, c)) == rest + [c];
    assert (rest + [c])[..7] == rest;
    assert ShiftLeft(r, 0) == r;
    assert RegBits(r) == [false] + rest;
    ValueOfClear(rest);
  }

  lemma TopOfSmall(r: Reg)
    requires ToByte(r) < 128
    ensures !Top(r)
  {
    assert Pow2(7) == 128;
    if Top(r) {
      var rest := RegBits(r)[1..];
      assert ShiftLeft(r, 0) == r;
      assert RegBits(r) == [true] + rest;
      ValueOfSet(rest);
    }
  }

  lemma NumOfZero()
    ensures ToByte(Reg(0)) == 0
  {
    ZeroBits();
    ValueOfZeros(8);
  }

  /** The register that holds a number, built bit by bit. */
  function RegOf(n: byte): (r: Reg)
    ensures ToByte(r) == n
  {
    if n == 0 then
      NumOfZero();
      Reg(0)
    else
      TopOfSmall(RegOf(n / 2));
      NumOfDown(RegOf(n / 2), n % 2 == 1);
      Down(RegOf(n / 2), n % 2 == 1)
  }

  lemma RegOfByte(r: Reg)
    ensures RegOf(ToByte(r)) == r
  {
    SameValue(RegBits(RegOf(ToByte(r))), RegBits(r));
    SameBits(RegOf(ToByte(r)), r);
  }

  // ---------- Messages as bits ----------

  function Bits(data: seq<byte>): (bits: seq<bool>)
    ensures |bits| == 8 * |data|
  {
    if data == [] then [] else Bits(data[..|data| - 1]) + RegBits(RegOf(data[|data| - 1]))
  }

  function XorByte(a: byte, b: byte): byte {
    ToByte(Xor(RegOf(a), RegOf(b)))
  }

  function XorBytes(a: seq<byte>, b: seq<byte>): (c: seq<byte>)
    requires |a| == |b|
    ensures |c| == |a|
    ensures forall i :: 0 <= i < |a| ==> c[i] == XorByte(a[i], b[i])
  {
    seq(|a|, i requires 0 <= i < |a| => XorByte(a[i], b[i]))
  }

  lemma XorByteZero(a: byte)
    ensures XorByte(a, 0) == a
  {
    NumOfZero();
    RegOfByte(Reg(0));
    XorZero(RegOf(a));
  }

  lemma {:induction false} BitsOfXor(a: seq<byte>, b: seq<byte>)
    requires |a| == |b|
    ensures Bits(XorBytes(a, b)) == XorBits(Bits(a), Bits(b))
  {
    if a != [] {
      var n := |a| - 1;
      BitsOfXor(a[..n], b[..n]);
      RegOfByte(Xor(RegOf(a[n]), RegOf(b[n])));
      XorRegBits(RegOf(a[n]), RegOf(b[n]));
      assert XorBytes(a, b)[..n] == XorBytes(a[..n], b[..n]);
      XorOfConcat(Bits(a[..n]), RegBits(RegOf(a[n])), Bits(b[..n]), RegBits(RegOf(b[n])));
    }
  }
}
