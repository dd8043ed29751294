/** Bytes as numbers, and the little-endian numbers of the MSP protocol. */
module Bytes {

  type byte = n: int | 0 <= n < 256

  datatype Option<+T> = None | Some(value: T)

  /** The conversion byte(n). */
  function Lo(n: nat): byte { n % 256 }

  /** The conversion byte(n >> 8). */
  function Hi(n: nat): byte { n / 256 % 256 }

  /** The little-endian number in two bytes. */
  function Word(lo: byte, hi: byte): (n: nat)
    ensures n < 65536
  {
    lo + 256 * hi
  }

  lemma WordOfHalves(n: nat)
    requires n < 65536
    ensures Word(Lo(n), Hi(n)) == n
  {
  }

  lemma HalvesOfWord(lo: byte, hi: byte)
    ensures Lo(Word(lo, hi)) == lo && Hi(Word(lo, hi)) == hi
  {
  }

  /** The little-endian number in four bytes. */
  function Long(b: seq<byte>): (n: nat)
    requires |b| == 4
    ensures n < 0x1_0000_0000
  {
    Word(b[0], b[1]) + 65536 * Word(b[2], b[3])
  }

  /** The lowest byte comes first. */
  lemma LongIsLittleEndian(b: seq<byte>)
    requires |b| == 4
    ensures Long(b) == b[0] as int + 0x100 * b[1] as int + 0x1_0000 * b[2] as int + 0x100_0000 * b[3] as int
  {
  }

  function LongBytes(n: nat): (b: seq<byte>)
    requires n < 0x1_0000_0000
    ensures |b| == 4 && Long(b) == n
  {
    WordOfHalves(n % 65536);
    WordOfHalves(n / 65536);
    [Lo(n % 65536), Hi(n % 65536), Lo(n / 65536), Hi(n / 65536)]
  }

  lemma PrefixNext<T>(s: seq<T>, i: nat)
    requires i < |s|
    ensures s[..i + 1][..i] == s[..i] && s[..i + 1][i] == s[i]
  {
  }

  lemma WholePrefix<T>(s: seq<T>)
    ensures s[..|s|] == s
  {
  }
}
