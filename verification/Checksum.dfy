/** CRC-32 as a fold over bytes, and the 32-bit words of the file. */
module Checksum {
  import opened Bits
  import opened Varints
  import opened LogFormat

  /** The reflected polynomial division of n bits. */
  function DivideBits(c: nat, n: nat): nat
    decreases n
  {
    if n == 0 then c else DivideBits(if c % 2 == 1 then Xor(c / 2, 0xEDB8_8320) else c / 2, n - 1)
  }

  /** CRC32 of one more byte; the word is kept inverted between bytes, so that pieces can be chained. */
  function CrcByte(c: nat, b: Byte): nat {
    Xor(DivideBits(Xor(Xor(c, 0xFFFF_FFFF), b as nat), 8), 0xFFFF_FFFF)
  }

  function Crc32(c: nat, s: Bytes): nat
    decreases |s|
  {
    if s == [] then c else Crc32(CrcByte(c, s[0]), s[1..])
  }

  /** A digest is carried on from one piece to the next. */
  lemma {:induction false} CrcChains(c: nat, s: Bytes, t: Bytes)
    ensures Crc32(c, s + t) == Crc32(Crc32(c, s), t)
    decreases |s|
  {
    if s == [] {
      assert s + t == t;
    } else {
      assert (s + t)[0] == s[0] && (s + t)[1..] == s[1..] + t;
      CrcChains(CrcByte(c, s[0]), s[1..], t);
    }
  }

  // ---- The size word in front of the log

  const FIXED_32_SIZE: nat := 4

  function Fixed32(n: nat): (s: Bytes)
    ensures |s| == 4
  {
    [(n % 256) as Byte, (n / 256 % 256) as Byte, (n / 0x1_0000 % 256) as Byte, (n / 0x100_0000 % 256) as Byte]
  }

  function ReadFixed32(s: Bytes): nat
    requires |s| >= 4
  {
    s[0] as nat + 256 * s[1] as nat + 0x1_0000 * s[2] as nat + 0x100_0000 * s[3] as nat
  }

  lemma Fixed32RoundTrip(n: nat)
    requires n < TWO_32
    ensures ReadFixed32(Fixed32(n)) == n
  {
    var a := n / 256;
    var b := a / 256;
    var c := b / 256;
    assert n == 256 * a + n % 256 && a == 256 * b + a % 256 && b == 256 * c + b % 256 && c < 256;
    assert n / 0x1_0000 == b by { assert 0x1_0000 * b <= n < 0x1_0000 * b + 0x1_0000; }
    assert n / 0x100_0000 == c by { assert 0x100_0000 * c <= n < 0x100_0000 * c + 0x100_0000; }
  }
}
