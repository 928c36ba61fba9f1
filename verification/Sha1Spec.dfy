/**
  SHA-1 as in FIPS 180-4: preprocessing (sections 5.1.1 and 5.2.1) and the computation with the
  eighty-word message schedule (section 6.1.2).
  */
module Sha1Spec {
  type Byte = bv8
  type Word = bv32

  datatype Regs = Regs(a: Word, b: Word, c: Word, d: Word, e: Word)

  const IV := Regs(0x67452301, 0xEFCDAB89, 0x98BADCFE, 0x10325476, 0xC3D2E1F0)

  function Rotl1(x: Word): Word { (x << 1) | (x >> 31) }
  function Rotl5(x: Word): Word { (x << 5) | (x >> 27) }
  function Rotl30(x: Word): Word { (x << 30) | (x >> 2) }

  function Ch(x: Word, y: Word, z: Word): Word { (x & y) ^ (!x & z) }
  function Parity(x: Word, y: Word, z: Word): Word { x ^ y ^ z }
  function Maj(x: Word, y: Word, z: Word): Word { (x & y) ^ (x & z) ^ (y & z) }

  /** Section 4.1.1. */
  function F(t: nat, x: Word, y: Word, z: Word): Word {
    if t < 20 then Ch(x, y, z) else if 40 <= t < 60 then Maj(x, y, z) else Parity(x, y, z)
  }

  /** Section 4.2.1. */
  function K(t: nat): Word {
    if t < 20 then 0x5A827999 else if t < 40 then 0x6ED9EBA1 else if t < 60 then 0x8F1BBCDC else 0xCA62C1D6
  }

  function Expand(a: Word, b: Word, c: Word, d: Word): Word { Rotl1(a ^ b ^ c ^ d) }

  /** Section 6.1.2, step 1. */
  function W(m: seq<Word>, t: nat): Word
    requires |m| == 16
  {
    if t < 16 then m[t] else Expand(W(m, t - 3), W(m, t - 8), W(m, t - 14), W(m, t - 16))
  }

  function T(a: Word, f: Word, e: Word, k: Word, w: Word): Word { Rotl5(a) + f + e + k + w }

  /** Section 6.1.2, step 3. */
  function Step(r: Regs, t: nat, w: Word): Regs {
    Regs(T(r.a, F(t, r.b, r.c, r.d), r.e, K(t), w), r.a, Rotl30(r.b), r.c, r.d)
  }

  function Rounds(h: Regs, m: seq<Word>, t: nat): Regs
    requires |m| == 16
  {
    if t == 0 then h else Step(Rounds(h, m, t - 1), t - 1, W(m, t - 1))
  }

  /** Addition modulo 2^32. */
  function Plus(x: Word, y: Word): Word { x + y }

  function Add(x: Regs, y: Regs): Regs {
    Regs(Plus(x.a, y.a), Plus(x.b, y.b), Plus(x.c, y.c), Plus(x.d, y.d), Plus(x.e, y.e))
  }

  function BigEndian(b0: Byte, b1: Byte, b2: Byte, b3: Byte): Word {
    ((b0 as Word) << 24) | ((b1 as Word) << 16) | ((b2 as Word) << 8) | (b3 as Word)
  }

  function BlockWord(block: seq<Byte>, j: nat): Word
    requires |block| == 64 && j < 16
  {
    BigEndian(block[4 * j], block[4 * j + 1], block[4 * j + 2], block[4 * j + 3])
  }

  /** Section 5.2.1: a block as sixteen big-endian words. */
  function BlockWords(block: seq<Byte>): (m: seq<Word>)
    requires |block| == 64
    ensures |m| == 16
  {
    seq(16, j requires 0 <= j < 16 => BlockWord(block, j))
  }

  function Compress(h: Regs, block: seq<Byte>): Regs
    requires |block| == 64
  {
    Add(h, Rounds(h, BlockWords(block), 80))
  }

  /** The hash value after the first n blocks of a message. */
  function Absorb(h: Regs, msg: seq<Byte>, n: nat): Regs
    requires 64 * n <= |msg|
    decreases n
  {
    if n == 0 then h else Compress(Absorb(h, msg, n - 1), msg[64 * (n - 1)..64 * n])
  }

  function Zeros(n: nat): (z: seq<Byte>)
    ensures |z| == n
  {
    seq(n, _ => 0)
  }

  const TWO32: nat := 0x1_0000_0000
  const TWO64: nat := 0x1_0000_0000_0000_0000

  function LengthByte(bits: nat, power: nat): Byte
    requires power > 0
  {
    ((bits / power) % 256) as Byte
  }

  /** The length in bits as eight bytes, most significant first. */
  function LengthBytes(bits: nat): (b: seq<Byte>)
    ensures |b| == 8
  {
    [LengthByte(bits, 0x100_0000_0000_0000), LengthByte(bits, 0x1_0000_0000_0000),
     LengthByte(bits, 0x100_0000_0000), LengthByte(bits, 0x1_0000_0000),
     LengthByte(bits, 0x100_0000), LengthByte(bits, 0x1_0000), LengthByte(bits, 0x100), LengthByte(bits, 1)]
  }

  /** Section 5.1.1: a one bit, the least number of zero bits, the length. */
  function Pad(msg: seq<Byte>): (p: seq<Byte>)
    ensures |p| % 64 == 0 && msg <= p && |p| == |msg| + 9 + (55 - |msg|) % 64
  {
    var zeros := (55 - |msg|) % 64;
    assert (|msg| + 9 + zeros) % 64 == 0;
    msg + [0x80] + Zeros(zeros) + LengthBytes(8 * |msg| % TWO64)
  }

  function WordByte(w: Word, pos: nat): Byte
    requires pos < 4
  {
    ((w >> (24 - 8 * pos)) & 255) as Byte
  }

  function WordBytes(w: Word): (b: seq<Byte>)
    ensures |b| == 4
  {
    [WordByte(w, 0), WordByte(w, 1), WordByte(w, 2), WordByte(w, 3)]
  }

  function RegBytes(r: Regs): (b: seq<Byte>)
    ensures |b| == 20
  {
    WordBytes(r.a) + WordBytes(r.b) + WordBytes(r.c) + WordBytes(r.d) + WordBytes(r.e)
  }

  function Digest(msg: seq<Byte>): (d: seq<Byte>)
    ensures |d| == 20
  {
    RegBytes(Absorb(IV, Pad(msg), |Pad(msg)| / 64))
  }

  lemma {:induction false} AbsorbPrefix(h: Regs, m1: seq<Byte>, m2: seq<Byte>, n: nat)
    requires 64 * n <= |m1| && m1 <= m2
    ensures Absorb(h, m1, n) == Absorb(h, m2, n)
    decreases n
  {
    if n > 0 {
      AbsorbPrefix(h, m1, m2, n - 1);
      assert m1[64 * (n - 1)..64 * n] == m2[64 * (n - 1)..64 * n];
    }
  }
}
