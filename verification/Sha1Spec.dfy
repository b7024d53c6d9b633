/** The secure hash standard, FIPS 180-4: SHA-1 as sections 4.1.1, 4.2.1, 5.1.1,
    5.3.1 and 6.1.2 define it. */
module Sha1Spec {

  type Word = bv32
  type Byte = bv8

  function Rotl(x: Word, n: bv6): Word
    requires 0 < n < 32
  {
    (x << n) | (x >> (32 - n))
  }

  /** Section 4.1.1. */
  function Ch(x: Word, y: Word, z: Word): Word {
    (x & y) ^ (!x & z)
  }

  function Parity(x: Word, y: Word, z: Word): Word {
    x ^ y ^ z
  }

  function Maj(x: Word, y: Word, z: Word): Word {
    (x & y) ^ (x & z) ^ (y & z)
  }

  function F(t: nat, x: Word, y: Word, z: Word): Word {
    if t < 20 then Ch(x, y, z)
    else if t < 40 then Parity(x, y, z)
    else if t < 60 then Maj(x, y, z)
    else Parity(x, y, z)
  }

  /** Section 4.2.1. */
  function K(t: nat): Word {
    if t < 20 then 0x5a827999
    else if t < 40 then 0x6ed9eba1
    else if t < 60 then 0x8f1bbcdc
    else 0xca62c1d6
  }

  /** Addition modulo 2^32. */
  function Plus(x: Word, y: Word): Word {
    x + y
  }

  datatype State = State(a: Word, b: Word, c: Word, d: Word, e: Word)

  /** Section 5.3.1. */
  const H0: State := State(0x67452301, 0xefcdab89, 0x98badcfe, 0x10325476, 0xc3d2e1f0)

  function Mix(w3: Word, w8: Word, w14: Word, w16: Word): Word {
    Rotl(w3 ^ w8 ^ w14 ^ w16, 1)
  }

  /** Section 6.1.2, step 1: the message schedule. */
  function Schedule(m: seq<Word>, t: nat): Word
    requires |m| == 16
  {
    if t < 16 then m[t]
    else Mix(Schedule(m, t - 3), Schedule(m, t - 8), Schedule(m, t - 14), Schedule(m, t - 16))
  }

  function Temp(t: nat, s: State, w: Word): Word {
    Sum(Rotl(s.a, 5), F(t, s.b, s.c, s.d), s.e, K(t), w)
  }

  function Sum(r: Word, f: Word, e: Word, k: Word, w: Word): Word {
    r + f + e + k + w
  }

  /** Section 6.1.2, step 3: one round. */
  function Round(t: nat, s: State, w: Word): State {
    State(Temp(t, s, w), s.a, Rotl(s.b, 30), s.c, s.d)
  }

  function Rounds(s: State, m: seq<Word>, n: nat): State
    requires |m| == 16
  {
    if n == 0 then s else Round(n - 1, Rounds(s, m, n - 1), Schedule(m, n - 1))
  }

  /** Section 6.1.2, steps 2 to 4: one block. */
  function Compress(h: State, m: seq<Word>): State
    requires |m| == 16
  {
    var s := Rounds(h, m, 80);
    State(Plus(s.a, h.a), Plus(s.b, h.b), Plus(s.c, h.c), Plus(s.d, h.d), Plus(s.e, h.e))
  }

  /** Four bytes as a big-endian word (section 3.1). */
  function BigEndian(b0: Byte, b1: Byte, b2: Byte, b3: Byte): Word {
    (b0 as bv32 << 24) | (b1 as bv32 << 16) | (b2 as bv32 << 8) | (b3 as bv32)
  }

  function Words(block: seq<Byte>): (m: seq<Word>)
    requires |block| == 64
    ensures |m| == 16
  {
    seq(16, i requires 0 <= i < 16 => BigEndian(block[4 * i], block[4 * i + 1], block[4 * i + 2], block[4 * i + 3]))
  }

  /** Blocks one after the other; an incomplete block is left over. */
  function Hash(h: State, bytes: seq<Byte>): State
    decreases |bytes|
  {
    if |bytes| < 64 then h else Hash(Compress(h, Words(bytes[..64])), bytes[64..])
  }

  /** A length in bits as a 64-bit big-endian number. */
  function LengthBytes(bits: nat): (b: seq<Byte>)
    ensures |b| == 8
  {
    seq(8, i requires 0 <= i < 8 => Numbered(bits / Pow256(7 - i) % 256))
  }

  /** The byte with a given number. */
  function Numbered(n: nat): Byte
    requires n < 256
  {
    n as bv8
  }

  function Pow256(n: nat): (p: nat)
    ensures p > 0
  {
    if n == 0 then 1 else 256 * Pow256(n - 1)
  }

  /** Section 5.1.1: a one bit, the fewest zeros, then the length. */
  function Pad(message: seq<Byte>): seq<Byte> {
    message + [0x80] + Zeros(ZeroCount(|message|)) + LengthBytes(8 * |message|)
  }

  /** The smallest z with (n + 1 + z) % 64 == 56. */
  function ZeroCount(n: nat): nat {
    if n % 64 <= 55 then 55 - n % 64 else 119 - n % 64
  }

  function Zeros(n: nat): (z: seq<Byte>)
    ensures |z| == n
  {
    seq(n, i => 0)
  }

  function StateByte(s: State, i: nat): Byte
    requires i < 20
  {
    WordByte(if i < 4 then s.a else if i < 8 then s.b else if i < 12 then s.c else if i < 16 then s.d else s.e, i % 4)
  }

  function WordByte(w: Word, i: nat): Byte
    requires i < 4
  {
    ((w >> ((3 - i) * 8)) & 0xff) as bv8
  }

  /** The message digest. */
  function Sha1(message: seq<Byte>): seq<Byte> {
    seq(20, i requires 0 <= i < 20 => StateByte(Hash(H0, Pad(message)), i))
  }
}
