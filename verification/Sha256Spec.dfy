/** SHA-256 as FIPS 180-4 defines it. */
module Sha256Spec {
  import opened Crc32

  // ---------------------------------------------------------------- constants (sections 4.2.2 and 5.3.3)

  function K(): (k: seq<Word>)
    ensures |k| == 64
  {
    KFirst() + KSecond() + KThird() + KFourth()
  }

  function KFirst(): (k: seq<Word>)
    ensures |k| == 16
  {
    [0x428a2f98, 0x71374491, 0xb5c0fbcf, 0xe9b5dba5, 0x3956c25b, 0x59f111f1, 0x923f82a4, 0xab1c5ed5,
     0xd807aa98, 0x12835b01, 0x243185be, 0x550c7dc3, 0x72be5d74, 0x80deb1fe, 0x9bdc06a7, 0xc19bf174]
  }

  function KSecond(): (k: seq<Word>)
    ensures |k| == 16
  {
    [0xe49b69c1, 0xefbe4786, 0x0fc19dc6, 0x240ca1cc, 0x2de92c6f, 0x4a7484aa, 0x5cb0a9dc, 0x76f988da,
     0x983e5152, 0xa831c66d, 0xb00327c8, 0xbf597fc7, 0xc6e00bf3, 0xd5a79147, 0x06ca6351, 0x14292967]
  }

  function KThird(): (k: seq<Word>)
    ensures |k| == 16
  {
    [0x27b70a85, 0x2e1b2138, 0x4d2c6dfc, 0x53380d13, 0x650a7354, 0x766a0abb, 0x81c2c92e, 0x92722c85,
     0xa2bfe8a1, 0xa81a664b, 0xc24b8b70, 0xc76c51a3, 0xd192e819, 0xd6990624, 0xf40e3585, 0x106aa070]
  }

  function KFourth(): (k: seq<Word>)
    ensures |k| == 16
  {
    [0x19a4c116, 0x1e376c08, 0x2748774c, 0x34b0bcb5, 0x391c0cb3, 0x4ed8aa4a, 0x5b9cca4f, 0x682e6ff3,
     0x748f82ee, 0x78a5636f, 0x84c87814, 0x8cc70208, 0x90befffa, 0xa4506ceb, 0xbef9a3f7, 0xc67178f2]
  }

  function H0(): (h: seq<Word>)
    ensures |h| == 8
  {
    [0x6a09e667, 0xbb67ae85, 0x3c6ef372, 0xa54ff53a, 0x510e527f, 0x9b05688c, 0x1f83d9ab, 0x5be0cd19]
  }

  // ---------------------------------------------------------------- functions (section 4.1.2)

  /** Section 3.2: addition modulo 2^32. */
  function Plus(x: Word, y: Word): Word {
    x + y
  }

  /** Section 3.2: rotation to the right. */
  function Rotr(x: Word, n: bv6): Word
    requires 0 < n < 32
  {
    (x >> n) | (x << (32 - n))
  }

  function Ch(x: Word, y: Word, z: Word): Word { (x & y) ^ (!x & z) }
  function Maj(x: Word, y: Word, z: Word): Word { (x & y) ^ (x & z) ^ (y & z) }
  function BigSigma0(x: Word): Word { Rotr(x, 2) ^ Rotr(x, 13) ^ Rotr(x, 22) }
  function BigSigma1(x: Word): Word { Rotr(x, 6) ^ Rotr(x, 11) ^ Rotr(x, 25) }
  function SmallSigma0(x: Word): Word { Rotr(x, 7) ^ Rotr(x, 18) ^ (x >> 3) }
  function SmallSigma1(x: Word): Word { Rotr(x, 17) ^ Rotr(x, 19) ^ (x >> 10) }

  // ---------------------------------------------------------------- padding and parsing (sections 5.1.1 and 5.2.1)

  /** The `n` last base-256 digits of `v`, most significant first. */
  function BigEndian(v: nat, n: nat): (b: seq<Byte>)
    ensures |b| == n
  {
    if n == 0 then [] else BigEndian(v / 256, n - 1) + [(v % 256) as Byte]
  }

  const TWO64: int := 0x1_0000_0000_0000_0000

  /** The least number of zero bytes that brings the padded message to whole blocks. */
  function ZeroCount(length: nat): nat {
    (55 - length) % 64
  }

  /** The message, a one bit, zeros, and the length in bits as a 64-bit number. The standard hashes
      messages of fewer than 2^64 bits; beyond that the length field is taken modulo 2^64. */
  function Pad(message: seq<Byte>): seq<Byte> {
    message + [0x80] + Zeros(ZeroCount(|message|)) + BigEndian(8 * |message| % TWO64, 8)
  }

  /** The `t`-th big-endian word of a block. */
  function MessageWord(block: seq<Byte>, t: nat): Word
    requires |block| == 64 && t < 16
  {
    ((block[4 * t] as Word) << 24) | ((block[4 * t + 1] as Word) << 16)
    | ((block[4 * t + 2] as Word) << 8) | (block[4 * t + 3] as Word)
  }

  // ---------------------------------------------------------------- hash computation (section 6.2.2)

  function Expand(w2: Word, w7: Word, w15: Word, w16: Word): Word {
    Plus(Plus(Plus(w16, SmallSigma0(w15)), w7), SmallSigma1(w2))
  }

  /** Step 1: the message schedule. */
  function Schedule(block: seq<Byte>, t: nat): Word
    requires |block| == 64
  {
    if t < 16 then MessageWord(block, t)
    else Expand(Schedule(block, t - 2), Schedule(block, t - 7), Schedule(block, t - 15), Schedule(block, t - 16))
  }

  datatype Working = Working(a: Word, b: Word, c: Word, d: Word, e: Word, f: Word, g: Word, h: Word)

  type HashValue = h: seq<Word> | |h| == 8 witness [0, 0, 0, 0, 0, 0, 0, 0]

  /** Step 3: one round. */
  function Round(v: Working, k: Word, w: Word): Working {
    var t1 := Plus(Plus(Plus(Plus(v.h, BigSigma1(v.e)), Ch(v.e, v.f, v.g)), k), w);
    var t2 := Plus(BigSigma0(v.a), Maj(v.a, v.b, v.c));
    Working(Plus(t1, t2), v.a, v.b, v.c, Plus(v.d, t1), v.e, v.f, v.g)
  }

  /** Step 3: the first `t` rounds. */
  function Rounds(v: Working, block: seq<Byte>, t: nat): Working
    requires |block| == 64 && t <= 64
  {
    if t == 0 then v else Round(Rounds(v, block, t - 1), K()[t - 1], Schedule(block, t - 1))
  }

  /** Step 2. */
  function Start(h: HashValue): Working {
    Working(h[0], h[1], h[2], h[3], h[4], h[5], h[6], h[7])
  }

  /** Step 4. */
  function Add(h: HashValue, v: Working): HashValue {
    [Plus(h[0], v.a), Plus(h[1], v.b), Plus(h[2], v.c), Plus(h[3], v.d),
     Plus(h[4], v.e), Plus(h[5], v.f), Plus(h[6], v.g), Plus(h[7], v.h)]
  }

  function Compress(h: HashValue, block: seq<Byte>): HashValue
    requires |block| == 64
  {
    Add(h, Rounds(Start(h), block, 64))
  }

  /** All whole blocks of a string, one after the other. */
  function Fold(h: HashValue, blocks: seq<Byte>): HashValue
    requires |blocks| % 64 == 0
  {
    if blocks == [] then h
    else Compress(Fold(h, blocks[..|blocks| - 64]), blocks[|blocks| - 64..])
  }

  function BigEndianWord(w: Word): seq<Byte> {
    [((w >> 24) & 0xFF) as Byte, ((w >> 16) & 0xFF) as Byte, ((w >> 8) & 0xFF) as Byte, (w & 0xFF) as Byte]
  }

  /** The first `n` words of a hash value as bytes. */
  function HashBytes(h: HashValue, n: nat): (b: seq<Byte>)
    requires n <= 8
    ensures |b| == 4 * n
  {
    if n == 0 then [] else HashBytes(h, n - 1) + BigEndianWord(h[n - 1])
  }

  lemma ZerosFill(length: nat)
    ensures (length + 1 + ZeroCount(length) + 8) % 64 == 0
  {
  }

  lemma PadLength(message: seq<Byte>)
    ensures |Pad(message)| % 64 == 0
  {
    hide ZeroCount, BigEndian, Zeros;
    ZerosFill(|message|);
  }

  /** The digest of a message. */
  function Sha256(message: seq<Byte>): (d: seq<Byte>)
    ensures |d| == 32
  {
    PadLength(message);
    HashBytes(Fold(H0(), Pad(message)), 8)
  }

  lemma FoldSnoc(h: HashValue, blocks: seq<Byte>, block: seq<Byte>)
    requires |blocks| % 64 == 0 && |block| == 64
    ensures Fold(h, blocks + block) == Compress(Fold(h, blocks), block)
  {
    assert (blocks + block)[..|blocks|] == blocks && (blocks + block)[|blocks|..] == block;
  }
}
