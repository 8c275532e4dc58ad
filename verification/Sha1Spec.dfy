/** SHA-1 as FIPS 180-4 defines it, written as a pure one-shot function.
    WordOrder is the one thing the standard fixes (most significant byte first,
    section 3.1) that the C file leaves to the machine it is compiled for. */
module Sha1Spec {
  import opened Words

  const BLOCK_SIZE := 64
  const DIGEST_SIZE := 20

  /** The five chaining words, and also the five working variables. */
  datatype Chain = Chain(a: Word, b: Word, c: Word, d: Word, e: Word)

  /** Section 5.3.1. */
  const IV := Chain(0x67452301, 0xefcdab89, 0x98badcfe, 0x10325476, 0xc3d2e1f0)

  /** Section 3.2, item 5. */
  function Rotl(x: Word, n: nat): Word
    requires n <= 32
  {
    x.RotateLeft(n)
  }

  /** Addition modulo 2^32 of the five terms of a round. */
  function Sum5(p: Word, q: Word, r: Word, s: Word, t: Word): Word { p + q + r + s + t }

  /** Section 4.1.1. */
  function Ch(x: Word, y: Word, z: Word): Word { (x & y) ^ (!x & z) }

  function Parity(x: Word, y: Word, z: Word): Word { x ^ y ^ z }

  function Maj(x: Word, y: Word, z: Word): Word { (x & y) ^ (x & z) ^ (y & z) }

  function F(t: nat, x: Word, y: Word, z: Word): Word {
    if t < 20 then Ch(x, y, z)
    else if t < 40 then Parity(x, y, z)
    else if t < 60 then Maj(x, y, z)
    else Parity(x, y, z)
  }

  /** Section 4.2.1. */
  function K(t: nat): Word {
    if t < 20 then 0x5a827999
    else if t < 40 then 0x6ed9eba1
    else if t < 60 then 0x8f1bbcdc
    else 0xca62c1d6
  }

  /** Message word t of a block, section 5.2.1 when the order is MsbFirst. */
  function BlockWord(order: WordOrder, block: seq<Byte>, t: nat): Word
    requires |block| == BLOCK_SIZE && t < 16
  {
    match order
    case MsbFirst => Pack(block[4*t], block[4*t+1], block[4*t+2], block[4*t+3])
    case LsbFirst => Pack(block[4*t+3], block[4*t+2], block[4*t+1], block[4*t])
  }

  function Xor4(p: Word, q: Word, r: Word, s: Word): Word { p ^ q ^ r ^ s }

  /** Message schedule, step 1 of section 6.1.2. */
  function Schedule(order: WordOrder, block: seq<Byte>, t: nat): Word
    requires |block| == BLOCK_SIZE
  {
    if t < 16 then BlockWord(order, block, t)
    else Rotl(Xor4(Schedule(order, block, t-3), Schedule(order, block, t-8),
                   Schedule(order, block, t-14), Schedule(order, block, t-16)), 1)
  }

  /** One iteration of step 3 of section 6.1.2. */
  function Round(t: nat, s: Chain, w: Word): Chain {
    Chain(Sum5(Rotl(s.a, 5), F(t, s.b, s.c, s.d), s.e, K(t), w), s.a, Rotl(s.b, 30), s.c, s.d)
  }

  /** The working variables after the first n iterations. */
  function Rounds(w: seq<Word>, s: Chain, n: nat): Chain
    requires n <= |w|
  {
    if n == 0 then s else Round(n - 1, Rounds(w, s, n - 1), w[n - 1])
  }

  /** Addition modulo 2^32. */
  function Add(x: Word, y: Word): Word { x + y }

  function AddChains(x: Chain, y: Chain): Chain {
    Chain(Add(x.a, y.a), Add(x.b, y.b), Add(x.c, y.c), Add(x.d, y.d), Add(x.e, y.e))
  }

  function Expanded(order: WordOrder, block: seq<Byte>): (w: seq<Word>)
    requires |block| == BLOCK_SIZE
    ensures |w| == 80
  {
    seq(80, t requires 0 <= t < 80 => Schedule(order, block, t))
  }

  /** Steps 1 to 4 of section 6.1.2 for one block. */
  function Compress(order: WordOrder, h: Chain, block: seq<Byte>): Chain
    requires |block| == BLOCK_SIZE
  {
    AddChains(h, Rounds(Expanded(order, block), h, 80))
  }

  /** The chaining value after all blocks of m. */
  function Absorb(order: WordOrder, m: seq<Byte>): Chain
    requires |m| % BLOCK_SIZE == 0
  {
    if m == [] then IV
    else Compress(order, Absorb(order, m[..|m| - BLOCK_SIZE]), m[|m| - BLOCK_SIZE..])
  }

  function Zeros(n: nat): seq<Byte> { seq(n, _ => 0) }

  /** Number of zero bytes in the padding. */
  function ZeroCount(n: nat): nat { (55 - n) % 64 }

  /** Section 5.1.1, for messages of whole bytes. */
  function Pad(m: seq<Byte>): (r: seq<Byte>)
    ensures |r| % BLOCK_SIZE == 0
  {
    ZeroCountIsLeast(|m|, 0);
    assert (|m| + 1 + ZeroCount(|m|) + 8) % 64 == 0;
    m + [0x80] + Zeros(ZeroCount(|m|)) + BigEndian64(8 * |m|)
  }

  function ChainBytes(h: Chain): (r: seq<Byte>)
    ensures |r| == DIGEST_SIZE
  {
    BigEndianBytes(h.a) + BigEndianBytes(h.b) + BigEndianBytes(h.c) + BigEndianBytes(h.d) + BigEndianBytes(h.e)
  }

  function Hash(order: WordOrder, m: seq<Byte>): (r: seq<Byte>)
    ensures |r| == DIGEST_SIZE
  {
    ChainBytes(Absorb(order, Pad(m)))
  }

  /** SHA-1 of the standard. */
  function Sha1(m: seq<Byte>): (r: seq<Byte>)
    ensures |r| == DIGEST_SIZE
  {
    Hash(MsbFirst, m)
  }

  /** The zero count is the least k with n + 1 + k congruent to 56 modulo 64,
      which is how section 5.1.1 words it (in bits: l + 1 + k = 448 mod 512). */
  lemma ZeroCountIsLeast(n: nat, k: nat)
    ensures (n + 1 + ZeroCount(n)) % 64 == 56
    ensures (n + 1 + k) % 64 == 56 ==> ZeroCount(n) <= k
  {
  }

  /** Absorbing one more block. */
  lemma AbsorbBlock(order: WordOrder, m: seq<Byte>, block: seq<Byte>)
    requires |m| % BLOCK_SIZE == 0 && |block| == BLOCK_SIZE
    ensures |m + block| % BLOCK_SIZE == 0
    ensures Absorb(order, m + block) == Compress(order, Absorb(order, m), block)
  {
    var all := m + block;
    assert all[..|all| - BLOCK_SIZE] == m;
    assert all[|all| - BLOCK_SIZE..] == block;
  }
}
