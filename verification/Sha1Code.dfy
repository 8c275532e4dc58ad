/** The streaming SHA-1 object of sha1.c. */
module Sha1Code {
  import opened Words
  import opened Sha1Spec
  import opened Sha1Round

  /** sha1.c fixes BYTE_ORDER to 1234, so the swapping loop is always compiled. */
  function ByteSwap(t: Word): Word {
    ((t << 24) & 0xff000000) | ((t << 8) & 0x00ff0000) | ((t >> 8) & 0x0000ff00) | ((t >> 24) & 0x000000ff)
  }

  /** The order in which the swapping loop therefore reads message bytes. */
  function OrderOn(host: Host): WordOrder {
    if host.LittleEndianHost? then MsbFirst else LsbFirst
  }

  lemma SwapReverses(b0: Byte, b1: Byte, b2: Byte, b3: Byte)
    ensures ByteSwap(Pack(b0, b1, b2, b3)) == Pack(b3, b2, b1, b0)
  {
  }

  /** Word t of the block, as the swapping loop loads it. */
  function LoadedWord(host: Host, block: seq<Byte>, t: nat): Word
    requires |block| == BLOCK_SIZE && t < 16
  {
    ByteSwap(Load32(host, block[4*t], block[4*t+1], block[4*t+2], block[4*t+3]))
  }

  lemma LoadedWordOrder(host: Host, block: seq<Byte>, t: nat)
    requires |block| == BLOCK_SIZE && t < 16
    ensures LoadedWord(host, block, t) == BlockWord(OrderOn(host), block, t)
  {
    hide ByteSwap, Pack;
    SwapReverses(block[4*t], block[4*t+1], block[4*t+2], block[4*t+3]);
    SwapReverses(block[4*t+3], block[4*t+2], block[4*t+1], block[4*t]);
  }

  /** A word is that of the standard on a little-endian host, and on a big-endian one only
      if it reads the same in both directions. */
  lemma WordMeetsStandardExactlyWhen(host: Host, block: seq<Byte>, t: nat)
    requires |block| == BLOCK_SIZE && t < 16
    ensures LoadedWord(host, block, t) == BlockWord(MsbFirst, block, t) <==> host.LittleEndianHost? || Symmetric(block, t)
  {
    hide LoadedWord, Pack;
    LoadedWordOrder(host, block, t);
    PackInjective(block[4*t], block[4*t+1], block[4*t+2], block[4*t+3],
                  block[4*t+3], block[4*t+2], block[4*t+1], block[4*t]);
  }

  /** The words of a block are those of the standard on a little-endian host, and on a
      big-endian one only for blocks that read the same in both directions. */
  lemma LoadMeetsStandardExactlyWhen(host: Host, block: seq<Byte>)
    requires |block| == BLOCK_SIZE
    ensures (forall t :: 0 <= t < 16 ==> LoadedWord(host, block, t) == BlockWord(MsbFirst, block, t))
       <==> (host.LittleEndianHost? || forall t :: 0 <= t < 16 ==> Symmetric(block, t))
  {
    hide LoadedWord, BlockWord, Symmetric;
    forall t | 0 <= t < 16
      ensures LoadedWord(host, block, t) == BlockWord(MsbFirst, block, t) <==> host.LittleEndianHost? || Symmetric(block, t)
    {
      WordMeetsStandardExactlyWhen(host, block, t);
    }
  }

  function Block(p: seq<Byte>, i: nat): (b: seq<Byte>)
    requires |p| % BLOCK_SIZE == 0 && i < |p| / BLOCK_SIZE
    ensures |b| == BLOCK_SIZE
  {
    p[BLOCK_SIZE * i..BLOCK_SIZE * i + BLOCK_SIZE]
  }

  /** Every word of every block is loaded as the standard says. */
  ghost predicate LoadsAsStandard(host: Host, p: seq<Byte>)
    requires |p| % BLOCK_SIZE == 0
  {
    forall i, t :: 0 <= i < |p| / BLOCK_SIZE && 0 <= t < 16 ==>
      LoadedWord(host, Block(p, i), t) == BlockWord(MsbFirst, Block(p, i), t)
  }

  /** Word t of a block reads the same from both ends. */
  predicate Symmetric(b: seq<Byte>, t: nat)
    requires |b| == BLOCK_SIZE && t < 16
  {
    b[4*t] == b[4*t+3] && b[4*t+1] == b[4*t+2]
  }

  /** A whole message is loaded as the standard says exactly on a little-endian host, or
      if every word of the padded message is symmetric. */
  lemma MessageMeetsStandardExactlyWhen(host: Host, m: seq<Byte>)
    ensures LoadsAsStandard(host, Pad(m))
       <==> (host.LittleEndianHost?
             || forall i, t :: 0 <= i < |Pad(m)| / BLOCK_SIZE && 0 <= t < 16 ==> Symmetric(Block(Pad(m), i), t))
  {
    hide Pad, LoadedWord, BlockWord, Block;
    forall i, t | 0 <= i < |Pad(m)| / BLOCK_SIZE && 0 <= t < 16
      ensures LoadedWord(host, Block(Pad(m), i), t) == BlockWord(MsbFirst, Block(Pad(m), i), t)
         <==> host.LittleEndianHost? || Symmetric(Block(Pad(m), i), t)
    {
      WordMeetsStandardExactlyWhen(host, Block(Pad(m), i), t);
    }
  }

  /** So on a big-endian host no message of a multiple of four bytes is: the 0x80 byte is
      followed by zeros. This takes in both messages hashed for a one-time code, of 68
      and 84 bytes. */
  lemma FourByteMessagesMisread(m: seq<Byte>)
    requires |m| % 4 == 0
    ensures !LoadsAsStandard(BigEndianHost, Pad(m))
  {
    var i, t := |m| / 64, |m| % 64 / 4;
    MarkedWord(m, i, t);
    hide Pad, Block, LoadsAsStandard;
    MessageMeetsStandardExactlyWhen(BigEndianHost, m);
  }

  lemma MarkedWord(m: seq<Byte>, i: nat, t: nat)
    requires |m| % 4 == 0 && i == |m| / 64 && t == |m| % 64 / 4
    ensures i < |Pad(m)| / BLOCK_SIZE && t < 16 && !Symmetric(Block(Pad(m), i), t)
  {
    hide Pad;
    PadMark(m);
    var p, n := Pad(m), |m|;
    assert n == 64 * i + 4 * t;
    assert Block(p, i)[4 * t] == p[n] && Block(p, i)[4 * t + 3] == p[n + 3];
  }

  lemma PadMark(m: seq<Byte>)
    requires |m| % 4 == 0
    ensures |m| + 4 <= |Pad(m)| && Pad(m)[|m|] == 0x80 && Pad(m)[|m| + 3] == 0
  {
    hide BigEndian64;
    ZeroCountCases(|m|);
    assert ZeroCount(|m|) >= 3;
    var head := m + [0x80] + Zeros(ZeroCount(|m|));
    assert Pad(m) == head + BigEndian64(8 * |m|);
    assert head[|m|] == 0x80 && head[|m| + 3] == 0;
  }

  /** The 64-bit bit counter held in two 32-bit halves, after count more bytes. */
  function CountAfter(hi: nat, lo: nat, count: nat): (nat, nat) {
    var clo := (lo + (count * 8) % UINT32_SPAN) % UINT32_SPAN;
    var carried := if clo < lo then (hi + 1) % UINT32_SPAN else hi;
    ((carried + count / 0x2000_0000) % UINT32_SPAN, clo)
  }

  lemma LowHalf(lo: nat, count: nat)
    requires lo < UINT32_SPAN && count < UINT32_SPAN
    ensures var r := 8 * (count % 0x2000_0000);
            CountAfter(0, lo, count).1 == if lo + r < UINT32_SPAN then lo + r else lo + r - UINT32_SPAN
  {
    var q := count / 0x2000_0000;
    assert count * 8 == q * UINT32_SPAN + 8 * (count % 0x2000_0000);
    assert (count * 8) % UINT32_SPAN == 8 * (count % 0x2000_0000);
  }

  lemma Wrap32(x: nat)
    requires x < 2 * UINT32_SPAN
    ensures x % UINT32_SPAN == if x < UINT32_SPAN then x else x - UINT32_SPAN
  {
  }

  lemma Wrap64(x: nat)
    requires x < 2 * UINT64_SPAN
    ensures x % UINT64_SPAN == if x < UINT64_SPAN then x else x - UINT64_SPAN
  {
  }

  /** The carry test and the two shifts amount to 64-bit addition of 8 * count. */
  lemma CountIs64Bit(hi: nat, lo: nat, count: nat)
    requires hi < UINT32_SPAN && lo < UINT32_SPAN && count < UINT32_SPAN
    ensures var (h, l) := CountAfter(hi, lo, count);
            h < UINT32_SPAN && l < UINT32_SPAN &&
            h * UINT32_SPAN + l == (hi * UINT32_SPAN + lo + 8 * count) % UINT64_SPAN
  {
    var q, r := count / 0x2000_0000, 8 * (count % 0x2000_0000);
    assert 8 * count == q * UINT32_SPAN + r && q < 8;
    LowHalf(lo, count);
    var carried := if lo + r < UINT32_SPAN then hi else hi + 1;
    Wrap32(hi + 1);
    Wrap32(carried + q);
    Wrap32(carried % UINT32_SPAN + q);
    Wrap64(hi * UINT32_SPAN + lo + 8 * count);
  }

  /** Adding to a counter that is right modulo 2^64 keeps it right. */
  lemma CounterTracks(hi: nat, lo: nat, total: nat, count: nat)
    requires hi < UINT32_SPAN && lo < UINT32_SPAN && count < UINT32_SPAN
    requires hi * UINT32_SPAN + lo == (8 * total) % UINT64_SPAN
    ensures var (h, l) := CountAfter(hi, lo, count);
            h < UINT32_SPAN && l < UINT32_SPAN &&
            h * UINT32_SPAN + l == (8 * (total + count)) % UINT64_SPAN
  {
    CountIs64Bit(hi, lo, count);
    var k := (8 * total) / UINT64_SPAN;
    assert 8 * total == k * UINT64_SPAN + (hi * UINT32_SPAN + lo);
    ModShift(hi * UINT32_SPAN + lo + 8 * count, k);
  }

  lemma ModShift(x: nat, k: nat)
    ensures (x + k * UINT64_SPAN) % UINT64_SPAN == x % UINT64_SPAN
  {
    var q := x / UINT64_SPAN;
    assert x + k * UINT64_SPAN == (q + k) * UINT64_SPAN + x % UINT64_SPAN;
  }

  /** A 32-bit counter half written with the shifts 24, 16, 8, 0. */
  function HalfBytes(half: nat): (r: seq<Byte>)
    ensures |r| == 4
  {
    [Octet(half / 0x100_0000), Octet(half / 0x1_0000), Octet(half / 0x100), Octet(half)]
  }

  lemma DropHigh(n: nat, high: nat, low: nat)
    requires n == high * UINT32_SPAN + low && low < UINT32_SPAN
    ensures n / 0x100_0000 == high * 0x100 + low / 0x100_0000
    ensures n / 0x1_0000 == high * 0x1_0000 + low / 0x1_0000
    ensures n / 0x100 == high * 0x100_0000 + low / 0x100
    ensures n / UINT32_SPAN == high
  {
    assert n == (high * 0x100 + low / 0x100_0000) * 0x100_0000 + low % 0x100_0000;
    assert n == (high * 0x1_0000 + low / 0x1_0000) * 0x1_0000 + low % 0x1_0000;
    assert n == (high * 0x100_0000 + low / 0x100) * 0x100 + low % 0x100;
  }

  lemma OctetModulo(q: nat, x: nat)
    ensures Octet(q * 0x100 + x) == Octet(x)
  {
    assert (q * 0x100 + x) % 0x100 == x % 0x100;
  }

  /** Only the low half decides the low four bytes. */
  lemma LowBytes(n: nat, high: nat, low: nat)
    requires n == high * UINT32_SPAN + low && low < UINT32_SPAN
    ensures HalfBytes(n) == HalfBytes(low)
  {
    hide Octet;
    DropHigh(n, high, low);
    OctetModulo(high, low / 0x100_0000);
    OctetModulo(high * 0x100, low / 0x1_0000);
    OctetModulo(high * 0x1_0000, low / 0x100);
    OctetModulo(high * 0x100_0000, low);
    assert high * 0x100 * 0x100 + low / 0x1_0000 == high * 0x1_0000 + low / 0x1_0000;
    assert high * 0x1_0000 * 0x100 + low / 0x100 == high * 0x100_0000 + low / 0x100;
    assert high * 0x100_0000 * 0x100 + low == n;
  }

  lemma DivTwice(n: nat)
    ensures n / 0x1_0000_0000 / 0x100 == n / 0x100_0000_0000
    ensures n / 0x1_0000_0000 / 0x1_0000 == n / 0x1_0000_0000_0000
    ensures n / 0x1_0000_0000 / 0x100_0000 == n / 0x100_0000_0000_0000
  {
  }

  /** The two halves written big-endian are the length field of the standard. */
  lemma LengthField(hi: nat, lo: nat, n: nat)
    requires hi < UINT32_SPAN && lo < UINT32_SPAN
    requires hi * UINT32_SPAN + lo == n % UINT64_SPAN
    ensures BigEndian64(n) == HalfBytes(hi) + HalfBytes(lo)
  {
    hide Octet;
    var k := n / UINT64_SPAN;
    var top := k * UINT32_SPAN + hi;
    assert n == top * UINT32_SPAN + lo;
    DropHigh(n, top, lo);
    LowBytes(n, top, lo);
    LowBytes(top, k, hi);
    DivTwice(n);
    assert BigEndian64(n) == HalfBytes(top) + HalfBytes(n);
  }

  lemma WholeOf(n: nat, tail: nat)
    requires n % BLOCK_SIZE == 0 && tail < BLOCK_SIZE
    ensures Whole(n + tail) == n && (n + tail) % BLOCK_SIZE == tail
  {
  }

  /** The byte count modulo 64, as sha1_final recovers it from the bit counter. */
  lemma PendingFromCounter(hi: nat, lo: nat, n: nat)
    requires lo < UINT32_SPAN
    requires hi * UINT32_SPAN + lo == (8 * n) % UINT64_SPAN
    ensures (lo / 8) % 64 == n % 64
  {
    var k := (8 * n) / UINT64_SPAN;
    assert 8 * n == k * UINT64_SPAN + hi * UINT32_SPAN + lo;
    assert n == (k * 0x2000_0000_0000_0000 + hi * 0x2000_0000) + lo / 8;
    assert n % 64 == (lo / 8) % 64;
  }

  /** Length of the part of a message that is in whole blocks. */
  function Whole(n: nat): (r: nat)
    ensures r <= n && r % BLOCK_SIZE == 0 && n - r == n % BLOCK_SIZE
  {
    n - n % BLOCK_SIZE
  }

  /** The four loops FG(1) to FG(4) of sha1_transform. */
  method FgLoops(W: seq<Word>, h: Chain) returns (s: Chain)
    requires |W| == 80
    ensures s == Rounds(W, h, 80)
  {
    hide FG, Round;
    s := h;
    for i := 0 to 20
      invariant s == Rounds(W, h, i)
    {
      PlainRound(i, s, W[i]);
      s := FG(1, s, W[i]);
    }
    for i := 20 to 40
      invariant s == Rounds(W, h, i)
    {
      PlainRound(i, s, W[i]);
      s := FG(2, s, W[i]);
    }
    for i := 40 to 60
      invariant s == Rounds(W, h, i)
    {
      PlainRound(i, s, W[i]);
      s := FG(3, s, W[i]);
    }
    for i := 60 to 80
      invariant s == Rounds(W, h, i)
    {
      PlainRound(i, s, W[i]);
      s := FG(4, s, W[i]);
    }
  }

  lemma ZeroCountCases(n: nat)
    ensures ZeroCount(n) == if n % 64 <= 55 then 55 - n % 64 else 119 - n % 64
  {
  }

  /** Where the parts of the padding fall in the last one or two blocks. */
  lemma PadSlices(m: seq<Byte>, p: seq<Byte>, w: nat, c: nat)
    requires p == Pad(m) && w == Whole(|m|) && c == |m| % BLOCK_SIZE + 1
    ensures |p| == w + (if c > 56 then 2 * BLOCK_SIZE else BLOCK_SIZE)
    ensures p[..w] == m[..w]
    ensures p[w..w + c] == m[w..] + [0x80]
    ensures p[|p| - 8..] == BigEndian64(8 * |m|)
    ensures c <= 56 ==> p[w + c..w + 56] == Zeros(56 - c)
    ensures c > 56 ==> p[w + c..w + BLOCK_SIZE] == Zeros(BLOCK_SIZE - c)
    ensures c > 56 ==> p[w + BLOCK_SIZE..w + 120] == Zeros(56)
  {
    hide BigEndian64;
    ZeroCountCases(|m|);
  }

  /** SHA1_INFO. digest has eight words, of which five are used. */
  class Sha1Info {
    const host: Host
    const digest: array<Word>
    var countLo: nat
    var countHi: nat
    const data: array<Byte>
    var local: nat

    /** Everything passed to Update since the last Init. */
    ghost var message: seq<Byte>

    constructor (host: Host)
      ensures this.host == host && Shaped() && fresh(digest) && fresh(data)
    {
      this.host := host;
      digest := new Word[8];
      data := new Byte[64];
      countLo, countHi, local := 0, 0, 0;
      message := [];
    }

    ghost predicate Shaped() {
      digest.Length == 8 && data.Length == BLOCK_SIZE
    }

    ghost function State(): Chain
      requires Shaped()
      reads digest
    {
      Chain(digest[0], digest[1], digest[2], digest[3], digest[4])
    }

    /** The counters hold 8 * n modulo 2^64. */
    ghost predicate Counted(n: nat)
      reads this
    {
      countHi < UINT32_SPAN && countLo < UINT32_SPAN &&
      countHi * UINT32_SPAN + countLo == (8 * n) % UINT64_SPAN
    }

    /** The object represents message: whole blocks are in the digest, the tail in data. */
    ghost predicate Valid()
      reads this, digest, data
    {
      Shaped() && Counted(|message|) && local == |message| % BLOCK_SIZE &&
      State() == Absorb(OrderOn(host), message[..Whole(|message|)]) &&
      data[..local] == message[Whole(|message|)..]
    }

    method Init()
      requires Shaped()
      modifies this, digest
      ensures Valid() && message == []
    {
      digest[0] := 0x67452301;
      digest[1] := 0xefcdab89;
      digest[2] := 0x98badcfe;
      digest[3] := 0x10325476;
      digest[4] := 0xc3d2e1f0;
      countLo, countHi, local := 0, 0, 0;
      message := [];
    }

    /** Sixteen byte-swapping loads. */
    method SwapIn(w: array<Word>)
      requires Shaped() && w.Length == 80 && w != digest
      modifies w
      ensures forall j :: 0 <= j < 16 ==> w[j] == Schedule(OrderOn(host), data[..], j)
    {
      hide ByteSwap, Pack, Load32, BlockWord, Rotl;
      var i, dp := 0, 0;
      while i < 16
        invariant 0 <= i <= 16 && dp == 4 * i
        invariant forall j :: 0 <= j < i ==> w[j] == Schedule(OrderOn(host), data[..], j)
      {
        var t := Load32(host, data[dp], data[dp + 1], data[dp + 2], data[dp + 3]);
        dp := dp + 4;
        w[i] := ByteSwap(t);
        LoadedWordOrder(host, data[..], i);
        i := i + 1;
      }
    }

    /** The sixteen loaded words expanded to eighty. */
    method Extend(w: array<Word>)
      requires Shaped() && w.Length == 80 && w != digest
      requires forall j :: 0 <= j < 16 ==> w[j] == Schedule(OrderOn(host), data[..], j)
      modifies w
      ensures w[..] == Expanded(OrderOn(host), data[..])
    {
      hide R32, BlockWord, Rotl, Xor4;
      var i := 16;
      while i < 80
        invariant 16 <= i <= 80
        invariant forall j :: 0 <= j < i ==> w[j] == Schedule(OrderOn(host), data[..], j)
      {
        w[i] := Xor4(w[i-3], w[i-8], w[i-14], w[i-16]);
        R32IsRotate(w[i]);
        w[i] := R32(w[i], 1);
        i := i + 1;
      }
    }

    /** sha1_transform as built: neither UNRAVEL nor UNROLL_LOOPS is defined. */
    method Transform()
      requires Shaped()
      modifies digest
      ensures State() == Compress(OrderOn(host), old(State()), data[..])
    {
      var W := new Word[80];
      SwapIn(W);
      Extend(W);
      var s := FgLoops(W[..], Chain(digest[0], digest[1], digest[2], digest[3], digest[4]));
      AddDigest(s.a, s.b, s.c, s.d, s.e);
    }

    /** The UNRAVEL alternative: it computes the same digest. */
    method TransformUnravelled()
      requires Shaped()
      modifies digest
      ensures State() == Compress(OrderOn(host), old(State()), data[..])
    {
      hide Schedule, Run, Rounds;
      var W := new Word[80];
      SwapIn(W);
      Extend(W);
      var v := Vars(0, digest[0], digest[1], digest[2], digest[3], digest[4]);
      UnravelledFinal(v, W[..]);
      var u := Run(UNRAVELLED, v, W[..], 80);
      AddDigest(u.E, u.T, u.A, u.B, u.C);
    }

    /** The final additions. */
    method AddDigest(a: Word, b: Word, c: Word, d: Word, e: Word)
      requires Shaped()
      modifies digest
      ensures State() == AddChains(old(State()), Chain(a, b, c, d, e))
    {
      hide Add;
      digest[0] := Add(digest[0], a);
      digest[1] := Add(digest[1], b);
      digest[2] := Add(digest[2], c);
      digest[3] := Add(digest[3], d);
      digest[4] := Add(digest[4], e);
    }

    /** memcpy into data at off. */
    method CopyIn(off: nat, src: seq<Byte>)
      requires Shaped() && off + |src| <= BLOCK_SIZE
      modifies data
      ensures data[..] == old(data[..off]) + src + old(data[off + |src|..])
    {
      forall i | 0 <= i < |src| {
        data[off + i] := src[i];
      }
    }

    /** Absorb the full buffer: all[..n] is in the digest, the buffer holds the next block. */
    method TransformNext(ghost all: seq<Byte>, ghost n: nat)
      requires Shaped() && n % BLOCK_SIZE == 0 && n + BLOCK_SIZE <= |all|
      requires State() == Absorb(OrderOn(host), all[..n])
      requires data[..] == all[n..n + BLOCK_SIZE]
      modifies digest
      ensures State() == Absorb(OrderOn(host), all[..n + BLOCK_SIZE])
    {
      hide Compress;
      AbsorbBlock(OrderOn(host), all[..n], all[n..n + BLOCK_SIZE]);
      assert all[..n] + all[n..n + BLOCK_SIZE] == all[..n + BLOCK_SIZE];
      Transform();
    }

    method CountBytes(count: nat)
      requires count < UINT32_SPAN && Counted(|message|)
      modifies `countLo, `countHi
      ensures Counted(|message| + count)
    {
      CounterTracks(countHi, countLo, |message|, count);
      var clo := (countLo + (count * 8) % UINT32_SPAN) % UINT32_SPAN;
      if clo < countLo {
        countHi := (countHi + 1) % UINT32_SPAN;
      }
      countLo := clo;
      countHi := (countHi + count / 0x2000_0000) % UINT32_SPAN;
    }

    /** The first n bytes of all are in: whole blocks in the digest, the rest in data. */
    ghost predicate Holds(all: seq<Byte>, n: nat)
      requires Shaped() && n <= |all|
      reads this, digest, data
    {
      local == n % BLOCK_SIZE &&
      State() == Absorb(OrderOn(host), all[..Whole(n)]) &&
      data[..local] == all[Whole(n)..n]
    }

    /** First branch of sha1_update: complete the pending block as far as the buffer goes. */
    method TopUp(buffer: seq<Byte>, ghost all: seq<Byte>, ghost n: nat) returns (i: nat)
      requires Shaped() && n <= |all| && all[n..] == buffer
      requires Holds(all, n) && local != 0
      modifies `local, digest, data
      ensures i == if BLOCK_SIZE - old(local) > |buffer| then |buffer| else BLOCK_SIZE - old(local)
      ensures local == old(local) + i
      ensures if local == BLOCK_SIZE then (n + i) % BLOCK_SIZE == 0 && State() == Absorb(OrderOn(host), all[..n + i])
              else Holds(all, |all|)
    {
      hide Absorb;
      i := BLOCK_SIZE - local;
      if i > |buffer| {
        i := |buffer|;
      }
      CopyIn(local, buffer[..i]);
      local := local + i;
      assert data[..local] == all[Whole(n)..n + i];
      if local == BLOCK_SIZE {
        assert data[..] == data[..local];
        TransformNext(all, Whole(n));
      }
    }

    /** Rest of sha1_update: whole blocks straight from the buffer, then the tail. */
    method TakeBlocks(buffer: seq<Byte>, ghost all: seq<Byte>, ghost n: nat)
      requires Shaped() && n <= |all| && all[n..] == buffer && n % BLOCK_SIZE == 0
      requires State() == Absorb(OrderOn(host), all[..n])
      modifies `local, digest, data
      ensures Holds(all, |all|)
    {
      hide Absorb, Compress, OrderOn, Whole;
      var count, p := |buffer|, 0;
      ghost var at := n;
      while count >= BLOCK_SIZE
        invariant 0 <= count == |buffer| - p && at == n + p
        invariant at % BLOCK_SIZE == 0
        invariant State() == Absorb(OrderOn(host), all[..at])
      {
        CopyIn(0, buffer[p..p + BLOCK_SIZE]);
        assert data[..] == all[at..at + BLOCK_SIZE];
        TransformNext(all, at);
        p := p + BLOCK_SIZE;
        count := count - BLOCK_SIZE;
        at := at + BLOCK_SIZE;
      }
      CopyIn(0, buffer[p..]);
      local := count;
      WholeOf(at, count);
    }

    /** sha1_update, for any split of the input into buffers. */
    method Update(buffer: seq<Byte>)
      requires Valid() && |buffer| < 0x8000_0000
      modifies this, digest, data
      ensures Valid() && message == old(message) + buffer
    {
      hide Absorb;
      ghost var all, n := message + buffer, |message|;
      CountBytes(|buffer|);
      assert all[..Whole(n)] == message[..Whole(n)];
      assert all[n..] == buffer;
      var p := 0;
      if local != 0 {
        p := TopUp(buffer, all, n);
        if local != BLOCK_SIZE {
          message := all;
          return;
        }
      }
      TakeBlocks(buffer[p..], all, n + p);
      message := all;
    }

    /** memset of part of data to zero. */
    method Clear(off: nat, n: nat)
      requires Shaped() && off + n <= BLOCK_SIZE
      modifies data
      ensures data[..] == old(data[..off]) + Zeros(n) + old(data[off + n..])
    {
      forall i | 0 <= i < n {
        data[off + i] := 0;
      }
    }

    /** sha1_final up to the length field when the pending block has room for it. */
    method PadRoom(count: nat, ghost padded: seq<Byte>, ghost w: nat)
      requires Shaped() && count <= 56 && w + 56 <= |padded|
      requires data[..count] == padded[w..w + count]
      requires padded[w + count..w + 56] == Zeros(56 - count)
      modifies data
      ensures data[..56] == padded[w..w + 56]
    {
      Clear(count, BLOCK_SIZE - 8 - count);
    }

    /** The other branch: the pending block goes in first and a block of zeros follows. */
    method PadNoRoom(count: nat, ghost padded: seq<Byte>, ghost w: nat)
      requires Shaped() && count <= BLOCK_SIZE && w % BLOCK_SIZE == 0 && w + 120 <= |padded|
      requires data[..count] == padded[w..w + count]
      requires padded[w + count..w + BLOCK_SIZE] == Zeros(BLOCK_SIZE - count)
      requires padded[w + BLOCK_SIZE..w + 120] == Zeros(56)
      requires State() == Absorb(OrderOn(host), padded[..w])
      modifies digest, data
      ensures data[..56] == padded[w + BLOCK_SIZE..w + 120]
      ensures State() == Absorb(OrderOn(host), padded[..w + BLOCK_SIZE])
    {
      hide Absorb, Compress;
      Clear(count, BLOCK_SIZE - count);
      assert data[..] == padded[w..w + BLOCK_SIZE];
      TransformNext(padded, w);
      Clear(0, BLOCK_SIZE - 8);
    }

    /** The byte count is taken from the bit counter, and 0x80 stored after the tail. */
    method Mark() returns (count: nat)
      requires Valid()
      modifies data
      ensures count == |message| % BLOCK_SIZE + 1
      ensures data[..count] == message[Whole(|message|)..] + [0x80]
    {
      hide Absorb;
      PendingFromCounter(countHi, countLo, |message|);
      count := (countLo / 8) % 64;
      data[count] := 0x80;
      count := count + 1;
    }

    /** The 0x80 byte and the zeros; done is how much of the padded message is in the digest. */
    method PadZeros() returns (ghost done: nat)
      requires Valid()
      modifies digest, data
      ensures done % BLOCK_SIZE == 0 && |Pad(message)| == done + BLOCK_SIZE
      ensures State() == Absorb(OrderOn(host), Pad(message)[..done])
      ensures data[..56] == Pad(message)[done..done + 56]
    {
      hide Absorb, Compress, Pad, Whole, Zeros, BigEndian64, OrderOn;
      ghost var n := |message|;
      ghost var padded, w := Pad(message), Whole(n);
      PadSlices(message, padded, w, n % BLOCK_SIZE + 1);
      done := w;
      var count := Mark();
      if count > BLOCK_SIZE - 8 {
        PadNoRoom(count, padded, w);
        done := w + BLOCK_SIZE;
      } else {
        PadRoom(count, padded, w);
      }
    }

    /** sha1_final and sha1_transform_and_copy. */
    method Final(out: array<Byte>)
      requires Valid() && out.Length == DIGEST_SIZE && out != data
      modifies digest, data, out
      ensures out[..] == Hash(OrderOn(host), message)
    {
      hide Absorb, Compress, Octet, Pad, Whole, Zeros, BigEndian64, OrderOn, HalfBytes;
      ghost var padded, n := Pad(message), |message|;
      PadSlices(message, padded, Whole(n), n % BLOCK_SIZE + 1);
      var lo, hi := countLo, countHi;
      LengthField(hi, lo, 8 * n);
      ghost var done := PadZeros();
      ghost var head := data[..56];
      CopyIn(56, HalfBytes(hi));
      CopyIn(60, HalfBytes(lo));
      assert data[..] == head + (HalfBytes(hi) + HalfBytes(lo));
      assert data[..] == padded[done..];
      TransformNext(padded, done);
      assert padded[..done + BLOCK_SIZE] == padded;
      StoreDigest(out);
    }

    /** The twenty byte stores, most significant byte of each word first. */
    method StoreDigest(out: array<Byte>)
      requires Shaped() && out.Length == DIGEST_SIZE
      modifies out
      ensures out[..] == ChainBytes(State())
    {
      hide BigEndianBytes;
      StoreWord(out, 0, digest[0]);
      StoreWord(out, 4, digest[1]);
      StoreWord(out, 8, digest[2]);
      StoreWord(out, 12, digest[3]);
      StoreWord(out, 16, digest[4]);
    }
  }

  method StoreWord(out: array<Byte>, off: nat, w: Word)
    requires off + 4 <= out.Length
    modifies out
    ensures out[..] == old(out[..off]) + BigEndianBytes(w) + old(out[off + 4..])
  {
    out[off] := ByteAt(w, 0);
    out[off + 1] := ByteAt(w, 1);
    out[off + 2] := ByteAt(w, 2);
    out[off + 3] := ByteAt(w, 3);
  }
}
