/** The one-time door code, get_hotp in afly.c. */
module Hotp {
  import opened Words
  import opened Sha1Spec
  import opened Sha1Code
  import opened Hmac

  const CODE_SPAN := 1000000

  /** The two bytes of the unsigned short 1 behind the union, in address order. */
  function ShortOne(host: Host): (Byte, Byte) {
    if host.LittleEndianHost? then (1, 0) else (0, 1)
  }

  /** _IS_BIG_ENDIAN looks at the second of those bytes. */
  function IsBigEndian(host: Host): bool {
    ShortOne(host).1 != 0
  }

  /** A uint32 reassembled from its bytes in address order, as the swap writes it. */
  function Reassemble(p: seq<Byte>): Word
    requires |p| == 4
  {
    Pack(p[0], p[1], p[2], p[3])
  }

  /** The conditional swap of get_hotp. */
  function Swapped(host: Host, x: Word): Word {
    if !IsBigEndian(host) then Reassemble(InMemory(host, x)) else x
  }

  /** After the swap the word lies in memory most significant byte first, on either host. */
  lemma SwappedIsNetworkOrder(host: Host, x: Word)
    ensures InMemory(host, Swapped(host, x)) == BigEndianBytes(x)
  {
    hide Pack, ByteAt;
    BytesOfPack(ByteAt(x, 3), ByteAt(x, 2), ByteAt(x, 1), ByteAt(x, 0));
  }

  function HotpKey(seed: Word, mac: seq<Byte>): seq<Byte> {
    BigEndianBytes(seed) + mac
  }

  /** Top 31 bits of the first four bytes, reduced to six decimal digits. */
  function Truncate(d: seq<Byte>): (r: nat)
    requires |d| >= 4
    ensures r < CODE_SPAN
  {
    (Low31(Pack(d[0], d[1], d[2], d[3])) as nat) % CODE_SPAN
  }

  function Low31(x: Word): Word { x & 0x7FFFFFFF }

  /** Just the top bit is dropped. */
  lemma TopBitDropped(x: Word)
    ensures Low31(x) == (x << 1) >> 1
    ensures Low31(x) | ((x >> 31) << 31) == x
  {
  }

  function OneTimeCode(order: WordOrder, seed: Word, cnt: Word, mac: seq<Byte>): (r: nat)
    ensures r < CODE_SPAN
  {
    Truncate(Rfc2104(order, HotpKey(seed, mac), BigEndianBytes(cnt)))
  }

  function Shift8(pass: Word, b: Byte): Word { (pass << 8) | (b as Word) }

  /** get_hotp. mac is the eight bytes of the device name. */
  method GetHotp(host: Host, seed: Word, cnt: Word, mac: seq<Byte>) returns (pass: nat)
    requires |mac| == 8
    ensures pass == OneTimeCode(OrderOn(host), seed, cnt, mac)
  {
    hide Pack, Rfc2104, Shift8;
    var seed', cnt' := Swapped(host, seed), Swapped(host, cnt);
    SwappedIsNetworkOrder(host, seed);
    SwappedIsNetworkOrder(host, cnt);
    var key := InMemory(host, seed') + mac;
    var d := new Byte[20];
    HmacSha1(host, key, InMemory(host, cnt'), d);
    var p := FirstFour(d[..]);
    p := p & 0x7FFFFFFF;
    pass := (p as nat) % CODE_SPAN;
  }

  /** The loop that shifts the first four digest bytes into the result. */
  method FirstFour(d: seq<Byte>) returns (pass: Word)
    requires |d| >= 4
    ensures pass == Pack(d[0], d[1], d[2], d[3])
  {
    hide Pack, Shift8;
    pass := 0;
    for i := 0 to 4
      invariant i == 0 ==> pass == 0
      invariant i == 1 ==> pass == Shift8(0, d[0])
      invariant i == 2 ==> pass == Shift8(Shift8(0, d[0]), d[1])
      invariant i == 3 ==> pass == Shift8(Shift8(Shift8(0, d[0]), d[1]), d[2])
      invariant i == 4 ==> pass == Shift8(Shift8(Shift8(Shift8(0, d[0]), d[1]), d[2]), d[3])
    {
      pass := Shift8(pass, d[i]);
    }
    ShiftsPack(d[0], d[1], d[2], d[3]);
  }

  lemma ShiftsPack(a: Byte, b: Byte, c: Byte, d: Byte)
    ensures Shift8(Shift8(Shift8(Shift8(0, a), b), c), d) == Pack(a, b, c, d)
  {
  }

  /** The code does not depend on which byte order the run-time test finds, only
      on the block order sha1.c was compiled for. */
  lemma SameBytesOnEitherHost(seed: Word, cnt: Word, mac: seq<Byte>)
    ensures InMemory(LittleEndianHost, Swapped(LittleEndianHost, seed)) + mac
         == InMemory(BigEndianHost, Swapped(BigEndianHost, seed)) + mac == HotpKey(seed, mac)
    ensures InMemory(LittleEndianHost, Swapped(LittleEndianHost, cnt))
         == InMemory(BigEndianHost, Swapped(BigEndianHost, cnt)) == BigEndianBytes(cnt)
  {
    hide InMemory, Swapped, BigEndianBytes;
    SwappedIsNetworkOrder(LittleEndianHost, seed);
    SwappedIsNetworkOrder(BigEndianHost, seed);
    SwappedIsNetworkOrder(LittleEndianHost, cnt);
    SwappedIsNetworkOrder(BigEndianHost, cnt);
  }

  // ---- the code as a number ----------------------------------------------

  lemma Low7(b: Byte)
    ensures (b & 0x7f) as nat == (b as nat) % 128
  {
  }

  lemma Low31OfPack(a: Byte, b: Byte, c: Byte, d: Byte)
    ensures Low31(Pack(a, b, c, d)) == Pack(a & 0x7f, b, c, d)
  {
  }

  /** The six digits of a digest: its first four bytes without the top bit, big-endian,
      modulo a million. */
  lemma TruncateInIntegers(d: seq<Byte>)
    requires |d| >= 4
    ensures Truncate(d)
         == ((d[0] as nat) % 128 * 0x100_0000 + (d[1] as nat) * 0x1_0000 + (d[2] as nat) * 0x100 + (d[3] as nat)) % 1000000
  {
    hide Pack, Low31;
    Low31OfPack(d[0], d[1], d[2], d[3]);
    Low7(d[0]);
    PackNat(d[0] & 0x7f, d[1], d[2], d[3]);
  }

  lemma FlipKeepsLow7(b: Byte)
    ensures (b ^ 0x80) & 0x7f == b & 0x7f
  {
  }

  /** Flipping the top bit of the digest does not change the code. */
  lemma TopBitIrrelevant(d: seq<Byte>)
    requires |d| >= 4
    ensures Truncate(d[0 := d[0] ^ 0x80]) == Truncate(d)
  {
    FlipKeepsLow7(d[0]);
    Low31OfPack(d[0], d[1], d[2], d[3]);
    Low31OfPack(d[0] ^ 0x80, d[1], d[2], d[3]);
    hide Pack, Low31;
  }

  lemma CodeIsTruncated(order: WordOrder, s: seq<Byte>, c: seq<Byte>, mac: seq<Byte>)
    requires |s| == 4 && |c| == 4
    ensures OneTimeCode(order, Pack(s[0], s[1], s[2], s[3]), Pack(c[0], c[1], c[2], c[3]), mac) == Truncate(Rfc2104(order, s + mac, c))
  {
    BytesOfPack(s[0], s[1], s[2], s[3]);
    BytesOfPack(c[0], c[1], c[2], c[3]);
    hide Pack, ByteAt, Rfc2104, Truncate;
    assert BigEndianBytes(Pack(s[0], s[1], s[2], s[3])) == s;
    assert BigEndianBytes(Pack(c[0], c[1], c[2], c[3])) == c;
  }

  /** The code from bytes: s and c are seed and counter, most significant byte first. */
  lemma CodeFromBytes(order: WordOrder, s: seq<Byte>, c: seq<Byte>, mac: seq<Byte>)
    requires |s| == 4 && |c| == 4
    ensures var d := Rfc2104(order, s + mac, c);
      OneTimeCode(order, Pack(s[0], s[1], s[2], s[3]), Pack(c[0], c[1], c[2], c[3]), mac)
        == ((d[0] as nat) % 128 * 0x100_0000 + (d[1] as nat) * 0x1_0000 + (d[2] as nat) * 0x100 + (d[3] as nat)) % 1000000
  {
    hide Pack, Rfc2104, Truncate, OneTimeCode;
    CodeIsTruncated(order, s, c, mac);
    TruncateInIntegers(Rfc2104(order, s + mac, c));
  }
}
