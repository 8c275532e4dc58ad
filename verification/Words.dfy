/** 32-bit words, bytes, and the two ways a host can lay a word out in memory. */
module Words {
  type Byte = bv8
  type Word = bv32

  const UINT32_SPAN := 0x1_0000_0000
  const UINT64_SPAN := 0x1_0000_0000_0000_0000

  /** Byte order of the machine the gateway runs on. */
  datatype Host = LittleEndianHost | BigEndianHost

  /** Which end of a group of four message bytes is the most significant one. */
  datatype WordOrder = MsbFirst | LsbFirst

  /** The word whose most significant byte is b0. */
  function Pack(b0: Byte, b1: Byte, b2: Byte, b3: Byte): Word {
    ((b0 as Word) << 24) | ((b1 as Word) << 16) | ((b2 as Word) << 8) | (b3 as Word)
  }

  /** Byte k of a word, counted from the most significant end. */
  function ByteAt(w: Word, k: nat): Byte
    requires k < 4
  {
    match k
    case 0 => ((w >> 24) & 0xff) as Byte
    case 1 => ((w >> 16) & 0xff) as Byte
    case 2 => ((w >> 8) & 0xff) as Byte
    case _ => (w & 0xff) as Byte
  }

  /** The four bytes of a word, most significant first. */
  function BigEndianBytes(w: Word): seq<Byte> {
    [ByteAt(w, 0), ByteAt(w, 1), ByteAt(w, 2), ByteAt(w, 3)]
  }

  /** The four bytes of a word as the host keeps them at increasing addresses. */
  function InMemory(host: Host, w: Word): seq<Byte> {
    match host
    case LittleEndianHost => [ByteAt(w, 3), ByteAt(w, 2), ByteAt(w, 1), ByteAt(w, 0)]
    case BigEndianHost => BigEndianBytes(w)
  }

  /** What reading a uint32_t through a pointer to these four bytes gives on the host. */
  function Load32(host: Host, b0: Byte, b1: Byte, b2: Byte, b3: Byte): Word {
    match host
    case LittleEndianHost => Pack(b3, b2, b1, b0)
    case BigEndianHost => Pack(b0, b1, b2, b3)
  }

  /** The low eight bits of a number. */
  function Octet(n: nat): Byte { (n % 256) as Byte }

  /** Big-endian 64-bit encoding of a number, reduced modulo 2^64. */
  function BigEndian64(n: nat): (r: seq<Byte>)
    ensures |r| == 8
  {
    [ Octet(n / 0x100_0000_0000_0000), Octet(n / 0x1_0000_0000_0000),
      Octet(n / 0x100_0000_0000), Octet(n / 0x1_0000_0000),
      Octet(n / 0x100_0000), Octet(n / 0x1_0000), Octet(n / 0x100), Octet(n) ]
  }

  lemma PackInjective(a: Byte, b: Byte, c: Byte, d: Byte, p: Byte, q: Byte, r: Byte, s: Byte)
    ensures Pack(a, b, c, d) == Pack(p, q, r, s) <==> a == p && b == q && c == r && d == s
  {
  }

  lemma BytesOfPack(a: Byte, b: Byte, c: Byte, d: Byte)
    ensures ByteAt(Pack(a, b, c, d), 0) == a && ByteAt(Pack(a, b, c, d), 1) == b
    ensures ByteAt(Pack(a, b, c, d), 2) == c && ByteAt(Pack(a, b, c, d), 3) == d
  {
  }

  // ---- as numbers --------------------------------------------------------

  lemma WidenNat(b: Byte)
    ensures (b as Word) as nat == b as nat
  {
  }

  lemma ShiftNat(x: Word)
    requires x < 0x100_0000
    ensures (x << 8) as nat == (x as nat) * 0x100
  {
  }

  lemma OrNat(x: Word, b: Byte)
    requires x & 0xff == 0
    ensures (x | (b as Word)) as nat == (x as nat) + (b as nat)
  {
  }

  lemma Shifted(x: Word, b: Byte)
    requires x < 0x100_0000
    ensures ((x << 8) | (b as Word)) as nat == (x as nat) * 0x100 + (b as nat)
  {
    assert (x << 8) & 0xff == 0;
    ShiftNat(x);
    OrNat(x << 8, b);
  }

  lemma PackInSteps(b0: Byte, b1: Byte, b2: Byte, b3: Byte)
    ensures var x := ((b0 as Word) << 8) | (b1 as Word); var y := (x << 8) | (b2 as Word);
      (b0 as Word) < 0x100_0000 && x < 0x100_0000 && y < 0x100_0000 && Pack(b0, b1, b2, b3) == (y << 8) | (b3 as Word)
  {
  }

  /** The number four bytes make, the first one weighing most. */
  lemma PackNat(b0: Byte, b1: Byte, b2: Byte, b3: Byte)
    ensures Pack(b0, b1, b2, b3) as nat
         == (b0 as nat) * 0x100_0000 + (b1 as nat) * 0x1_0000 + (b2 as nat) * 0x100 + (b3 as nat)
  {
    PackInSteps(b0, b1, b2, b3);
    hide Pack;
    WidenNat(b0);
    var x := ((b0 as Word) << 8) | (b1 as Word);
    Shifted(b0 as Word, b1);
    var y := (x << 8) | (b2 as Word);
    Shifted(x, b2);
    Shifted(y, b3);
  }

  lemma Quotients(n: nat)
    ensures n / 0x1_0000 == n / 0x100 / 0x100 && n / 0x100_0000 == n / 0x1_0000 / 0x100
    ensures n / 0x1_0000_0000 == n / 0x100_0000 / 0x100 && n / 0x100_0000_0000 == n / 0x1_0000_0000 / 0x100
    ensures n / 0x1_0000_0000_0000 == n / 0x100_0000_0000 / 0x100
    ensures n / 0x100_0000_0000_0000 == n / 0x1_0000_0000_0000 / 0x100
  {
  }

  lemma Divided(n: nat, m: nat, r: nat)
    requires n == m * 0x100 + r && r < 0x100
    ensures n / 0x100 == m && n % 0x100 == r
  {
  }

  /** The base-256 digits of a number below 2^64, and a multiple of that on top. */
  lemma Places(n: nat, q: nat, a: seq<nat>)
    requires |a| == 8 && forall i :: 0 <= i < 8 ==> a[i] < 0x100
    requires n == q * 0x1_0000_0000_0000_0000 + a[0] * 0x100_0000_0000_0000 + a[1] * 0x1_0000_0000_0000 +
      a[2] * 0x100_0000_0000 + a[3] * 0x1_0000_0000 + a[4] * 0x100_0000 + a[5] * 0x1_0000 + a[6] * 0x100 + a[7]
    ensures n % 0x100 == a[7] && n / 0x100 % 0x100 == a[6] && n / 0x1_0000 % 0x100 == a[5] && n / 0x100_0000 % 0x100 == a[4]
    ensures n / 0x1_0000_0000 % 0x100 == a[3] && n / 0x100_0000_0000 % 0x100 == a[2]
    ensures n / 0x1_0000_0000_0000 % 0x100 == a[1] && n / 0x100_0000_0000_0000 % 0x100 == a[0]
  {
    Quotients(n);
    var n7 := q * 0x100 + a[0];
    var n6 := n7 * 0x100 + a[1];
    var n5 := n6 * 0x100 + a[2];
    var n4 := n5 * 0x100 + a[3];
    var n3 := n4 * 0x100 + a[4];
    var n2 := n3 * 0x100 + a[5];
    var n1 := n2 * 0x100 + a[6];
    Divided(n, n1, a[7]);
    Divided(n1, n2, a[6]);
    Divided(n2, n3, a[5]);
    Divided(n3, n4, a[4]);
    Divided(n4, n5, a[3]);
    Divided(n5, n6, a[2]);
    Divided(n6, n7, a[1]);
    Divided(n7, q, a[0]);
  }

  lemma EncodedFrom(n: nat, b: seq<Byte>)
    requires |b| == 8
    requires n % 0x100 == b[7] as nat && n / 0x100 % 0x100 == b[6] as nat
    requires n / 0x1_0000 % 0x100 == b[5] as nat && n / 0x100_0000 % 0x100 == b[4] as nat
    requires n / 0x1_0000_0000 % 0x100 == b[3] as nat && n / 0x100_0000_0000 % 0x100 == b[2] as nat
    requires n / 0x1_0000_0000_0000 % 0x100 == b[1] as nat && n / 0x100_0000_0000_0000 % 0x100 == b[0] as nat
    ensures BigEndian64(n) == b
  {
  }

  lemma ByteBound(b: Byte)
    ensures b as nat < 0x100
  {
  }

  /** Bytes whose values a are the last eight base-256 digits of n encode n modulo 2^64,
      most significant first. */
  lemma BigEndian64Is(n: nat, q: nat, a: seq<nat>, b: seq<Byte>)
    requires |a| == |b| == 8 && forall i :: 0 <= i < 8 ==> a[i] == b[i] as nat
    requires n == q * 0x1_0000_0000_0000_0000 + a[0] * 0x100_0000_0000_0000 + a[1] * 0x1_0000_0000_0000 +
      a[2] * 0x100_0000_0000 + a[3] * 0x1_0000_0000 + a[4] * 0x100_0000 + a[5] * 0x1_0000 + a[6] * 0x100 + a[7]
    ensures BigEndian64(n) == b
  {
    hide BigEndian64;
    forall i | 0 <= i < 8 ensures a[i] < 0x100 {
      ByteBound(b[i]);
    }
    Places(n, q, a);
    EncodedFrom(n, b);
  }
}
