/** Little-endian words of one to four bytes, as the loops of B2J_UINTN and J2B_UINTN in
    afly_profile.c load and store them. */
module FieldWords {
  import opened MaskCodec

  type Octet = x: nat | x < 256

  function Pow256(n: nat): (r: nat)
    ensures r > 0
  {
    if n == 0 then 1 else 256 * Pow256(n - 1)
  }

  /** Little-endian value of some bytes. */
  function WordOf(b: seq<Octet>): nat {
    if b == [] then 0 else b[0] + 256 * WordOf(b[1..])
  }

  /** The low n bytes of a value, lowest first. */
  function BytesOf(w: nat, n: nat): (b: seq<Octet>)
    ensures |b| == n
    decreases n
  {
    if n == 0 then [] else [w % 256] + BytesOf(w / 256, n - 1)
  }

  /** The value without its low n bytes. */
  function Dropped(w: nat, n: nat): nat
    decreases n
  {
    if n == 0 then w else Dropped(w / 256, n - 1)
  }

  lemma {:induction false} BytesOfSnoc(w: nat, n: nat)
    ensures BytesOf(w, n + 1) == BytesOf(w, n) + [Dropped(w, n) % 256]
    decreases n
  {
    if n > 0 {
      BytesOfSnoc(w / 256, n - 1);
    }
  }

  lemma {:induction false} WordBound(b: seq<Octet>)
    ensures WordOf(b) < Pow256(|b|)
  {
    if b != [] {
      WordBound(b[1..]);
    }
  }

  lemma TimesPow(x: nat, p: nat)
    ensures x * (256 * p) == 256 * (x * p)
  {
  }

  lemma {:induction false} WordOfSnoc(b: seq<Octet>, x: Octet)
    ensures WordOf(b + [x]) == WordOf(b) + x * Pow256(|b|)
  {
    if b == [] {
      assert ([] + [x])[1..] == [];
    } else {
      WordOfSnoc(b[1..], x);
      assert (b + [x])[1..] == b[1..] + [x];
      TimesPow(x, Pow256(|b| - 1));
    }
  }

  lemma {:induction false} BytesSplit(w: nat, n: nat)
    ensures w == Dropped(w, n) * Pow256(n) + WordOf(BytesOf(w, n))
    decreases n
  {
    if n > 0 {
      BytesSplit(w / 256, n - 1);
      assert BytesOf(w, n)[1..] == BytesOf(w / 256, n - 1);
      TimesPow(Dropped(w, n), Pow256(n - 1));
    }
  }

  lemma WordOfBytes(w: nat, n: nat)
    ensures WordOf(BytesOf(w, n)) == w % Pow256(n)
  {
    BytesSplit(w, n);
    WordBound(BytesOf(w, n));
    ModUnique(w, Pow256(n), Dropped(w, n), WordOf(BytesOf(w, n)));
  }

  // ---- what loading makes of a word --------------------------------------

  /** The upper half of a 64-bit word, all ones. */
  const SIGN_EXTENSION: nat := 0xFFFF_FFFF_0000_0000

  /** The fourth byte is shifted as a 32-bit int, so a top bit spreads over the upper half
      of the long long it is or-ed into. */
  function Widened(w: nat, n: nat): nat {
    if n == 4 && w >= 0x8000_0000 then w + SIGN_EXTENSION else w
  }

  function Loaded(b: seq<Octet>): nat { Widened(WordOf(b), |b|) }

  /** What reading n bytes gives after v was stored in them. */
  function Kept(v: nat, n: nat): nat { Widened(v % Pow256(n), n) }

  lemma LoadedStored(v: nat, n: nat)
    ensures Loaded(BytesOf(v, n)) == Kept(v, n)
  {
    WordOfBytes(v, n);
  }

  /** The values of n bytes that survive: below 2^31 in four bytes, or, since the sign
      spreads, the top 2^31 values of 64 bits. */
  predicate Survives(v: nat, n: nat) {
    if n == 4 then v < 0x8000_0000 || SIGN_EXTENSION + 0x8000_0000 <= v < 0x1_0000_0000_0000_0000
    else v < Pow256(n)
  }

  lemma Pow256Four()
    ensures Pow256(4) == 0x1_0000_0000 && Pow256(3) == 0x100_0000
  {
    assert Pow256(2) == 0x1_0000;
    assert Pow256(3) == 0x100_0000;
  }

  lemma SameModulo(v: nat, q: nat)
    requires q > 0
    ensures v % q < q && (v % q == v <==> v < q)
  {
    if v < q {
      ModUnique(v, q, 0, v);
    }
  }

  lemma WidenedExactlyWhen(v: nat)
    ensures Widened(v % 0x1_0000_0000, 4) == v <==> Survives(v, 4)
  {
  }

  /** Reading is exact up to 24 bits, and at 32 bits exactly for these. */
  lemma KeptExactlyWhen(v: nat, n: nat)
    ensures Kept(v, n) == v <==> Survives(v, n)
  {
    if n == 4 {
      Pow256Four();
      hide Pow256, Widened, Survives;
      WidenedExactlyWhen(v);
    } else {
      hide Pow256;
      SameModulo(v, Pow256(n));
    }
  }

  // ---- the loops ---------------------------------------------------------

  /** (buf[i] & 0xff) << (i * 8), brought to 64 bits. */
  function Lifted(x: Octet, i: nat): nat {
    x * Pow256(i) + if i == 3 && x >= 128 then SIGN_EXTENSION else 0
  }

  lemma LoadedSnoc(b: seq<Octet>, x: Octet)
    requires |b| < 4
    ensures Loaded(b + [x]) == Loaded(b) + Lifted(x, |b|)
  {
    Pow256Four();
    WordOfSnoc(b, x);
    WordBound(b);
  }

  /** The loading loop: or-ing in a byte above all others adds it. */
  method LoadWord(buf: array<Octet>, off: nat, n: nat) returns (val: nat)
    requires off + n <= buf.Length && n <= 4
    ensures val == Loaded(buf[off..off + n])
  {
    hide Lifted, Loaded;
    val := 0;
    assert Loaded(buf[off..off]) == 0 by { LoadedNothing(); assert buf[off..off] == []; }
    for i := 0 to n
      invariant val == Loaded(buf[off..off + i])
    {
      LoadedSnoc(buf[off..off + i], buf[off + i]);
      assert buf[off..off + i + 1] == buf[off..off + i] + [buf[off + i]];
      val := val + Lifted(buf[off + i], i);
    }
  }

  lemma LoadedNothing()
    ensures Loaded([]) == 0
  {
  }

  /** buf with b written at off. */
  function Splice(buf: seq<Octet>, off: nat, b: seq<Octet>): (r: seq<Octet>)
    requires off + |b| <= |buf|
    ensures |r| == |buf|
  {
    buf[..off] + b + buf[off + |b|..]
  }

  lemma SpliceSnoc(buf: seq<Octet>, off: nat, b: seq<Octet>, x: Octet)
    requires off + |b| < |buf|
    ensures Splice(buf, off, b + [x]) == Splice(buf, off, b)[off + |b| := x]
  {
  }

  /** The storing loop. */
  method StoreWord(buf: array<Octet>, off: nat, n: nat, w: nat)
    requires off + n <= buf.Length
    modifies buf
    ensures buf[..] == Splice(old(buf[..]), off, BytesOf(w, n))
  {
    for i := 0 to n
      invariant buf[..] == Splice(old(buf[..]), off, BytesOf(w, i))
    {
      hide BytesOf, Dropped, Splice;
      BytesOfSnoc(w, i);
      ghost var was := buf[..];
      var x: Octet := Dropped(w, i) % 256;
      buf[off + i] := x;
      assert buf[..] == was[off + i := x];
      SpliceSnoc(old(buf[..]), off, BytesOf(w, i), x);
    }
  }

  // ---- with the numbers written out --------------------------------------

  lemma LowestByte(w: nat, n: nat)
    requires n > 0
    ensures BytesOf(w, n) == [w % 256] + BytesOf(w / 256, n - 1)
  {
  }

  /** The bytes of a word, lowest first. */
  lemma LowestFirst(w: nat, x: nat, y: nat, z: nat)
    requires x == w / 256 && y == x / 256 && z == y / 256
    ensures BytesOf(w, 1) == [w % 256] && BytesOf(w, 2) == [w % 256, x % 256]
    ensures BytesOf(w, 3) == [w % 256, x % 256, y % 256] && BytesOf(w, 4) == [w % 256, x % 256, y % 256, z % 256]
  {
    assert BytesOf(x, 0) == BytesOf(y, 0) == BytesOf(z, 0) == BytesOf(z / 256, 0) == [];
    hide BytesOf;
    LowestByte(w, 1);
    LowestByte(w, 2);
    LowestByte(w, 3);
    LowestByte(w, 4);
    LowestByte(x, 1);
    LowestByte(x, 2);
    LowestByte(x, 3);
    LowestByte(y, 1);
    LowestByte(y, 2);
    LowestByte(z, 1);
  }

  /** What survives storing and loading, width by width. */
  lemma KeptByWidth(v: nat)
    ensures Kept(v, 1) == v <==> v < 256
    ensures Kept(v, 2) == v <==> v < 65536
    ensures Kept(v, 3) == v <==> v < 16777216
    ensures Kept(v, 4) == v <==> v < 2147483648 || 18446744071562067968 <= v < 18446744073709551616
  {
    Pow256Four();
    assert Pow256(1) == 256 && Pow256(2) == 65536;
    hide Kept, Pow256;
    KeptExactlyWhen(v, 1);
    KeptExactlyWhen(v, 2);
    KeptExactlyWhen(v, 3);
    KeptExactlyWhen(v, 4);
  }
}
