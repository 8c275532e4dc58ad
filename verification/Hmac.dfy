/** HMAC-SHA1 (RFC 2104, section 2), hmac.c, and the use of the hash object in general. */
module Hmac {
  import opened Words
  import opened Sha1Spec
  import opened Sha1Code

  function Flatten(chunks: seq<seq<Byte>>): seq<Byte> {
    if chunks == [] then [] else Flatten(chunks[..|chunks| - 1]) + chunks[|chunks| - 1]
  }

  /** Init, one Update per chunk, Final: the split into chunks does not matter. */
  method HashChunks(host: Host, chunks: seq<seq<Byte>>) returns (r: seq<Byte>)
    requires forall i :: 0 <= i < |chunks| ==> |chunks[i]| < 0x8000_0000
    ensures r == Hash(OrderOn(host), Flatten(chunks))
    ensures host.LittleEndianHost? ==> r == Sha1(Flatten(chunks))
  {
    hide Hash, Absorb, Whole, Sha1Info.Valid, Sha1Info.Counted;
    var ctx := new Sha1Info(host);
    ctx.Init();
    for i := 0 to |chunks|
      invariant ctx.Valid() && ctx.message == Flatten(chunks[..i])
      invariant fresh(ctx) && fresh(ctx.digest) && fresh(ctx.data)
    {
      assert chunks[..i + 1][..i] == chunks[..i];
      ctx.Update(chunks[i]);
    }
    assert chunks[..|chunks|] == chunks;
    var out := new Byte[20];
    ctx.Final(out);
    r := out[..];
  }

  /** B of RFC 2104 for SHA-1. */
  const B := 64

  function Xor(p: Byte, q: Byte): Byte { p ^ q }

  function XorAll(s: seq<Byte>, x: Byte): (r: seq<Byte>)
    ensures |r| == |s|
  {
    seq(|s|, i requires 0 <= i < |s| => Xor(s[i], x))
  }

  /** The key hashed if it is longer than B. */
  function ShortKey(order: WordOrder, key: seq<Byte>): (r: seq<Byte>)
    ensures |r| <= B
  {
    if |key| > B then Hash(order, key) else key
  }

  /** Step (1) of section 2: append zeros to the key up to B bytes. */
  function PaddedKey(order: WordOrder, key: seq<Byte>): (r: seq<Byte>)
    ensures |r| == B
  {
    ShortKey(order, key) + Zeros(B - |ShortKey(order, key)|)
  }

  /** H(K XOR opad, H(K XOR ipad, text)). */
  function Rfc2104(order: WordOrder, key: seq<Byte>, text: seq<Byte>): (r: seq<Byte>)
    ensures |r| == DIGEST_SIZE
  {
    var k := PaddedKey(order, key);
    Hash(order, XorAll(k, 0x5c) + Hash(order, XorAll(k, 0x36) + text))
  }

  /** Cut to n bytes, or extended with zeros to n bytes. */
  function Fit(s: seq<Byte>, n: nat): (r: seq<Byte>)
    ensures |r| == n
  {
    if n <= |s| then s[..n] else s + Zeros(n - |s|)
  }

  /** The code fills the rest of the pad with the pad byte itself; that is the
      zero-extended key under XOR. */
  lemma PadByteIsXoredZero(key: seq<Byte>, x: Byte, n: nat)
    requires |key| <= n
    ensures XorAll(key, x) + seq(n - |key|, _ => x) == XorAll(key + Zeros(n - |key|), x)
  {
  }

  /** The two key loops of hmac_sha1: XOR into tmp_key and fill up with the pad byte. */
  method FillKey(tmpKey: array<Byte>, key: seq<Byte>, x: Byte)
    requires tmpKey.Length == B && |key| <= B
    modifies tmpKey
    ensures tmpKey[..] == XorAll(key + Zeros(B - |key|), x)
  {
    hide Xor;
    var i := 0;
    while i < |key|
      invariant 0 <= i <= |key|
      invariant tmpKey[..i] == XorAll(key, x)[..i]
    {
      tmpKey[i] := Xor(key[i], x);
      i := i + 1;
    }
    if |key| < B {
      forall j | |key| <= j < B {
        tmpKey[j] := x;
      }
    }
    assert tmpKey[..] == XorAll(key, x) + seq(B - |key|, _ => x);
    PadByteIsXoredZero(key, x, B);
  }

  /** One digest of hmac_sha1: init, update with the 64 key bytes, update with the rest. */
  method KeyedDigest(ctx: Sha1Info, tmpKey: array<Byte>, data: seq<Byte>, sha: array<Byte>)
    requires ctx.Shaped() && tmpKey.Length == B && |data| < 0x8000_0000 && sha.Length == DIGEST_SIZE
    requires sha != ctx.data && tmpKey != ctx.data && sha != tmpKey
    modifies ctx, ctx.digest, ctx.data, sha
    ensures sha[..] == Hash(OrderOn(ctx.host), old(tmpKey[..]) + data)
  {
    hide Hash, Absorb, Whole, OrderOn, Sha1Info.Valid, Sha1Info.Counted;
    ctx.Init();
    ctx.Update(tmpKey[..]);
    assert ctx.message == tmpKey[..];
    ctx.Update(data);
    ctx.Final(sha);
  }

  /** hmac_sha1. result has resultLength bytes. */
  method HmacSha1(host: Host, key: seq<Byte>, data: seq<Byte>, result: array<Byte>)
    requires |key| < 0x8000_0000 && |data| < 0x8000_0000
    modifies result
    ensures result[..] == Fit(Rfc2104(OrderOn(host), key, data), result.Length)
  {
    hide Hash, XorAll;
    var ctx := new Sha1Info(host);
    var k := key;
    if |key| > 64 {
      var hashedKey := new Byte[20];
      ctx.Init();
      ctx.Update(key);
      assert ctx.message == key;
      ctx.Final(hashedKey);
      k := hashedKey[..];
    }
    assert k == ShortKey(OrderOn(host), key);
    var tmpKey := new Byte[64];
    var sha := new Byte[20];
    FillKey(tmpKey, k, 0x36);
    KeyedDigest(ctx, tmpKey, data, sha);
    FillKey(tmpKey, k, 0x5c);
    KeyedDigest(ctx, tmpKey, sha[..], sha);
    assert sha[..] == Rfc2104(OrderOn(host), key, data);
    CopyOut(sha[..], result);
  }

  /** memset of the result, then memcpy of at most twenty bytes. */
  method CopyOut(sha: seq<Byte>, result: array<Byte>)
    modifies result
    ensures result[..] == Fit(sha, result.Length)
  {
    forall i | 0 <= i < result.Length {
      result[i] := 0;
    }
    var resultLength := result.Length;
    if resultLength > |sha| {
      resultLength := |sha|;
    }
    forall i | 0 <= i < resultLength {
      result[i] := sha[i];
    }
  }

  /** Keys that agree after hashing and zero-extension give the same code, so a
      key longer than 64 bytes and its digest are interchangeable. */
  lemma LongKeyIsItsDigest(order: WordOrder, key: seq<Byte>, text: seq<Byte>)
    requires |key| > B
    ensures Rfc2104(order, key, text) == Rfc2104(order, Hash(order, key), text)
  {
    hide Hash;
  }

  /** Trailing zero bytes in a key that stays within 64 bytes are immaterial. */
  lemma TrailingZerosImmaterial(order: WordOrder, key: seq<Byte>, n: nat, text: seq<Byte>)
    requires |key| + n <= B
    ensures Rfc2104(order, key + Zeros(n), text) == Rfc2104(order, key, text)
  {
    hide Hash, XorAll;
    assert PaddedKey(order, key + Zeros(n)) == PaddedKey(order, key);
  }

  /** The code in bytes, for a key of at most 64: inner and outer block are the key, byte by
      byte exclusive-or 0x36 and 0x5c, with these bytes themselves beyond its end. */
  lemma HmacInBytes(order: WordOrder, key: seq<Byte>, text: seq<Byte>, inner: seq<Byte>, outer: seq<Byte>)
    requires |key| <= 64 && |inner| == 64 && |outer| == 64
    requires forall i :: 0 <= i < 64 ==> inner[i] == if i < |key| then key[i] ^ 0x36 else 0x36
    requires forall i :: 0 <= i < 64 ==> outer[i] == if i < |key| then key[i] ^ 0x5c else 0x5c
    ensures Rfc2104(order, key, text) == Hash(order, outer + Hash(order, inner + text))
  {
    hide Hash;
    assert inner == XorAll(PaddedKey(order, key), 0x36);
    assert outer == XorAll(PaddedKey(order, key), 0x5c);
  }

  /** What lands in a result of n bytes: the first twenty are the code's, the others zero. */
  lemma FitInBytes(code: seq<Byte>, n: nat, i: nat)
    requires |code| == 20 && i < n
    ensures Fit(code, n)[i] == if i < 20 then code[i] else 0
  {
  }
}
