/** Bit gather and scatter under a mask: B2J_MASK and J2B_UNMASK of afly_profile.c. */
module MaskCodec {
  /** sizeof(mask): only this many mask bits are ever looked at. */
  const SCANNED := 4

  function Half(x: nat): nat { x / 2 }

  function Low(x: nat): (b: nat)
    ensures b < 2
  {
    x % 2
  }

  /** The number with low bit b above which x stands. */
  function Mk(x: nat, b: nat): nat { 2 * x + b }

  lemma MkParts(x: nat, b: nat)
    requires b < 2
    ensures Half(Mk(x, b)) == x && Low(Mk(x, b)) == b
  {
  }

  lemma PartsMk(x: nat)
    ensures Mk(Half(x), Low(x)) == x
  {
  }

  function Shr(x: nat, n: nat): nat { if n == 0 then x else Shr(Half(x), n - 1) }

  function Bit(x: nat, i: nat): (b: nat)
    ensures b < 2
  {
    Low(Shr(x, i))
  }

  function Or(a: nat, b: nat): (c: nat)
    ensures c < 2
  {
    if a == 1 || b == 1 then 1 else 0
  }

  /** The bits of val at the mask positions below len, packed together, lowest first. */
  function Gather(val: nat, mask: nat, len: nat): nat
    decreases len
  {
    if len == 0 then 0
    else if Low(mask) == 1 then Mk(Gather(Half(val), Half(mask), len - 1), Low(val))
    else Gather(Half(val), Half(mask), len - 1)
  }

  /** What is left of val when the lowest mask bit is dealt with. */
  function Next(val: nat, mask: nat): nat { if Low(mask) == 1 then Half(val) else val }

  /** old with the low bits of val laid out over the mask positions below len, by or. */
  function Scatter(prior: nat, val: nat, mask: nat, len: nat): nat
    decreases len
  {
    if len == 0 then prior
    else Mk(Scatter(Half(prior), Next(val, mask), Half(mask), len - 1),
            if Low(mask) == 1 then Or(Low(prior), Low(val)) else Low(prior))
  }

  function PopCount(mask: nat, len: nat): nat
    decreases len
  {
    if len == 0 then 0 else Low(mask) + PopCount(Half(mask), len - 1)
  }

  /** x has no bit in common with the mask below len. */
  predicate Clear(x: nat, mask: nat, len: nat)
    decreases len
  {
    len == 0 || (!(Low(x) == 1 && Low(mask) == 1) && Clear(Half(x), Half(mask), len - 1))
  }

  function Pow2(n: nat): (r: nat)
    ensures r > 0
  {
    if n == 0 then 1 else 2 * Pow2(n - 1)
  }

  /** The low p bits of v. */
  function LowBits(v: nat, p: nat): nat
    decreases p
  {
    if p == 0 then 0 else Mk(LowBits(Half(v), p - 1), Low(v))
  }

  // ---- the two laws ------------------------------------------------------

  /** Gathering undoes scattering into a clear place, up to the width of the mask. */
  lemma {:induction false} GatherScatter(prior: nat, v: nat, mask: nat, len: nat)
    requires Clear(prior, mask, len)
    ensures Gather(Scatter(prior, v, mask, len), mask, len) == LowBits(v, PopCount(mask, len))
    decreases len
  {
    if len > 0 {
      hide Half, Low, Mk;
      GatherScatter(Half(prior), Next(v, mask), Half(mask), len - 1);
      MkParts(Scatter(Half(prior), Next(v, mask), Half(mask), len - 1),
              if Low(mask) == 1 then Or(Low(prior), Low(v)) else Low(prior));
    }
  }

  /** Scattering under one mask does not disturb what a disjoint mask gathers. */
  lemma {:induction false} DisjointUndisturbed(prior: nat, v: nat, m1: nat, m2: nat, len: nat)
    requires Clear(m1, m2, len)
    ensures Gather(Scatter(prior, v, m1, len), m2, len) == Gather(prior, m2, len)
    decreases len
  {
    if len > 0 {
      hide Half, Low, Mk;
      DisjointUndisturbed(Half(prior), Next(v, m1), Half(m1), Half(m2), len - 1);
      MkParts(Scatter(Half(prior), Next(v, m1), Half(m1), len - 1),
              if Low(m1) == 1 then Or(Low(prior), Low(v)) else Low(prior));
    }
  }

  /** And leaves a place clear that was clear. */
  lemma {:induction false} StillClear(prior: nat, v: nat, m1: nat, m2: nat, len: nat)
    requires Clear(m1, m2, len) && Clear(prior, m2, len)
    ensures Clear(Scatter(prior, v, m1, len), m2, len)
    decreases len
  {
    if len > 0 {
      hide Half, Low, Mk;
      StillClear(Half(prior), Next(v, m1), Half(m1), Half(m2), len - 1);
      MkParts(Scatter(Half(prior), Next(v, m1), Half(m1), len - 1),
              if Low(m1) == 1 then Or(Low(prior), Low(v)) else Low(prior));
    }
  }

  /** Bits outside the mask, and all bits from len on, stay as they are. */
  lemma {:induction false} OutsideUnchanged(prior: nat, v: nat, mask: nat, len: nat, i: nat)
    requires i >= len || Bit(mask, i) == 0
    ensures Bit(Scatter(prior, v, mask, len), i) == Bit(prior, i)
    decreases len
  {
    if len > 0 {
      hide Half, Low, Mk;
      MkParts(Scatter(Half(prior), Next(v, mask), Half(mask), len - 1),
              if Low(mask) == 1 then Or(Low(prior), Low(v)) else Low(prior));
      if i > 0 {
        OutsideUnchanged(Half(prior), Next(v, mask), Half(mask), len - 1, i - 1);
      }
    }
  }

  // ---- in arithmetic terms ----------------------------------------------

  lemma {:induction false} LowBitsBound(v: nat, p: nat)
    ensures LowBits(v, p) < Pow2(p)
    ensures v < Pow2(p) ==> LowBits(v, p) == v
    decreases p
  {
    if p > 0 {
      LowBitsBound(Half(v), p - 1);
      PartsMk(v);
    }
  }

  lemma TwiceProduct(q: nat, m: nat)
    ensures q * (2 * m) == 2 * (q * m)
  {
  }

  lemma {:induction false} LowBitsSplit(v: nat, p: nat)
    ensures v == Shr(v, p) * Pow2(p) + LowBits(v, p)
    decreases p
  {
    if p > 0 {
      LowBitsSplit(Half(v), p - 1);
      TwiceProduct(Shr(v, p), Pow2(p - 1));
      PartsMk(v);
    }
  }

  lemma {:induction false} PositiveMultiple(k: nat, d: nat)
    ensures k > 0 ==> k * d >= d
    decreases k
  {
    if k > 1 {
      PositiveMultiple(k - 1, d);
      assert k * d == (k - 1) * d + d;
    }
  }

  lemma Distribute(a: int, b: int, d: int)
    ensures (a - b) * d == a * d - b * d
  {
  }

  lemma ModUnique(v: nat, d: nat, q: nat, r: nat)
    requires d > 0 && v == q * d + r && r < d
    ensures v % d == r
  {
    var q' := v / d;
    assert v == q' * d + v % d;
    Distribute(q, q', d);
    Distribute(q', q, d);
    if q > q' {
      PositiveMultiple(q - q', d);
    } else if q' > q {
      PositiveMultiple(q' - q, d);
    }
  }

  /** The first law with the modulus written out. */
  lemma GatherScatterModulo(prior: nat, v: nat, mask: nat, len: nat)
    requires Clear(prior, mask, len)
    ensures Gather(Scatter(prior, v, mask, len), mask, len) == v % Pow2(PopCount(mask, len))
  {
    var p := PopCount(mask, len);
    GatherScatter(prior, v, mask, len);
    LowBitsBound(v, p);
    LowBitsSplit(v, p);
    ModUnique(v, Pow2(p), Shr(v, p), LowBits(v, p));
  }

  /** The value comes back exactly when it fits the mask's scanned bits. */
  lemma FitsExactlyWhen(prior: nat, v: nat, mask: nat, len: nat)
    requires Clear(prior, mask, len)
    ensures Gather(Scatter(prior, v, mask, len), mask, len) == v <==> v < Pow2(PopCount(mask, len))
  {
    GatherScatter(prior, v, mask, len);
    LowBitsBound(v, PopCount(mask, len));
  }

  // ---- the loops ---------------------------------------------------------

  lemma {:induction false} ShrNext(x: nat, n: nat)
    ensures Shr(x, n + 1) == Half(Shr(x, n))
    decreases n
  {
    if n > 0 {
      ShrNext(Half(x), n - 1);
    }
  }

  /** B2J_MASK: from the highest scanned bit down. */
  method B2JMask(val: nat, mask: nat) returns (newval: nat)
    ensures newval == Gather(val, mask, SCANNED)
  {
    hide Half, Low;
    var len := SCANNED;
    newval := 0;
    var i: int := len - 1;
    while i >= 0
      invariant -1 <= i < len
      invariant newval == Gather(Shr(val, i + 1), Shr(mask, i + 1), len - (i + 1))
    {
      ShrNext(val, i);
      ShrNext(mask, i);
      var bit := Bit(mask, i);
      if bit == 1 {
        newval := newval * 2 + Bit(val, i);
      }
      i := i - 1;
    }
  }

  /** x with bit i set by or, as |= ((val >> j) & 1) << i does. */
  function OrBit(x: nat, i: nat, b: nat): nat
    decreases i
  {
    if i == 0 then Mk(Half(x), Or(Low(x), b)) else Mk(OrBit(Half(x), i - 1, b), Low(x))
  }

  /** In arithmetic terms it adds 2^i if the bit is to be set and was not. */
  lemma {:induction false} OrBitAdds(x: nat, i: nat, b: nat)
    requires b < 2
    ensures OrBit(x, i, b) == x + (if b == 1 && Bit(x, i) == 0 then Pow2(i) else 0)
    decreases i
  {
    PartsMk(x);
    if i > 0 {
      OrBitAdds(Half(x), i - 1, b);
    }
  }

  /** What scattering from bit i on does, with the bits below left alone. */
  function ScatterFrom(x: nat, i: nat, val: nat, mask: nat, len: nat): nat
    decreases i
  {
    if i == 0 then Scatter(x, val, mask, len) else Mk(ScatterFrom(Half(x), i - 1, val, Half(mask), len), Low(x))
  }

  lemma {:induction false} ScatterFromStep(x: nat, i: nat, val: nat, mask: nat, len: nat)
    requires len > 0
    ensures ScatterFrom(x, i, val, mask, len)
         == if Bit(mask, i) == 1 then ScatterFrom(OrBit(x, i, Low(val)), i + 1, Half(val), mask, len - 1)
            else ScatterFrom(x, i + 1, val, mask, len - 1)
    decreases i
  {
    hide Half, Low, Mk;
    if i == 0 {
      MkParts(Half(x), Or(Low(x), Low(val)));
    } else {
      ScatterFromStep(Half(x), i - 1, val, Half(mask), len);
      MkParts(OrBit(Half(x), i - 1, Low(val)), Low(x));
    }
  }

  lemma {:induction false} ScatterFromEnd(x: nat, i: nat, val: nat, mask: nat)
    ensures ScatterFrom(x, i, val, mask, 0) == x
    decreases i
  {
    PartsMk(x);
    if i > 0 {
      ScatterFromEnd(Half(x), i - 1, val, Half(mask));
    }
  }

  /** J2B_UNMASK: j runs over the bits of the value, i over those of the mask. */
  method J2BUnmask(oldval: nat, val: nat, mask: nat) returns (newval: nat)
    ensures newval == Scatter(oldval, val, mask, SCANNED)
  {
    hide Half, Low, Mk, OrBit;
    var len := SCANNED;
    newval := oldval;
    var i, j := 0, 0;
    while i <= len - 1
      invariant 0 <= i <= len && j >= 0
      invariant Scatter(oldval, val, mask, len) == ScatterFrom(newval, i, Shr(val, j), mask, len - i)
    {
      ScatterFromStep(newval, i, Shr(val, j), mask, len - i);
      var bit := Bit(mask, i);
      if bit == 1 {
        newval := OrBit(newval, i, Bit(val, j));
        ShrNext(val, j);
        j := j + 1;
      }
      i := i + 1;
    }
    ScatterFromEnd(newval, i, Shr(val, j), mask);
  }

  // ---- bit by bit --------------------------------------------------------

  /** Bit i of the value, under a mask bit, is gathered to the place counted by the mask
      bits below it. */
  lemma {:induction false} GatherBit(val: nat, mask: nat, len: nat, i: nat)
    requires i < len && Bit(mask, i) == 1
    ensures Bit(Gather(val, mask, len), PopCount(mask, i)) == Bit(val, i)
    decreases len
  {
    hide Half, Low, Mk;
    MkParts(Gather(Half(val), Half(mask), len - 1), Low(val));
    if i > 0 {
      GatherBit(Half(val), Half(mask), len - 1, i - 1);
    }
  }

  /** Under a mask bit, scattering ors in the bit of the value that is next in turn; every
      other bit stays. */
  lemma {:induction false} ScatterBit(prior: nat, v: nat, mask: nat, len: nat, i: nat)
    ensures Bit(Scatter(prior, v, mask, len), i) ==
      if i < len && Bit(mask, i) == 1 && Bit(v, PopCount(mask, i)) == 1 then 1 else Bit(prior, i)
    decreases len
  {
    hide Half, Low, Mk;
    if len > 0 {
      MkParts(Scatter(Half(prior), Next(v, mask), Half(mask), len - 1),
              if Low(mask) == 1 then Or(Low(prior), Low(v)) else Low(prior));
      if i > 0 {
        ScatterBit(Half(prior), Next(v, mask), Half(mask), len - 1, i - 1);
      }
    }
  }

  /** Four mask bits are looked at: a mask has room for one bit more for each of its four
      lowest, and for none of the others. */
  lemma FourBitsScanned(mask: nat)
    ensures PopCount(mask, SCANNED) == Bit(mask, 0) + Bit(mask, 1) + Bit(mask, 2) + Bit(mask, 3)
    ensures mask < 16 ==> mask == Bit(mask, 0) + 2 * Bit(mask, 1) + 4 * Bit(mask, 2) + 8 * Bit(mask, 3)
  {
    assert Bit(mask, 0) == mask % 2;
    assert Shr(mask, 1) == mask / 2;
    assert Shr(mask, 2) == Shr(mask / 2, 1) == mask / 2 / 2;
    assert Shr(mask, 3) == Shr(mask / 2, 2) == Shr(mask / 2 / 2, 1) == mask / 2 / 2 / 2;
    assert PopCount(mask, 4) == mask % 2 + PopCount(mask / 2, 3);
    assert PopCount(mask / 2, 3) == mask / 2 % 2 + PopCount(mask / 2 / 2, 2);
    assert PopCount(mask / 2 / 2, 2) == mask / 2 / 2 % 2 + PopCount(mask / 2 / 2 / 2, 1);
  }

  /** One bit of scattering, in arithmetic: r is what the bits above become. */
  lemma ScatterStep(prior: nat, v: nat, mask: nat, len: nat, r: nat)
    requires len > 0 && Scatter(prior / 2, if mask % 2 == 1 then v / 2 else v, mask / 2, len - 1) == r
    ensures Scatter(prior, v, mask, len) == 2 * r + (if mask % 2 == 1 && v % 2 == 1 then 1 else prior % 2)
  {
  }
}
