/** What the reader of FieldCodec gives for what the writer wrote: every field of a
    profile and every member of its groups, each reduced to the room it was given. */
module FieldRoundTrip {
  import opened MaskCodec
  import opened FieldWords
  import opened FieldCodec

  // ---- profiles ----------------------------------------------------------

  predicate Leaf(a: Args) { a.Arg? && a.kind.Uint? && a.child == Nil }

  /** No sibling further on has the name. */
  predicate NotAmong(name: string, a: Args) { a.Arg? ==> a.name != name && NotAmong(name, a.next) }

  /** The mask has no scanned bit in common with those further on. */
  predicate Apart(mask: nat, a: Args) { a.Arg? ==> Clear(mask, a.mask, SCANNED) && Apart(mask, a.next) }

  /** Members of a bitmap group: leaves of one width under nonzero disjoint masks. */
  predicate GroupOk(a: Args, n: Width) {
    a.Arg? ==>
      Leaf(a) && a.kind.bytes == n && a.mask != 0 && NotAmong(a.name, a.next) && Apart(a.mask, a.next) && GroupOk(a.next, n)
  }

  /** Width of a group: that of its members. */
  function GroupWidth(a: Args): Width { if a.Arg? && a.kind.Uint? then a.kind.bytes else 1 }

  /** A profile: fields and nonempty bitmap groups under distinct names. */
  predicate ProfileOk(a: Args) {
    a.Arg? ==>
      NotAmong(a.name, a.next) && ProfileOk(a.next) &&
      (Leaf(a) || (a.kind.Bitmap? && a.child.Arg? && GroupOk(a.child, GroupWidth(a.child))))
  }

  function HeadSize(a: Args): nat
    requires a.Arg?
  {
    if a.kind.Uint? then a.kind.bytes else GroupWidth(a.child)
  }

  /** Bytes a profile takes. */
  function Size(a: Args): nat { if a.Arg? then HeadSize(a) + Size(a.next) else 0 }

  /** The members of a group have numbers. */
  predicate MembersPresent(m: map<string, Json>, a: Args) {
    a.Arg? ==> a.name in m && m[a.name].Num? && MembersPresent(m, a.next)
  }

  predicate HeadPresent(m: map<string, Json>, a: Args)
    requires a.Arg?
  {
    a.name in m && if a.kind.Uint? then m[a.name].Num? else m[a.name].Obj? && MembersPresent(m[a.name].m, a.child)
  }

  /** Every field has a number, every group an object. */
  predicate Present(m: map<string, Json>, a: Args) { a.Arg? ==> HeadPresent(m, a) && Present(m, a.next) }

  // ---- what comes back ---------------------------------------------------

  /** Number of values a mask has room for, in the bits that are scanned. */
  function Capacity(mask: nat): (r: nat)
    ensures r > 0
  {
    Pow2(PopCount(mask, SCANNED))
  }

  /** p with the members of a group set, each modulo the room of its mask. */
  function GroupBack(p: map<string, Json>, m: map<string, Json>, a: Args): map<string, Json>
    requires MembersPresent(m, a)
    decreases a
  {
    if a.Arg? then GroupBack(p[a.name := Num(m[a.name].n % Capacity(a.mask))], m, a.next) else p
  }

  function HeadBack(m: map<string, Json>, a: Args): Json
    requires a.Arg? && HeadPresent(m, a)
  {
    if a.kind.Uint? then Num(Kept(m[a.name].n, a.kind.bytes)) else Obj(GroupBack(map[], m[a.name].m, a.child))
  }

  /** p with the fields and groups of a profile set to what comes back of them. */
  function Back(p: map<string, Json>, m: map<string, Json>, a: Args): map<string, Json>
    requires Present(m, a)
    decreases a
  {
    if a.Arg? then Back(p[a.name := HeadBack(m, a)], m, a.next) else p
  }

  // ---- the word of a group -----------------------------------------------

  /** The word of a group after its members have been written over prior. */
  function GroupWord(m: map<string, Json>, a: Args, prior: nat): nat
    requires MembersPresent(m, a)
  {
    if a.Arg? then GroupWord(m, a.next, Scatter(prior, m[a.name].n, a.mask, SCANNED)) else prior
  }

  /** The masks from here on are clear in x. */
  predicate AllClear(x: nat, a: Args) { a.Arg? ==> Clear(x, a.mask, SCANNED) && AllClear(x, a.next) }

  lemma {:induction false} ScatterKeepsAllClear(prior: nat, v: nat, mask: nat, a: Args)
    requires AllClear(prior, a) && Apart(mask, a)
    ensures AllClear(Scatter(prior, v, mask, SCANNED), a)
  {
    if a.Arg? {
      StillClear(prior, v, mask, a.mask, SCANNED);
      ScatterKeepsAllClear(prior, v, mask, a.next);
    }
  }

  lemma {:induction false} ClearSymmetric(x: nat, y: nat, len: nat)
    requires Clear(x, y, len)
    ensures Clear(y, x, len)
    decreases len
  {
    if len > 0 {
      ClearSymmetric(Half(x), Half(y), len - 1);
    }
  }

  /** What a mask gathers is not disturbed by members under masks apart from it. */
  lemma {:induction false} GroupUndisturbed(m: map<string, Json>, a: Args, prior: nat, mask: nat)
    requires MembersPresent(m, a) && Apart(mask, a)
    ensures Gather(GroupWord(m, a, prior), mask, SCANNED) == Gather(prior, mask, SCANNED)
  {
    if a.Arg? {
      ClearSymmetric(mask, a.mask, SCANNED);
      DisjointUndisturbed(prior, m[a.name].n, a.mask, mask, SCANNED);
      GroupUndisturbed(m, a.next, Scatter(prior, m[a.name].n, a.mask, SCANNED), mask);
    }
  }

  lemma {:induction false} HighKept(prior: nat, v: nat, mask: nat, len: nat)
    ensures Shr(Scatter(prior, v, mask, len), len) == Shr(prior, len)
    decreases len
  {
    if len > 0 {
      hide Half, Low, Mk;
      HighKept(Half(prior), Next(v, mask), Half(mask), len - 1);
      MkParts(Scatter(Half(prior), Next(v, mask), Half(mask), len - 1),
              if Low(mask) == 1 then Or(Low(prior), Low(v)) else Low(prior));
    }
  }

  lemma ShrFour(x: nat)
    ensures Shr(x, 4) == x / 16
  {
    assert Shr(x, 4) == Shr(Half(x), 3) == Shr(Half(Half(x)), 2) == Shr(Half(Half(Half(x))), 1);
    assert Shr(Half(Half(Half(x))), 1) == x / 2 / 2 / 2 / 2;
  }

  lemma ScatterBound(prior: nat, v: nat, mask: nat)
    requires prior < 16
    ensures Scatter(prior, v, mask, SCANNED) < 16
  {
    hide Scatter, Shr;
    HighKept(prior, v, mask, SCANNED);
    ShrFour(prior);
    ShrFour(Scatter(prior, v, mask, SCANNED));
  }

  /** Only four bits are scanned, so a group stays in the low half of its first byte. */
  lemma {:induction false} GroupWordBound(m: map<string, Json>, a: Args, prior: nat)
    requires MembersPresent(m, a) && prior < 16
    ensures GroupWord(m, a, prior) < 16
  {
    if a.Arg? {
      ScatterBound(prior, m[a.name].n, a.mask);
      GroupWordBound(m, a.next, Scatter(prior, m[a.name].n, a.mask, SCANNED));
    }
  }

  lemma NibbleSurvives(w: nat, n: Width)
    requires w < 16
    ensures Loaded(BytesOf(w, n)) == w
  {
    assert Pow256(n) == 256 * Pow256(n - 1);
    LoadedStored(w, n);
    KeptExactlyWhen(w, n);
  }

  // ---- groups, written and read ------------------------------------------

  lemma SpliceSlices(buf: seq<Octet>, off: nat, b: seq<Octet>)
    requires off + |b| <= |buf|
    ensures Splice(buf, off, b)[off..off + |b|] == b
    ensures Splice(buf, off, b)[off + |b|..] == buf[off + |b|..]
  {
  }

  lemma SpliceTwice(buf: seq<Octet>, off: nat, b: seq<Octet>, c: seq<Octet>)
    requires |b| == |c| && off + |b| <= |buf|
    ensures Splice(Splice(buf, off, b), off, c) == Splice(buf, off, c)
  {
  }

  /** One member of a group, written. */
  lemma WriteMember(m: map<string, Json>, a: Args, n: Width, buf: seq<Octet>, off: nat)
    requires a.Arg? && GroupOk(a, n) && MembersPresent(m, a) && off + n <= |buf|
    ensures
      var b0 := Splice(buf, off, BytesOf(Scatter(Loaded(buf[off..off + n]), m[a.name].n, a.mask, SCANNED), n));
      Write(Obj(m), a, buf, off, true) == if a.next.Arg? then Write(Obj(m), a.next, b0, off, true) else (b0, n as nat)
  {
    hide Write, Splice, BytesOf, Loaded, Scatter, NotAmong, Apart;
    WriteStep(Obj(m), a, buf, off, true);
    var l := WriteLeaf(m[a.name], a.kind, a.mask, buf, off, true);
    WriteNil(m[a.name], l.0, off + Advance(l.1, true, a.next), false);
    WriteNil(Obj(m), l.0, off + n, true);
  }

  /** Writing a group leaves the group's word in its place and uses its width once. */
  lemma {:induction false} WriteGroup(m: map<string, Json>, a: Args, n: Width, buf: seq<Octet>, off: nat)
    requires a.Arg? && GroupOk(a, n) && MembersPresent(m, a) && off + n <= |buf| && Loaded(buf[off..off + n]) < 16
    ensures Write(Obj(m), a, buf, off, true)
         == (Splice(buf, off, BytesOf(GroupWord(m, a, Loaded(buf[off..off + n])), n)), n as nat)
    decreases a
  {
    hide Write, BytesOf, Loaded, Scatter, Splice, NotAmong, Apart;
    var w := Scatter(Loaded(buf[off..off + n]), m[a.name].n, a.mask, SCANNED);
    ScatterBound(Loaded(buf[off..off + n]), m[a.name].n, a.mask);
    NibbleSurvives(w, n);
    WriteMember(m, a, n, buf, off);
    if a.next.Arg? {
      var b0 := Splice(buf, off, BytesOf(w, n));
      SpliceSlices(buf, off, BytesOf(w, n));
      WriteGroup(m, a.next, n, b0, off);
      SpliceTwice(buf, off, BytesOf(w, n), BytesOf(GroupWord(m, a.next, w), n));
    }
  }

  /** One member of a group, read. */
  lemma ReadMember(p: map<string, Json>, a: Args, n: Width, buf: seq<Octet>)
    requires a.Arg? && GroupOk(a, n) && n <= |buf|
    ensures
      var p1 := p[a.name := Num(Gather(Loaded(buf[..n]), a.mask, SCANNED))];
      Read(p, a, buf, true) == if a.next.Arg? then Read(p1, a.next, buf, true) else (p1, n as nat)
  {
    hide Read, Loaded, Gather, NotAmong, Apart;
    ReadStep(p, a, buf, true);
    var l := ReadLeaf(a.kind, a.mask, buf, true);
    ReadNil(map[], buf[Advance(l.1, true, a.next)..], false);
    ReadNil(p[a.name := l.0], buf[n..], true);
    assert buf[0..] == buf;
  }

  /** Reading a group's word gives every member back. */
  lemma {:induction false} ReadGroup(p: map<string, Json>, m: map<string, Json>, a: Args, n: Width, prior: nat, buf: seq<Octet>)
    requires a.Arg? && GroupOk(a, n) && MembersPresent(m, a) && n <= |buf|
    requires AllClear(prior, a) && Loaded(buf[..n]) == GroupWord(m, a, prior)
    ensures Read(p, a, buf, true) == (GroupBack(p, m, a), n as nat)
    decreases a
  {
    hide Read, Loaded, Gather, Scatter, Clear, PopCount, Pow2, NotAmong;
    var v := m[a.name].n;
    var w := Scatter(prior, v, a.mask, SCANNED);
    GroupUndisturbed(m, a.next, w, a.mask);
    GatherScatterModulo(prior, v, a.mask, SCANNED);
    ReadMember(p, a, n, buf);
    if a.next.Arg? {
      ScatterKeepsAllClear(prior, v, a.mask, a.next);
      ReadGroup(p[a.name := Num(v % Capacity(a.mask))], m, a.next, n, w, buf);
    }
  }

  lemma {:induction false} ZeroClear(mask: nat, len: nat)
    ensures Clear(0, mask, len)
    decreases len
  {
    if len > 0 {
      ZeroClear(Half(mask), len - 1);
    }
  }

  lemma {:induction false} ZeroAllClear(a: Args)
    ensures AllClear(0, a)
  {
    if a.Arg? {
      ZeroClear(a.mask, SCANNED);
      ZeroAllClear(a.next);
    }
  }

  // ---- profiles, written -------------------------------------------------

  predicate AllZero(b: seq<Octet>) { forall i :: 0 <= i < |b| ==> b[i] == 0 }

  lemma {:induction false} ZeroLoaded(b: seq<Octet>)
    requires AllZero(b)
    ensures WordOf(b) == 0 && Loaded(b) == 0
  {
    if b != [] {
      ZeroLoaded(b[1..]);
    }
  }

  lemma ZeroPart(buf: seq<Octet>, off: nat, n: nat, size: nat)
    requires n <= size && off + size <= |buf| && AllZero(buf[off..off + size])
    ensures AllZero(buf[off..off + n]) && AllZero(buf[off + n..off + size])
  {
    var z := buf[off..off + size];
    assert buf[off..off + n] == z[..n];
    assert buf[off + n..off + size] == z[n..];
  }

  /** The bytes the head of a profile becomes. */
  function HeadBytes(m: map<string, Json>, a: Args): (b: seq<Octet>)
    requires a.Arg? && HeadPresent(m, a)
    ensures |b| == HeadSize(a)
  {
    if a.kind.Uint? then BytesOf(m[a.name].n, a.kind.bytes)
    else BytesOf(GroupWord(m[a.name].m, a.child, 0), GroupWidth(a.child))
  }

  /** A profile in bytes, head after head. */
  function Encoded(m: map<string, Json>, a: Args): (b: seq<Octet>)
    requires Present(m, a)
    ensures |b| == Size(a)
  {
    if a.Arg? then HeadBytes(m, a) + Encoded(m, a.next) else []
  }

  lemma WriteField(m: map<string, Json>, a: Args, buf: seq<Octet>, off: nat)
    requires Leaf(a) && HeadPresent(m, a) && off + a.kind.bytes <= |buf|
    ensures
      var r := Write(Obj(m), a.next, Splice(buf, off, HeadBytes(m, a)), off + a.kind.bytes, false);
      Write(Obj(m), a, buf, off, false) == (r.0, a.kind.bytes + r.1)
  {
    hide Write, Splice, BytesOf, Loaded;
    WriteStep(Obj(m), a, buf, off, false);
    var l := WriteLeaf(m[a.name], a.kind, a.mask, buf, off, false);
    WriteNil(m[a.name], l.0, off + a.kind.bytes, false);
  }

  /** A group itself uses nothing: its members start where it does. */
  lemma WriteBitmap(m: map<string, Json>, a: Args, buf: seq<Octet>, off: nat)
    requires a.Arg? && a.kind.Bitmap? && a.name in m && off <= |buf|
    ensures
      var g := Write(m[a.name], a.child, buf, off, true);
      var r := Write(Obj(m), a.next, g.0, off + g.1, false);
      Write(Obj(m), a, buf, off, false) == (r.0, g.1 + r.1)
  {
    hide Write;
    WriteStep(Obj(m), a, buf, off, false);
  }

  /** The head of a profile, written over zeros. */
  lemma WriteHead(m: map<string, Json>, a: Args, buf: seq<Octet>, off: nat)
    requires a.Arg? && ProfileOk(a) && HeadPresent(m, a) && off + HeadSize(a) <= |buf|
    requires AllZero(buf[off..off + HeadSize(a)])
    ensures
      var r := Write(Obj(m), a.next, Splice(buf, off, HeadBytes(m, a)), off + HeadSize(a), false);
      Write(Obj(m), a, buf, off, false) == (r.0, HeadSize(a) + r.1)
  {
    hide Write, BytesOf, Loaded, GroupWord, NotAmong, Splice, GroupOk, MembersPresent, AllZero;
    if a.kind.Bitmap? {
      var n := GroupWidth(a.child);
      ZeroLoaded(buf[off..off + n]);
      WriteBitmap(m, a, buf, off);
      assert m[a.name] == Obj(m[a.name].m);
      WriteGroup(m[a.name].m, a.child, n, buf, off);
    } else {
      WriteField(m, a, buf, off);
    }
  }

  lemma SpliceNext(buf: seq<Octet>, off: nat, b: seq<Octet>, c: seq<Octet>)
    requires off + |b| + |c| <= |buf|
    ensures Splice(Splice(buf, off, b), off + |b|, c) == Splice(buf, off, b + c)
  {
  }

  lemma SpliceNothing(buf: seq<Octet>, off: nat)
    requires off <= |buf|
    ensures Splice(buf, off, []) == buf
  {
  }

  /** The writer lays the profile down head after head and touches nothing else. */
  lemma {:induction false} WriteEncodes(m: map<string, Json>, a: Args, buf: seq<Octet>, off: nat)
    requires ProfileOk(a) && Present(m, a) && off + Size(a) <= |buf| && AllZero(buf[off..off + Size(a)])
    ensures Write(Obj(m), a, buf, off, false) == (Splice(buf, off, Encoded(m, a)), Size(a))
    decreases a
  {
    hide Write, HeadBytes, HeadPresent, HeadSize, AllZero, Splice, NotAmong, GroupOk;
    if a == Nil {
      SpliceNothing(buf, off);
      WriteNil(Obj(m), buf, off, false);
    } else {
      var h := HeadBytes(m, a);
      ZeroPart(buf, off, |h|, Size(a));
      WriteHead(m, a, buf, off);
      RestUntouched(buf, off, h, Size(a));
      WriteEncodes(m, a.next, Splice(buf, off, h), off + |h|);
      SpliceNext(buf, off, h, Encoded(m, a.next));
    }
  }

  lemma RestUntouched(buf: seq<Octet>, off: nat, b: seq<Octet>, size: nat)
    requires |b| <= size && off + size <= |buf|
    ensures Splice(buf, off, b)[off + |b|..off + size] == buf[off + |b|..off + size]
  {
  }

  // ---- profiles, read ----------------------------------------------------

  lemma ReadField(p: map<string, Json>, a: Args, v: nat, rest: seq<Octet>)
    requires Leaf(a)
    ensures
      var r := Read(p[a.name := Num(Kept(v, a.kind.bytes))], a.next, rest, false);
      Read(p, a, BytesOf(v, a.kind.bytes) + rest, false) == (r.0, a.kind.bytes + r.1)
  {
    hide Read, Loaded, BytesOf, Kept;
    var n, b := a.kind.bytes, BytesOf(v, a.kind.bytes);
    ReadStep(p, a, b + rest, false);
    LoadedStored(v, n);
    assert (b + rest)[..n] == b && (b + rest)[n..] == rest;
    ReadNil(map[], rest, false);
  }

  lemma ReadBitmap(p: map<string, Json>, a: Args, buf: seq<Octet>)
    requires a.Arg? && a.kind.Bitmap?
    ensures
      var g := Read(map[], a.child, buf, true);
      var r := Read(p[a.name := Obj(g.0)], a.next, buf[g.1..], false);
      Read(p, a, buf, false) == (r.0, g.1 + r.1)
  {
    hide Read;
    ReadStep(p, a, buf, false);
    assert buf[0..] == buf;
  }

  /** Reading what the head was written as. */
  lemma ReadHead(p: map<string, Json>, m: map<string, Json>, a: Args, rest: seq<Octet>)
    requires a.Arg? && ProfileOk(a) && HeadPresent(m, a)
    ensures
      var r := Read(p[a.name := HeadBack(m, a)], a.next, rest, false);
      Read(p, a, HeadBytes(m, a) + rest, false) == (r.0, HeadSize(a) + r.1)
  {
    hide Read, BytesOf, Loaded, GroupWord, GroupBack, NotAmong, GroupOk, MembersPresent, Kept;
    if a.kind.Bitmap? {
      var g, n, h := m[a.name].m, GroupWidth(a.child), HeadBytes(m, a);
      var buf := h + rest;
      assert buf[n..] == rest && buf[..n] == h;
      ReadBitmap(p, a, buf);
      GroupWordBound(g, a.child, 0);
      NibbleSurvives(GroupWord(g, a.child, 0), n);
      ZeroAllClear(a.child);
      ReadGroup(map[], g, a.child, n, 0, buf);
    } else {
      ReadField(p, a, m[a.name].n, rest);
    }
  }

  /** Reading an encoded profile, in as many bytes as it took. */
  lemma {:induction false} ReadDecodes(p: map<string, Json>, m: map<string, Json>, a: Args, rest: seq<Octet>)
    requires ProfileOk(a) && Present(m, a)
    ensures Read(p, a, Encoded(m, a) + rest, false) == (Back(p, m, a), Size(a))
    decreases a
  {
    hide Read, HeadBytes, HeadPresent, HeadSize, HeadBack, NotAmong, GroupOk;
    if a == Nil {
      ReadNil(p, [] + rest, false);
    } else {
      var h, t := HeadBytes(m, a), Encoded(m, a.next);
      assert (h + t) + rest == h + (t + rest);
      ReadHead(p, m, a, t + rest);
      ReadDecodes(p[a.name := HeadBack(m, a)], m, a.next, rest);
    }
  }

  /** The bytes handed out are the profile's. */
  lemma EncodeIs(m: map<string, Json>, a: Args)
    requires ProfileOk(a) && Present(m, a) && Size(a) <= 128
    ensures Encode(m, a) == Encoded(m, a)
  {
    hide Write, Present, ProfileOk, Size, Splice;
    var buf := Zeros(BUFFER);
    assert AllZero(buf[0..0 + Size(a)]);
    WriteEncodes(m, a, buf, 0);
    SpliceSlices(buf, 0, Encoded(m, a));
    var b := Splice(buf, 0, Encoded(m, a));
    assert b[..Size(a)] == b[0..0 + Size(a)] == Encoded(m, a);
  }

  /** The round trip of the entry points: the bytes handed out are the profile's size and
      the reader, using all of them, gives the profile back. */
  lemma RoundTrip(m: map<string, Json>, a: Args)
    requires ProfileOk(a) && Present(m, a) && Size(a) <= 128
    ensures |Encode(m, a)| == Size(a)
    ensures Decode(a, Encode(m, a)) == (Back(map[], m, a), Size(a))
  {
    hide Encode, Read, Back, Present, ProfileOk, Size;
    EncodeIs(m, a);
    assert Encoded(m, a) + [] == Encoded(m, a);
    ReadDecodes(map[], m, a, []);
  }

  // ---- when values survive -----------------------------------------------

  /** r has for every member of a group what m has. */
  predicate GroupSame(r: map<string, Json>, m: map<string, Json>, a: Args) {
    a.Arg? ==> a.name in r && a.name in m && r[a.name] == m[a.name] && GroupSame(r, m, a.next)
  }

  predicate HeadSame(r: Json, j: Json, a: Args)
    requires a.Arg?
  {
    if a.kind.Uint? then r == j else r.Obj? && j.Obj? && GroupSame(r.m, j.m, a.child)
  }

  /** r has for every field and every member of every group what m has. */
  predicate Same(r: map<string, Json>, m: map<string, Json>, a: Args) {
    a.Arg? ==> a.name in r && a.name in m && HeadSame(r[a.name], m[a.name], a) && Same(r, m, a.next)
  }

  /** Every member has a value its mask has room for. */
  predicate GroupFits(m: map<string, Json>, a: Args)
    requires MembersPresent(m, a)
  {
    a.Arg? ==> m[a.name].n < Capacity(a.mask) && GroupFits(m, a.next)
  }

  predicate HeadFits(m: map<string, Json>, a: Args)
    requires a.Arg? && HeadPresent(m, a)
  {
    if a.kind.Uint? then Survives(m[a.name].n, a.kind.bytes) else GroupFits(m[a.name].m, a.child)
  }

  /** Every value is one that survives in the room its field has. */
  predicate Fits(m: map<string, Json>, a: Args)
    requires Present(m, a)
  {
    a.Arg? ==> HeadFits(m, a) && Fits(m, a.next)
  }

  lemma {:induction false} GroupBackKeeps(p: map<string, Json>, m: map<string, Json>, a: Args, name: string)
    requires MembersPresent(m, a) && NotAmong(name, a) && name in p
    ensures name in GroupBack(p, m, a) && GroupBack(p, m, a)[name] == p[name]
    decreases a
  {
    if a.Arg? {
      GroupBackKeeps(p[a.name := Num(m[a.name].n % Capacity(a.mask))], m, a.next, name);
    }
  }

  lemma {:induction false} GroupSameExactlyWhen(p: map<string, Json>, m: map<string, Json>, a: Args, n: Width)
    requires MembersPresent(m, a) && GroupOk(a, n)
    ensures GroupSame(GroupBack(p, m, a), m, a) <==> GroupFits(m, a)
    decreases a
  {
    hide Capacity;
    if a.Arg? {
      var v := m[a.name].n;
      var p1 := p[a.name := Num(v % Capacity(a.mask))];
      SameModulo(v, Capacity(a.mask));
      GroupBackKeeps(p1, m, a.next, a.name);
      GroupSameExactlyWhen(p1, m, a.next, n);
    }
  }

  lemma HeadSameExactlyWhen(m: map<string, Json>, a: Args)
    requires a.Arg? && ProfileOk(a) && HeadPresent(m, a)
    ensures HeadSame(HeadBack(m, a), m[a.name], a) <==> HeadFits(m, a)
  {
    hide Kept, Survives, GroupBack, GroupSame, GroupFits, NotAmong;
    if a.kind.Uint? {
      KeptExactlyWhen(m[a.name].n, a.kind.bytes);
    } else {
      GroupSameExactlyWhen(map[], m[a.name].m, a.child, GroupWidth(a.child));
    }
  }

  lemma {:induction false} BackKeeps(p: map<string, Json>, m: map<string, Json>, a: Args, name: string)
    requires Present(m, a) && NotAmong(name, a) && name in p
    ensures name in Back(p, m, a) && Back(p, m, a)[name] == p[name]
    decreases a
  {
    hide HeadBack, HeadPresent;
    if a.Arg? {
      BackKeeps(p[a.name := HeadBack(m, a)], m, a.next, name);
    }
  }

  lemma {:induction false} SameExactlyWhen(p: map<string, Json>, m: map<string, Json>, a: Args)
    requires ProfileOk(a) && Present(m, a)
    ensures Same(Back(p, m, a), m, a) <==> Fits(m, a)
    decreases a
  {
    hide HeadBack, HeadSame, HeadFits, GroupOk, MembersPresent;
    if a.Arg? {
      var p1 := p[a.name := HeadBack(m, a)];
      HeadSameExactlyWhen(m, a);
      BackKeeps(p1, m, a.next, a.name);
      SameExactlyWhen(p1, m, a.next);
    }
  }

  /** Every value of a profile comes back exactly when every value fits its field. */
  lemma RecoversExactlyWhen(m: map<string, Json>, a: Args)
    requires ProfileOk(a) && Present(m, a) && Size(a) <= 128
    ensures Same(Decode(a, Encode(m, a)).0, m, a) <==> Fits(m, a)
  {
    hide Back, Same, Fits, Encode, Decode, ProfileOk, Present;
    RoundTrip(m, a);
    SameExactlyWhen(map[], m, a);
  }

  /** A 32-bit field of 2^31, and a member under a mask without a scanned bit: neither comes back. */
  lemma ValuesLost()
    ensures var a := Arg("v", Uint(4), 0, Nil, Nil); var m := map["v" := Num(0x8000_0000)];
      ProfileOk(a) && Present(m, a) && !Same(Decode(a, Encode(m, a)).0, m, a)
    ensures var a := Arg("g", Bitmap, 0, Arg("b", Uint(1), 0x10, Nil, Nil), Nil); var m := map["g" := Obj(map["b" := Num(1)])];
      ProfileOk(a) && Present(m, a) && !Same(Decode(a, Encode(m, a)).0, m, a)
  {
    var a := Arg("v", Uint(4), 0, Nil, Nil);
    var m := map["v" := Num(0x8000_0000)];
    RecoversExactlyWhen(m, a);
    var b := Arg("b", Uint(1), 0x10, Nil, Nil);
    var g := Arg("g", Bitmap, 0, b, Nil);
    var n := map["g" := Obj(map["b" := Num(1)])];
    assert MembersPresent(n["g"].m, b) && GroupOk(b, 1);
    NothingScanned();
    assert !GroupFits(n["g"].m, b);
    RecoversExactlyWhen(n, g);
  }

  lemma NothingScanned()
    ensures Capacity(0x10) == 1
  {
    FourBitsScanned(0x10);
    assert Shr(0x10, 1) == 8 && Shr(0x10, 2) == Shr(8, 1) == 4 && Shr(0x10, 3) == Shr(8, 2) == Shr(4, 1) == 2;
  }

  /** Each of the four lowest mask bits alone has room for two values. */
  lemma OneBitMasks()
    ensures Capacity(1) == 2 && Capacity(2) == 2 && Capacity(4) == 2 && Capacity(8) == 2
  {
    FourBitsScanned(1);
    FourBitsScanned(2);
    FourBitsScanned(4);
    FourBitsScanned(8);
    assert Pow2(1) == 2;
    hide PopCount;
  }

  // ---- a profile in bytes ------------------------------------------------

  const Y := Arg("y", Uint(1), 12, Nil, Nil)
  const X := Arg("x", Uint(1), 3, Nil, Y)
  const G := Arg("g", Bitmap, 0, X, Nil)

  /** A field of 16 bits, then a group with two members of two bits. */
  const EXAMPLE := Arg("a", Uint(2), 0, Nil, G)

  const MEMBERS := map["x" := Num(1), "y" := Num(2)]
  const VALUES := map["a" := Num(0x1234), "g" := Obj(MEMBERS)]

  lemma ExampleWord()
    ensures Scatter(0, 1, 3, 4) == 1 && Scatter(1, 2, 12, 4) == 9
  {
    hide Scatter;
    FirstMember(0, 0);
    SecondMember(1);
  }

  lemma NothingScattered(n: nat)
    requires n <= 2
    ensures Scatter(0, 0, 0, n) == 0
  {
  }

  /** 1 under the two lowest bits. */
  lemma FirstMember(zero: nat, v: nat)
    requires zero == 0 && v == 0
    ensures Scatter(zero, 1, 3, 4) == 1
  {
    hide Scatter;
    NothingScattered(2);
    ScatterStep(zero, v, 1, 3, 0);
    ScatterStep(zero, 1, 3, 4, 0);
  }

  /** 2 under the two bits above, over 1. */
  lemma SecondMember(prior: nat)
    requires prior == 1
    ensures Scatter(prior, 2, 12, 4) == 9
  {
    hide Scatter;
    NothingScattered(0);
    var zero := prior - 1;
    ScatterStep(zero, prior, 1, 1, 0);
    ScatterStep(zero, 2, 3, 2, 1);
    ScatterStep(zero, 2, 6, 3, 2);
    ScatterStep(prior, 2, 12, 4, 4);
  }

  lemma ExampleOk()
    ensures GroupOk(X, 1) && ProfileOk(G) && ProfileOk(EXAMPLE)
    ensures MembersPresent(MEMBERS, X) && Present(VALUES, G) && Present(VALUES, EXAMPLE) && Size(EXAMPLE) == 3
  {
    assert Clear(3, 12, 4) by { ExampleMasks(); }
    hide Clear;
    assert GroupOk(Y, 1);
    assert MembersPresent(MEMBERS, Y);
    assert HeadSize(G) == 1 && Size(G) == 1 + Size(Nil);
  }

  lemma ExampleMasks()
    ensures Clear(3, 12, 4)
  {
    assert Clear(0, 1, 1) && Clear(0, 3, 2) && Clear(1, 6, 3);
  }

  lemma ExampleGroup()
    ensures MembersPresent(MEMBERS, X) && GroupWord(MEMBERS, X, 0) == 9
  {
    ExampleWord();
    hide Scatter;
    assert MembersPresent(MEMBERS, Y) && GroupWord(MEMBERS, Y, 1) == 9;
  }

  /** Values 1234 hexadecimal, 1 and 2 become the bytes 34 12 09: fields in order, lowest
      byte first, the group once, its members under their masks. */
  lemma ExampleBytes()
    ensures Encode(VALUES, EXAMPLE) == [0x34, 0x12, 0x09]
  {
    ExampleOk();
    ExampleGroup();
    hide Encode, GroupWord, GroupOk, ProfileOk, Size, MembersPresent, BytesOf;
    EncodeIs(VALUES, EXAMPLE);
    LowestFirst(0x1234, 0x12, 0, 0);
    LowestFirst(9, 0, 0, 0);
    assert HeadBytes(VALUES, G) == [9];
    assert Encoded(VALUES, G) == [9] + [];
    assert HeadBytes(VALUES, EXAMPLE) == [0x34, 0x12];
  }
}
