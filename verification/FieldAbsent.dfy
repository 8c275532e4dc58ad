/** The field codec on objects that lack fields: what is absent at the end of a profile
    does no harm, and what is absent before it moves the rest out of place. */
module FieldAbsent {
  import opened MaskCodec
  import opened FieldWords
  import opened FieldCodec
  import opened FieldRoundTrip

  /** No field from here on has a value. */
  predicate Absent(m: map<string, Json>, a: Args) { a.Arg? ==> a.name !in m && Absent(m, a.next) }

  /** The fields up to some point have values, the others none. */
  predicate PresentThenAbsent(m: map<string, Json>, a: Args) {
    a.Arg? ==> if a.name in m then HeadPresent(m, a) && PresentThenAbsent(m, a.next) else Absent(m, a)
  }

  /** Bytes of the fields that have values. */
  function PartSize(m: map<string, Json>, a: Args): nat {
    if a.Arg? && a.name in m then HeadSize(a) + PartSize(m, a.next) else 0
  }

  lemma {:induction false} PartSizeBound(m: map<string, Json>, a: Args)
    ensures PartSize(m, a) <= Size(a)
  {
    if a.Arg? {
      PartSizeBound(m, a.next);
    }
  }

  function PartEncoded(m: map<string, Json>, a: Args): (b: seq<Octet>)
    requires PresentThenAbsent(m, a)
    ensures |b| == PartSize(m, a)
  {
    if a.Arg? && a.name in m then HeadBytes(m, a) + PartEncoded(m, a.next) else []
  }

  /** A group that is read from nothing is an empty object, a field nothing at all. */
  function AbsentBack(p: map<string, Json>, a: Args): map<string, Json>
    decreases a
  {
    if a.Arg? then AbsentBack(if a.kind.Bitmap? then p[a.name := Obj(map[])] else p, a.next) else p
  }

  function PartBack(p: map<string, Json>, m: map<string, Json>, a: Args): map<string, Json>
    requires PresentThenAbsent(m, a)
    decreases a
  {
    if a.Arg? && a.name in m then PartBack(p[a.name := HeadBack(m, a)], m, a.next) else AbsentBack(p, a)
  }

  // ---- nothing written ---------------------------------------------------

  lemma {:induction false} NullWritesNothing(a: Args, buf: seq<Octet>, off: nat, inBitmap: bool)
    requires off <= |buf|
    ensures Write(Null, a, buf, off, inBitmap) == (buf, 0)
    decreases a
  {
    hide Write;
    if a == Nil {
      WriteNil(Null, buf, off, inBitmap);
    } else {
      WriteStep(Null, a, buf, off, inBitmap);
      NullWritesNothing(a.child, buf, off, a.kind.Bitmap?);
      NullWritesNothing(a.next, buf, off, inBitmap);
    }
  }

  /** An absent head leaves the buffer and the position as they are. */
  lemma AbsentHeadWritesNothing(m: map<string, Json>, a: Args, buf: seq<Octet>, off: nat)
    requires a.Arg? && a.name !in m && off <= |buf|
    ensures Write(Obj(m), a, buf, off, false) == Write(Obj(m), a.next, buf, off, false)
  {
    hide Write;
    WriteStep(Obj(m), a, buf, off, false);
    NullWritesNothing(a.child, buf, off, a.kind.Bitmap?);
  }

  lemma {:induction false} AbsentWritesNothing(m: map<string, Json>, a: Args, buf: seq<Octet>, off: nat)
    requires Absent(m, a) && off <= |buf|
    ensures Write(Obj(m), a, buf, off, false) == (buf, 0)
    decreases a
  {
    hide Write;
    if a == Nil {
      WriteNil(Obj(m), buf, off, false);
    } else {
      AbsentHeadWritesNothing(m, a, buf, off);
      AbsentWritesNothing(m, a.next, buf, off);
    }
  }

  lemma {:induction false} PartWriteEncodes(m: map<string, Json>, a: Args, buf: seq<Octet>, off: nat)
    requires ProfileOk(a) && PresentThenAbsent(m, a)
    requires off + PartSize(m, a) <= |buf| && AllZero(buf[off..off + PartSize(m, a)])
    ensures Write(Obj(m), a, buf, off, false) == (Splice(buf, off, PartEncoded(m, a)), PartSize(m, a))
    decreases a
  {
    hide Write, HeadBytes, HeadPresent, HeadSize, AllZero, Splice, NotAmong, GroupOk;
    if a.Arg? && a.name in m {
      var h := HeadBytes(m, a);
      ZeroPart(buf, off, |h|, PartSize(m, a));
      WriteHead(m, a, buf, off);
      RestUntouched(buf, off, h, PartSize(m, a));
      PartWriteEncodes(m, a.next, Splice(buf, off, h), off + |h|);
      SpliceNext(buf, off, h, PartEncoded(m, a.next));
    } else {
      SpliceNothing(buf, off);
      AbsentWritesNothing(m, a, buf, off);
    }
  }

  // ---- nothing read ------------------------------------------------------

  lemma {:induction false} GroupReadsNothing(p: map<string, Json>, a: Args, n: Width)
    requires GroupOk(a, n)
    ensures Read(p, a, [], true) == (p, 0)
    decreases a
  {
    hide Read, NotAmong, Apart;
    if a == Nil {
      ReadNil(p, [], true);
    } else {
      ReadStep(p, a, [], true);
      ReadNil(map[], [], false);
      GroupReadsNothing(p, a.next, n);
    }
  }

  lemma {:induction false} ReadsNothing(p: map<string, Json>, a: Args)
    requires ProfileOk(a)
    ensures Read(p, a, [], false) == (AbsentBack(p, a), 0)
    decreases a
  {
    hide Read, NotAmong, GroupOk;
    if a == Nil {
      ReadNil(p, [], false);
    } else {
      ReadStep(p, a, [], false);
      if a.kind.Bitmap? {
        GroupReadsNothing(map[], a.child, GroupWidth(a.child));
        ReadsNothing(p[a.name := Obj(map[])], a.next);
      } else {
        ReadNil(map[], [], false);
        ReadsNothing(p, a.next);
      }
    }
  }

  lemma {:induction false} PartReadDecodes(p: map<string, Json>, m: map<string, Json>, a: Args)
    requires ProfileOk(a) && PresentThenAbsent(m, a)
    ensures Read(p, a, PartEncoded(m, a), false) == (PartBack(p, m, a), PartSize(m, a))
    decreases a
  {
    hide Read, HeadBytes, HeadPresent, HeadSize, HeadBack, NotAmong, GroupOk;
    if a.Arg? && a.name in m {
      ReadHead(p, m, a, PartEncoded(m, a.next));
      PartReadDecodes(p[a.name := HeadBack(m, a)], m, a.next);
    } else {
      ReadsNothing(p, a);
    }
  }

  /** Fields absent at the end are harmless: the others come back as in a complete object,
      absent ones do not appear, and absent groups come back empty. */
  lemma TrailingAbsentHarmless(m: map<string, Json>, a: Args)
    requires ProfileOk(a) && PresentThenAbsent(m, a) && PartSize(m, a) <= BUFFER
    ensures |Encode(m, a)| == PartSize(m, a)
    ensures Decode(a, Encode(m, a)) == (PartBack(map[], m, a), PartSize(m, a))
  {
    hide Write, Read, PartBack, PresentThenAbsent, ProfileOk, PartSize, Splice;
    var buf := Zeros(BUFFER);
    assert AllZero(buf[0..0 + PartSize(m, a)]);
    PartWriteEncodes(m, a, buf, 0);
    SpliceSlices(buf, 0, PartEncoded(m, a));
    var b := Splice(buf, 0, PartEncoded(m, a));
    assert b[..PartSize(m, a)] == b[0..0 + PartSize(m, a)] == PartEncoded(m, a);
    PartReadDecodes(map[], m, a);
  }

  // ---- absent in front ---------------------------------------------------

  /** What has been read stays in the object. */
  lemma {:induction false} ReadKeeps(p: map<string, Json>, a: Args, buf: seq<Octet>, inBitmap: bool, name: string)
    requires name in p
    ensures name in Read(p, a, buf, inBitmap).0
    decreases a
  {
    hide Read, ReadLeaf;
    if a == Nil {
      ReadNil(p, buf, inBitmap);
    } else {
      ReadStep(p, a, buf, inBitmap);
      var l := ReadLeaf(a.kind, a.mask, buf, inBitmap);
      var u1 := Advance(l.1, inBitmap, a.next);
      var s := Read(Members(l.0), a.child, buf[u1..], a.kind.Bitmap?);
      ReadKeeps(Put(p, a.name, WithMembers(l.0, s.0)), a.next, buf[u1 + s.1..], inBitmap, name);
    }
  }

  lemma {:induction false} BackAddsNone(p: map<string, Json>, m: map<string, Json>, a: Args, name: string)
    requires Present(m, a) && NotAmong(name, a) && name !in p
    ensures name !in Back(p, m, a)
    decreases a
  {
    hide HeadBack, HeadPresent;
    if a.Arg? {
      BackAddsNone(p[a.name := HeadBack(m, a)], m, a.next, name);
    }
  }

  /** A field absent in front of fields that are there does no harm exactly when they
      together take fewer bytes than it; otherwise it comes back with a value of theirs. */
  lemma LeadingAbsentHarmlessExactlyWhen(m: map<string, Json>, a: Args)
    requires Leaf(a) && ProfileOk(a) && a.name !in m && Present(m, a.next) && Size(a.next) <= BUFFER
    ensures Decode(a, Encode(m, a)) == (Back(map[], m, a.next), Size(a.next)) <==> Size(a.next) < a.kind.bytes
    ensures Size(a.next) >= a.kind.bytes ==> a.name in Decode(a, Encode(m, a)).0
  {
    hide Write, Read, Back, Present, ProfileOk, Size, Splice, HeadPresent, NotAmong;
    assert ProfileOk(a.next) && NotAmong(a.name, a.next) by { Tail(a); }
    var buf := Zeros(BUFFER);
    assert AllZero(buf[0..0 + Size(a.next)]);
    AbsentHeadWritesNothing(m, a, buf, 0);
    WriteEncodes(m, a.next, buf, 0);
    SpliceSlices(buf, 0, Encoded(m, a.next));
    var b := Splice(buf, 0, Encoded(m, a.next));
    var e := Encoded(m, a.next);
    assert b[..Size(a.next)] == b[0..0 + Size(a.next)] == e == e + [];
    ReadAbsent(m, a, e);
    ReadDecodes(map[], m, a.next, []);
    BackAddsNone(map[], m, a.next, a.name);
  }

  lemma Tail(a: Args)
    requires a.Arg? && ProfileOk(a)
    ensures ProfileOk(a.next) && NotAmong(a.name, a.next)
  {
  }

  lemma ReadAbsent(m: map<string, Json>, a: Args, e: seq<Octet>)
    requires Leaf(a)
    ensures |e| < a.kind.bytes ==> Read(map[], a, e, false) == Read(map[], a.next, e, false)
    ensures |e| >= a.kind.bytes ==> a.name in Read(map[], a, e, false).0
  {
    hide Read, Loaded;
    ReadStep(map[], a, e, false);
    assert e[0..] == e;
    ReadNil(map[], e, false);
    if |e| >= a.kind.bytes {
      ReadNil(map[], e[a.kind.bytes..], false);
      var j := ReadLeaf(a.kind, a.mask, e, false).0;
      ReadKeeps(map[a.name := j], a.next, e[a.kind.bytes..], false, a.name);
    }
  }
}
