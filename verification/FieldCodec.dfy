/** The field codec of afly_profile.c (a file whose body is compiled out): the recursive
    reader and writer over a tree of unsigned fields and bitmap groups, and what comes
    back of a value written. */
module FieldCodec {
  import opened MaskCodec
  import opened FieldWords

  type Width = n: nat | 1 <= n <= 4 witness 1

  datatype Kind = Uint(bytes: Width) | Bitmap

  /** cmd_argument_t: a list linked by next, each with a list of children. */
  datatype Args = Nil | Arg(name: string, kind: Kind, mask: nat, child: Args, next: Args)

  datatype Json = Null | Num(n: nat) | Obj(m: map<string, Json>)

  // ---- leaves ------------------------------------------------------------

  /** The mask a wrapper passes on: only inside a bitmap group. */
  function LeafMask(mask: nat, inBitmap: bool): nat { if inBitmap then mask else 0 }

  function Masked(val: nat, mask: nat): nat { if mask != 0 then Gather(val, mask, SCANNED) else val }

  function Merged(prior: nat, val: nat, mask: nat): nat {
    if mask != 0 then Scatter(prior, val, mask, SCANNED) else val
  }

  // The C code counts bits. Every count is a multiple of eight, so bytes are counted
  // here, and the bits left to read are always eight times what is left of the buffer.

  /** alink_parse_buf2json for the two kinds. */
  function ReadLeaf(kind: Kind, mask: nat, buf: seq<Octet>, inBitmap: bool): (r: (Json, nat))
    ensures r.1 <= |buf|
  {
    match kind
    case Uint(n) =>
      if |buf| >= n then (Num(Masked(Loaded(buf[..n]), LeafMask(mask, inBitmap))), n as nat) else (Null, 0)
    case Bitmap => (Obj(map[]), 0)
  }

  /** alink_parse_json2buf at an offset. Where the C would write past the end of the
      buffer nothing is written. */
  function WriteLeaf(jarg: Json, kind: Kind, mask: nat, buf: seq<Octet>, off: nat, inBitmap: bool)
    : (r: (seq<Octet>, nat))
    requires off <= |buf|
    ensures |r.0| == |buf| && off + r.1 <= |buf|
  {
    match kind
    case Uint(n) =>
      if jarg.Num? && off + n <= |buf| then
        (Splice(buf, off, BytesOf(Merged(Loaded(buf[off..off + n]), jarg.n, LeafMask(mask, inBitmap)), n)), n as nat)
      else (buf, 0)
    case Bitmap => (buf, 0)
  }

  // ---- the walkers as functions ------------------------------------------

  /** json_object_set_new: a null value is not stored. */
  function Put(parent: map<string, Json>, name: string, j: Json): map<string, Json> {
    if j.Null? then parent else parent[name := j]
  }

  function Members(j: Json): map<string, Json> { if j.Obj? then j.m else map[] }

  function WithMembers(j: Json, m: map<string, Json>): Json { if j.Obj? then Obj(m) else j }

  /** In a bitmap group all members but the last leave the position where it is. */
  function Advance(used: nat, inBitmap: bool, next: Args): (r: nat)
    ensures r <= used
  {
    if inBitmap && next != Nil then 0 else used
  }

  /** alink_argument2json: the parent with everything read, and how much was used. */
  function Read(parent: map<string, Json>, arg: Args, buf: seq<Octet>, inBitmap: bool): (r: (map<string, Json>, nat))
    ensures r.1 <= |buf|
    decreases arg
  {
    if arg == Nil then (parent, 0)
    else
      var l := ReadLeaf(arg.kind, arg.mask, buf, inBitmap);
      var u1 := Advance(l.1, inBitmap, arg.next);
      var s := Read(Members(l.0), arg.child, buf[u1..], arg.kind.Bitmap?);
      var n := Read(Put(parent, arg.name, WithMembers(l.0, s.0)), arg.next, buf[u1 + s.1..], inBitmap);
      (n.0, u1 + s.1 + n.1)
  }

  function Lookup(parent: Json, name: string): Json {
    if parent.Obj? && name in parent.m then parent.m[name] else Null
  }

  /** alink_json2argument: the buffer afterwards, and how much was used. */
  function Write(parent: Json, arg: Args, buf: seq<Octet>, off: nat, inBitmap: bool): (r: (seq<Octet>, nat))
    requires off <= |buf|
    ensures |r.0| == |buf| && off + r.1 <= |buf|
    decreases arg
  {
    if arg == Nil then (buf, 0)
    else
      var jarg := Lookup(parent, arg.name);
      var l := WriteLeaf(jarg, arg.kind, arg.mask, buf, off, inBitmap);
      var u1 := Advance(l.1, inBitmap, arg.next);
      var s := Write(jarg, arg.child, l.0, off + u1, arg.kind.Bitmap?);
      var n := Write(parent, arg.next, s.0, off + u1 + s.1, inBitmap);
      (n.0, u1 + s.1 + n.1)
  }

  lemma ReadStep(parent: map<string, Json>, arg: Args, buf: seq<Octet>, inBitmap: bool)
    requires arg.Arg?
    ensures Read(parent, arg, buf, inBitmap) ==
      var l := ReadLeaf(arg.kind, arg.mask, buf, inBitmap);
      var u1 := Advance(l.1, inBitmap, arg.next);
      var s := Read(Members(l.0), arg.child, buf[u1..], arg.kind.Bitmap?);
      var n := Read(Put(parent, arg.name, WithMembers(l.0, s.0)), arg.next, buf[u1 + s.1..], inBitmap);
      (n.0, u1 + s.1 + n.1)
  {
    hide ReadLeaf, Advance, Members, WithMembers, Put;
  }

  lemma WriteStep(parent: Json, arg: Args, buf: seq<Octet>, off: nat, inBitmap: bool)
    requires arg.Arg? && off <= |buf|
    ensures Write(parent, arg, buf, off, inBitmap) ==
      var jarg := Lookup(parent, arg.name);
      var l := WriteLeaf(jarg, arg.kind, arg.mask, buf, off, inBitmap);
      var u1 := Advance(l.1, inBitmap, arg.next);
      var s := Write(jarg, arg.child, l.0, off + u1, arg.kind.Bitmap?);
      var n := Write(parent, arg.next, s.0, off + u1 + s.1, inBitmap);
      (n.0, u1 + s.1 + n.1)
  {
    hide WriteLeaf, Advance, Lookup;
  }

  lemma ReadNil(parent: map<string, Json>, buf: seq<Octet>, inBitmap: bool)
    ensures Read(parent, Nil, buf, inBitmap) == (parent, 0)
  {
  }

  lemma WriteNil(j: Json, buf: seq<Octet>, off: nat, inBitmap: bool)
    requires off <= |buf|
    ensures Write(j, Nil, buf, off, inBitmap) == (buf, 0)
  {
  }

  // ---- the walkers as they run -------------------------------------------

  /** B2J_UINTN, or an empty object for a group. */
  method ParseBuf2Json(kind: Kind, mask: nat, buf: array<Octet>, lo: nat, hi: nat, inBitmap: bool)
    returns (jret: Json, used: nat)
    requires lo <= hi <= buf.Length
    ensures (jret, used) == ReadLeaf(kind, mask, buf[lo..hi], inBitmap)
  {
    hide Loaded, Gather;
    jret, used := Null, 0;
    match kind
    case Bitmap => jret := Obj(map[]);
    case Uint(n) =>
      if hi - lo >= n {
        var val := LoadWord(buf, lo, n);
        assert buf[lo..hi][..n] == buf[lo..lo + n];
        if LeafMask(mask, inBitmap) != 0 {
          val := B2JMask(val, mask);
        }
        jret, used := Num(val), n;
      }
  }

  /** J2B_UINTN, or nothing for a group. */
  method ParseJson2Buf(jarg: Json, kind: Kind, mask: nat, buf: array<Octet>, off: nat, inBitmap: bool)
    returns (ret: nat)
    requires off <= buf.Length
    modifies buf
    ensures (buf[..], ret) == WriteLeaf(jarg, kind, mask, old(buf[..]), off, inBitmap)
  {
    hide Splice, BytesOf, Loaded, Scatter;
    ret := 0;
    match kind
    case Bitmap =>
    case Uint(n) =>
      if jarg.Num? && off + n <= buf.Length {
        var lval := jarg.n;
        if LeafMask(mask, inBitmap) != 0 {
          var prior := LoadWord(buf, off, n);
          assert buf[..][off..off + n] == buf[off..off + n];
          lval := J2BUnmask(prior, lval, mask);
        }
        StoreWord(buf, off, n, lval);
        ret := n;
      }
  }

  /** alink_argument2json over buf[lo..hi]. */
  method Argument2Json(jparent: map<string, Json>, arg: Args, buf: array<Octet>, lo: nat, hi: nat, inBitmap: bool)
    returns (parent: map<string, Json>, used: nat)
    requires lo <= hi <= buf.Length && arg.Arg?
    ensures (parent, used) == Read(jparent, arg, buf[lo..hi], inBitmap)
    decreases arg
  {
    hide Read, ReadLeaf, Put, WithMembers, Members;
    ReadStep(jparent, arg, buf[lo..hi], inBitmap);
    var jarg;
    jarg, used := ParseBuf2Json(arg.kind, arg.mask, buf, lo, hi, inBitmap);
    if inBitmap && arg.next != Nil {
      used := 0;
    }
    SliceOfSlice(buf[..], lo, hi, used);
    var members := Members(jarg);
    if arg.child != Nil {
      var u;
      members, u := Argument2Json(members, arg.child, buf, lo + used, hi, arg.kind.Bitmap?);
      used := used + u;
    } else {
      ReadNil(members, buf[lo + used..hi], arg.kind.Bitmap?);
    }
    SliceOfSlice(buf[..], lo, hi, used);
    parent := Put(jparent, arg.name, WithMembers(jarg, members));
    if arg.next != Nil {
      var u;
      parent, u := Argument2Json(parent, arg.next, buf, lo + used, hi, inBitmap);
      used := used + u;
    } else {
      ReadNil(parent, buf[lo + used..hi], inBitmap);
    }
  }

  lemma SliceOfSlice(buf: seq<Octet>, lo: nat, hi: nat, n: nat)
    requires lo + n <= hi <= |buf|
    ensures buf[lo..hi][n..] == buf[lo + n..hi]
  {
  }

  /** alink_json2argument from buf[off] on. */
  method Json2Argument(jparent: Json, arg: Args, buf: array<Octet>, off: nat, inBitmap: bool) returns (used: nat)
    requires off <= buf.Length && arg.Arg?
    modifies buf
    ensures (buf[..], used) == Write(jparent, arg, old(buf[..]), off, inBitmap)
    decreases arg
  {
    hide Write, WriteLeaf, Lookup;
    WriteStep(jparent, arg, buf[..], off, inBitmap);
    var jarg := Lookup(jparent, arg.name);
    used := ParseJson2Buf(jarg, arg.kind, arg.mask, buf, off, inBitmap);
    if inBitmap && arg.next != Nil {
      used := 0;
    }
    if arg.child != Nil {
      var u := Json2Argument(jarg, arg.child, buf, off + used, arg.kind.Bitmap?);
      used := used + u;
    } else {
      WriteNil(jarg, buf[..], off + used, arg.kind.Bitmap?);
    }
    if arg.next != Nil {
      var u := Json2Argument(jparent, arg.next, buf, off + used, inBitmap);
      used := used + u;
    } else {
      WriteNil(jparent, buf[..], off + used, inBitmap);
    }
  }

  // ---- the entry points --------------------------------------------------

  const BUFFER := 128

  function Zeros(n: nat): (b: seq<Octet>)
    ensures |b| == n
  {
    seq(n, _ => 0)
  }

  /** What alink_cmd_profile_json2buf hands out. */
  function Encode(m: map<string, Json>, args: Args): (b: seq<Octet>) {
    var r := Write(Obj(m), args, Zeros(BUFFER), 0, false);
    r.0[..r.1]
  }

  /** What alink_cmd_profile_buf2json makes of some bytes. */
  function Decode(args: Args, b: seq<Octet>): (r: (map<string, Json>, nat)) { Read(map[], args, b, false) }

  /** alink_cmd_profile_json2buf, the text already parsed. */
  method CmdProfileJson2Buf(m: map<string, Json>, args: Args, buf: array<Octet>) returns (len: nat)
    requires args.Arg? && buf.Length >= BUFFER
    modifies buf
    ensures len <= buf.Length && buf[..len] == Encode(m, args) && buf[len..] == old(buf[len..])
  {
    hide Write;
    var tmpbuf := new Octet[BUFFER](_ => 0);
    assert tmpbuf[..] == Zeros(BUFFER);
    len := Json2Argument(Obj(m), args, tmpbuf, 0, false);
    for i := 0 to len
      modifies buf
      invariant buf[..i] == tmpbuf[..i] && buf[i..] == old(buf[i..])
    {
      ghost var was := buf[..];
      buf[i] := tmpbuf[i];
      assert buf[..] == was[i := tmpbuf[i]];
      assert buf[i + 1..] == was[i..][1..];
    }
    assert tmpbuf[..][..len] == tmpbuf[..len];
  }

  /** alink_cmd_profile_buf2json, its object not yet printed. */
  method CmdProfileBuf2Json(args: Args, buf: array<Octet>, len: nat) returns (jargs: map<string, Json>)
    requires len <= buf.Length
    ensures jargs == Decode(args, buf[..len]).0
  {
    jargs := map[];
    if args != Nil {
      var used;
      assert buf[0..len] == buf[..len];
      jargs, used := Argument2Json(jargs, args, buf, 0, len, false);
    }
  }
}
