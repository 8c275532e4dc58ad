/** lock_init and lock_exit of nxp.c: acquire heap, registration, device and login in
    turn for each lock, rolling back on failure. */
module NxpLocks {
  /** A lock's name towards the SDK: product key and device name. */
  datatype Name = Name(productKey: string, deviceName: string)

  /** One thing acquired: a heap block, a registration, a device or a session. */
  datatype Resource = Memory(name: Name) | Registration(name: Name) | Device(id: int) | Session(id: int)

  /** What the SDK and the heap hold for this file. */
  type Held = multiset<Resource>

  function More(h: Held, r: Resource): Held { h + multiset{r} }

  function Less(h: Held, r: Resource): Held { h - multiset{r} }

  function Join(a: Held, b: Held): Held { a + b }

  lemma LessMore(h: Held, r: Resource)
    ensures Less(More(h, r), r) == h
  {
  }

  /** A live entry of locks[]. */
  datatype Lock = Lock(name: Name, devid: int)

  datatype Slot = Empty | Live(lock: Lock)

  function Of(s: Slot): Held {
    match s
    case Empty => multiset{}
    case Live(l) => multiset{Memory(l.name), Registration(l.name), Device(l.devid), Session(l.devid)}
  }

  /** Resources of all entries. */
  function Total(slots: seq<Slot>): Held {
    if slots == [] then multiset{} else Join(Total(slots[..|slots| - 1]), Of(slots[|slots| - 1]))
  }

  lemma {:induction false} TotalSplit(a: seq<Slot>, b: seq<Slot>)
    ensures Total(a + b) == Join(Total(a), Total(b))
  {
    hide Of, Join;
    if b == [] {
      NothingJoined(Total(a));
      assert a + b == a;
    } else {
      JoinAssociates(Total(a), Total(b[..|b| - 1]), Of(b[|b| - 1]));
      assert (a + b)[..|a + b| - 1] == a + b[..|b| - 1];
      TotalSplit(a, b[..|b| - 1]);
    }
  }

  lemma TotalOne(s: Slot)
    ensures Total([s]) == Of(s)
  {
    assert [s][..0] == [];
  }

  lemma {:induction false} TotalEmpty(slots: seq<Slot>)
    requires forall i :: 0 <= i < |slots| ==> slots[i] == Empty
    ensures Total(slots) == multiset{}
  {
    if slots != [] {
      TotalEmpty(slots[..|slots| - 1]);
    }
  }

  /** strncpy into a zeroed buffer of n bytes. */
  function Cut(s: string, n: nat): string
    requires n > 0
  {
    if |s| < n then s else s[..n - 1]
  }

  datatype Conf = Conf(productKey: string, deviceName: string, deviceSecret: string)

  function NameOf(c: Conf): Name { Name(Cut(c.productKey, 32), Cut(c.deviceName, 64)) }

  /** What malloc and the SDK answer for one lock: register, create and login are return codes. */
  datatype Answers = Answers(memory: bool, register: int, create: int, login: int)

  /** The acquisition of one lock goes through. */
  predicate Succeeds(a: Answers) { a.memory && a.register >= 0 && a.create >= 0 && a.login >= 0 }

  class Locks {
    const locks: array<Slot>
    var held: Held

    constructor (n: nat)
      ensures locks.Length == n && fresh(locks) && held == multiset{}
      ensures forall i :: 0 <= i < n ==> locks[i] == Empty
    {
      locks := new Slot[n](_ => Empty);
      held := multiset{};
    }

    method Gain(r: Resource)
      modifies `held
      ensures held == More(old(held), r)
    {
      held := held + multiset{r};
    }

    /** A release of something held; releasing what is not held changes nothing. */
    method Drop(r: Resource)
      modifies `held
      ensures held == Less(old(held), r)
    {
      held := held - multiset{r};
    }

    /** The body of the loop of lock_init: one lock acquired, or everything given back. */
    method Acquire(c: Conf, a: Answers) returns (got: Slot)
      modifies `held
      ensures got == if Succeeds(a) then Live(Lock(NameOf(c), a.create)) else Empty
      ensures held == Join(old(held), Of(got))
    {
      hide More, Less, Join, Of, Cut;
      ghost var h0 := held;
      NothingJoined(h0);
      if !a.memory {
        return Empty;
      }
      var name := NameOf(c);
      ghost var h1 := More(h0, Memory(name));
      ghost var h2 := More(h1, Registration(name));
      LessMore(h0, Memory(name));
      LessMore(h1, Registration(name));
      LessMore(h2, Device(a.create));
      FourGained(h0, Lock(name, a.create));
      Gain(Memory(name));
      if a.register < 0 {
        Drop(Memory(name));
        return Empty;
      }
      Gain(Registration(name));
      var devid := a.create;
      if devid < 0 {
        Drop(Registration(name));
        Drop(Memory(name));
        return Empty;
      }
      Gain(Device(devid));
      if a.login < 0 {
        Drop(Device(devid));
        Drop(Registration(name));
        Drop(Memory(name));
        return Empty;
      }
      Gain(Session(devid));
      return Live(Lock(name, devid));
    }

    /** lock_init. The first failure ends it; n tells how many locks were acquired. */
    method LockInit(conf: seq<Conf>, answers: seq<Answers>) returns (ghost n: nat)
      requires |conf| == |answers| == locks.Length
      modifies this, locks
      ensures n <= locks.Length && (n < locks.Length ==> !Succeeds(answers[n]))
      ensures forall i :: 0 <= i < n ==> Succeeds(answers[i]) && locks[i] == Live(Lock(NameOf(conf[i]), answers[i].create))
      ensures locks[n..] == old(locks[n..])
      ensures held == Join(old(held), Total(locks[..n]))
    {
      hide Of, Total, Join;
      ghost var h0, s0 := held, locks[..];
      n := 0;
      TotalEmpty([]);
      NothingJoined(h0);
      assert locks[..0] == [];
      var i := 0;
      while i < locks.Length
        invariant n == i <= locks.Length
        invariant forall j :: 0 <= j < i ==> Succeeds(answers[j]) && locks[j] == Live(Lock(NameOf(conf[j]), answers[j].create))
        invariant forall j :: i <= j < locks.Length ==> locks[j] == s0[j]
        invariant held == Join(h0, Total(locks[..i]))
      {
        var got := Acquire(conf[i], answers[i]);
        NothingJoined(Join(h0, Total(locks[..i])));
        if got == Empty {
          return;
        }
        ghost var before := locks[..i];
        JoinAssociates(h0, Total(before), Of(got));
        locks[i] := got;
        assert locks[..i + 1] == before + [got];
        TotalSplit(before, [got]);
        TotalOne(got);
        i := i + 1;
        n := i;
      }
    }

    /** The four teardown calls of lock_exit for one entry. */
    method Release(l: Lock)
      modifies `held
      ensures held == Less(Less(Less(Less(old(held), Session(l.devid)), Device(l.devid)), Registration(l.name)), Memory(l.name))
    {
      Drop(Session(l.devid));
      Drop(Device(l.devid));
      Drop(Registration(l.name));
      Drop(Memory(l.name));
    }

    /** lock_exit: whatever is held beside the entries is what remains. */
    method LockExit(ghost rest: Held)
      requires held == Join(rest, Total(locks[..]))
      modifies this, locks
      ensures held == rest
      ensures forall i :: 0 <= i < locks.Length ==> locks[i] == Empty
    {
      hide Of, Total, Join, Less;
      assert locks[0..] == locks[..];
      for i := 0 to locks.Length
        invariant forall j :: 0 <= j < i ==> locks[j] == Empty
        invariant held == Join(rest, Total(locks[i..]))
      {
        ghost var tail := locks[i + 1..];
        assert locks[i..] == [locks[i]] + tail;
        TotalSplit([locks[i]], tail);
        TotalOne(locks[i]);
        match locks[i] {
          case Empty => NothingJoined(Total(tail));
          case Live(l) =>
            ReleaseUndoes(rest, Total(tail), l);
            Release(l);
            locks[i] := Empty;
            assert locks[i + 1..] == tail;
        }
      }
      TotalEmpty([]);
      NothingJoined(rest);
      assert locks[locks.Length..] == [];
    }
  }

  lemma NothingJoined(h: Held)
    ensures Join(h, Of(Empty)) == h && Join(Of(Empty), h) == h && Of(Empty) == multiset{}
  {
  }

  lemma JoinAssociates(a: Held, b: Held, c: Held)
    ensures Join(Join(a, b), c) == Join(a, Join(b, c))
  {
  }

  lemma FourGained(h: Held, l: Lock)
    ensures More(More(More(More(h, Memory(l.name)), Registration(l.name)), Device(l.devid)), Session(l.devid))
         == Join(h, Of(Live(l)))
  {
  }

  lemma ReleaseUndoes(rest: Held, tail: Held, l: Lock)
    ensures Less(Less(Less(Less(Join(rest, Join(Of(Live(l)), tail)),
              Session(l.devid)), Device(l.devid)), Registration(l.name)), Memory(l.name)) == Join(rest, tail)
  {
    var h := Join(rest, tail);
    FourGained(h, l);
    assert Join(rest, Join(Of(Live(l)), tail)) == Join(h, Of(Live(l)));
    hide More, Less, Join, Of;
    var h1 := More(h, Memory(l.name));
    var h2 := More(h1, Registration(l.name));
    var h3 := More(h2, Device(l.devid));
    LessMore(h3, Session(l.devid));
    LessMore(h2, Device(l.devid));
    LessMore(h1, Registration(l.name));
    LessMore(h, Memory(l.name));
  }

  /** Init from empty entries holds exactly the resources of the live ones; exit then
      restores the state before, for any number of locks and any answers. */
  method InitThenExit(k: Locks, conf: seq<Conf>, answers: seq<Answers>)
    requires |conf| == |answers| == k.locks.Length
    requires forall i :: 0 <= i < k.locks.Length ==> k.locks[i] == Empty
    modifies k, k.locks
    ensures k.held == old(k.held)
    ensures forall i :: 0 <= i < k.locks.Length ==> k.locks[i] == Empty
  {
    ghost var base := k.held;
    ghost var n := k.LockInit(conf, answers);
    InitHoldsLive(k.locks[..], n);
    k.LockExit(base);
  }

  /** Entries after the acquired ones are empty, so the total is theirs. */
  lemma InitHoldsLive(slots: seq<Slot>, n: nat)
    requires n <= |slots| && forall i :: n <= i < |slots| ==> slots[i] == Empty
    ensures Total(slots) == Total(slots[..n])
  {
    assert slots == slots[..n] + slots[n..];
    TotalSplit(slots[..n], slots[n..]);
    TotalEmpty(slots[n..]);
  }

  /** A second init overwrites n entries: what is then held beyond the entries is the
      resources of the overwritten ones, so nothing leaks exactly when those were empty. */
  lemma ReinitLeaksExactly(before: seq<Slot>, after: seq<Slot>, base: Held, n: nat)
    requires |before| == |after| && n <= |before| && before[n..] == after[n..]
    ensures base + Total(before) + Total(after[..n]) == base + Total(after) + Total(before[..n])
    ensures base + Total(before) + Total(after[..n]) == base + Total(after)
       <==> forall i :: 0 <= i < n ==> before[i] == Empty
  {
    hide Of, Total;
    assert before == before[..n] + before[n..] && after == after[..n] + after[n..];
    TotalSplit(before[..n], before[n..]);
    TotalSplit(after[..n], after[n..]);
    NothingExactlyWhenEmpty(before[..n]);
    NothingAdded(base + Total(after), Total(before[..n]));
    assert forall i :: 0 <= i < n ==> before[..n][i] == before[i];
  }

  lemma NothingAdded(a: Held, b: Held)
    ensures a + b == a <==> b == multiset{}
  {
    if a + b == a {
      assert |a + b| == |a| + |b|;
    }
  }

  lemma JoinNothing(a: Held, s: Slot)
    ensures Join(a, Of(s)) == multiset{} <==> a == multiset{} && s == Empty
  {
    if s.Live? {
      assert Memory(s.lock.name) in Join(a, Of(s));
    }
  }

  lemma {:induction false} NothingExactlyWhenEmpty(slots: seq<Slot>)
    ensures Total(slots) == multiset{} <==> forall i :: 0 <= i < |slots| ==> slots[i] == Empty
  {
    hide Of, Join;
    if slots != [] {
      var n := |slots| - 1;
      NothingExactlyWhenEmpty(slots[..n]);
      JoinNothing(Total(slots[..n]), slots[n]);
      assert forall i :: 0 <= i < n ==> slots[..n][i] == slots[i];
    }
  }

  /** Two calls of lock_init in a row, the SDK agreeing to everything: what the first one
      acquired is still held and in no entry. */
  method InitTwice(k: Locks, conf: seq<Conf>, answers: seq<Answers>)
    requires |conf| == |answers| == k.locks.Length > 0
    requires forall i :: 0 <= i < k.locks.Length ==> k.locks[i] == Empty && Succeeds(answers[i])
    modifies k, k.locks
    ensures k.held == old(k.held) + Total(k.locks[..]) + Total(k.locks[..])
    ensures k.held != old(k.held) + Total(k.locks[..])
  {
    hide Of, Total, Succeeds;
    ghost var n := k.LockInit(conf, answers);
    ghost var first := k.locks[..];
    assert n == |first| && first[..n] == first;
    n := k.LockInit(conf, answers);
    assert n == |first| && k.locks[..n] == k.locks[..] == first;
    NothingExactlyWhenEmpty(first);
    assert first[0] != Empty;
    NothingAdded(old(k.held) + Total(first), Total(first));
  }

  // ---- the parts in full -------------------------------------------------

  /** A lock is acquired exactly when memory, registration, creation and login all succeed. */
  lemma SucceedsExactlyWhen(a: Answers)
    ensures Succeeds(a) <==> a.memory && !(a.register < 0) && !(a.create < 0) && !(a.login < 0)
  {
  }

  /** What a live lock holds: its block, its registration, its device and its session. */
  lemma HeldByOne(name: Name, id: int)
    ensures Total([Live(Lock(name, id))]) == multiset{Memory(name), Registration(name), Device(id), Session(id)}
    ensures Total([Empty]) == multiset{}
  {
    TotalOne(Live(Lock(name, id)));
    TotalOne(Empty);
  }

  /** The name used towards the SDK is the configured one, cut to 31 and 63 characters. */
  lemma NameIsCut(c: Conf)
    ensures NameOf(c).productKey <= c.productKey && NameOf(c).deviceName <= c.deviceName
    ensures |NameOf(c).productKey| == (if |c.productKey| < 31 then |c.productKey| else 31)
    ensures |NameOf(c).deviceName| == (if |c.deviceName| < 63 then |c.deviceName| else 63)
  {
  }
}
