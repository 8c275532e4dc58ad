/** Sessions from an empty password table in which the key protocol goes wrong: each case
    that KeyLifecycle excludes does arise. */
module KeyScenarios {
  import opened Wrappers
  import opened KeyTable
  import opened DeviceTable
  import opened LockProtocol
  import opened KeyLifecycle

  /** An empty password table and a request that passes the checks. */
  ghost predicate Begins(s: Store, d: nat, r: Request) {
    Shaped(s.devs) && d < |s.devs| && AllNone(Passwords(s, d)) && CheckCode(r) == 0
  }

  function Success(r: Request): Event { Msg(Ack(1, KeyId(r), 0)) }

  function Deletion(r: Request): Event { Msg(Ack(0, KeyId(r), 0)) }

  function Slots(x: Session, d: nat): Row
    requires Shaped(x.s.devs) && d < |x.s.devs|
  {
    Passwords(x.s, d)
  }

  // ---- steps -------------------------------------------------------------

  lemma Requested(x: Session, d: nat, r: Request, k: nat)
    requires Shaped(x.s.devs) && d < |x.s.devs| && CheckCode(r) == 0
    requires k < SLOTS && Slots(x, d)[k].state == KeyNone && forall j :: 0 <= j < k ==> Slots(x, d)[j].state != KeyNone
    ensures |Step(x, d, Req(r)).s.devs| == |x.s.devs|
    ensures Slots(Step(x, d, Req(r)), d) == Slots(x, d)[k := MakeKey(r)]
  {
    FirstFreeIs(Slots(x, d), k);
    AcceptedRequest(x.s, d, r);
  }

  /** A success report when slot l is the last with the identifier, and k the first awaited. */
  lemma Succeeded(x: Session, d: nat, r: Request, k: nat, l: nat)
    requires Shaped(x.s.devs) && d < |x.s.devs| && r.lockType == 2 && Recognised(r) && k < SLOTS && l < SLOTS
    requires Slots(x, d)[k].state == KeyAdding && Slots(x, d)[k].id == KeyId(r)
    requires forall j :: 0 <= j < k ==> !(Slots(x, d)[j].state == KeyAdding && Slots(x, d)[j].id == KeyId(r))
    requires Slots(x, d)[l].state != KeyNone && Slots(x, d)[l].id == KeyId(r)
    requires forall j :: l < j < SLOTS ==> !(Slots(x, d)[j].state != KeyNone && Slots(x, d)[j].id == KeyId(r))
    ensures |Step(x, d, Success(r)).s.devs| == |x.s.devs|
    ensures Slots(x, d)[l].state == KeyAdding ==>
      Slots(Step(x, d, Success(r)), d) == Slots(x, d)[k := Slots(x, d)[k].(state := KeyAdded)]
    ensures Slots(x, d)[l].state != KeyAdding ==> Handle(x.s, d, Ack(1, KeyId(r), 0)) == (x.s, NoNote)
  {
    hide Handle, Recognised, KeyId;
    ClassifiedExactlyWhenInBand(r);
    FirstWithIs(Slots(x, d), KeyAdding, KeyId(r), k);
    LastWithIs(Slots(x, d), KeyId(r), l);
    AddReportHonouredExactlyWhen(x.s, d, KeyId(r));
  }

  /** A delete report when slot l is the last with the identifier, and k the first ADDED. */
  lemma Deleted(x: Session, d: nat, r: Request, k: nat, l: nat)
    requires Shaped(x.s.devs) && d < |x.s.devs| && r.lockType == 2 && Recognised(r) && k < SLOTS && l < SLOTS
    requires Slots(x, d)[k].state == KeyAdded && Slots(x, d)[k].id == KeyId(r)
    requires forall j :: 0 <= j < k ==> !(Slots(x, d)[j].state == KeyAdded && Slots(x, d)[j].id == KeyId(r))
    requires Slots(x, d)[l].state != KeyNone && Slots(x, d)[l].id == KeyId(r)
    requires forall j :: l < j < SLOTS ==> !(Slots(x, d)[j].state != KeyNone && Slots(x, d)[j].id == KeyId(r))
    ensures |Step(x, d, Deletion(r)).s.devs| == |x.s.devs|
    ensures Slots(x, d)[l].state == KeyAdded ==> Slots(Step(x, d, Deletion(r)), d) == Slots(x, d)[k := ZERO_KEY]
    ensures Slots(x, d)[l].state != KeyAdded ==> Handle(x.s, d, Ack(0, KeyId(r), 0)) == (x.s, NoNote)
  {
    hide Recognised, KeyId, CountIn;
    ClassifiedExactlyWhenInBand(r);
    FirstWithIs(Slots(x, d), KeyAdded, KeyId(r), k);
    LastWithIs(Slots(x, d), KeyId(r), l);
  }

  lemma RunOne(x: Session, d: nat, e: Event, es: seq<Event>)
    requires Shaped(x.s.devs) && d < |x.s.devs|
    ensures |Step(x, d, e).s.devs| == |x.s.devs|
    ensures Run(x, d, [e] + es) == Run(Step(x, d, e), d, es)
  {
    assert ([e] + es)[1..] == es;
  }

  lemma RunTwo(x: Session, d: nat, e: Event, f: Event)
    requires Shaped(x.s.devs) && d < |x.s.devs|
    ensures |Step(x, d, e).s.devs| == |x.s.devs|
    ensures Run(x, d, [e, f]) == Step(Step(x, d, e), d, f)
  {
    assert [e, f] == [e] + [f] && [f] == [f] + [];
    RunOne(x, d, e, [f]);
    RunOne(Step(x, d, e), d, f, []);
  }

  lemma RunThree(x: Session, d: nat, e: Event, f: Event, g: Event)
    requires Shaped(x.s.devs) && d < |x.s.devs|
    ensures |Step(x, d, e).s.devs| == |x.s.devs|
    ensures Run(x, d, [e, f, g]) == Run(Step(x, d, e), d, [f, g])
  {
    assert [e, f, g] == [e] + [f, g];
    RunOne(x, d, e, [f, g]);
  }

  // ---- twins -------------------------------------------------------------

  /** Two requests with one password, both confirmed. */
  lemma BothAdded(x: Session, d: nat, r: Request)
    requires Begins(x.s, d, r) && Recognised(r)
    ensures var y := Run(Run(x, d, [Req(r), Req(r)]), d, [Success(r), Success(r)]);
      |y.s.devs| == |x.s.devs| &&
      Slots(y, d) == Slots(x, d)[0 := MakeKey(r).(state := KeyAdded)][1 := MakeKey(r).(state := KeyAdded)]
  {
    hide Step, Run, Recognised, KeyId, CheckCode;
    assert r.lockType == 2 by { CheckedType(r); }
    RunTwo(x, d, Req(r), Req(r));
    Requested(x, d, r, 0);
    Requested(Step(x, d, Req(r)), d, r, 1);
    var x2 := Run(x, d, [Req(r), Req(r)]);
    RunTwo(x2, d, Success(r), Success(r));
    Succeeded(x2, d, r, 0, 1);
    Succeeded(Step(x2, d, Success(r)), d, r, 1, 1);
  }

  lemma CheckedType(r: Request)
    requires CheckCode(r) == 0
    ensures r.lockType == 2 && r.userLimit == 1
  {
  }

  /** The same password requested and confirmed twice, deleted, and requested again: the
      lock's success report for the new key is ignored and the key stays ADDING. */
  lemma TwinBlocksReport(x: Session, d: nat, r: Request)
    requires Begins(x.s, d, r) && Recognised(r)
    ensures var y := Run(Run(Run(x, d, [Req(r), Req(r)]), d, [Success(r), Success(r)]), d, [Deletion(r), Req(r)]);
      |y.s.devs| == |x.s.devs| && Slots(y, d)[0] == MakeKey(r) && Handle(y.s, d, Ack(1, KeyId(r), 0)) == (y.s, NoNote)
  {
    hide Step, Run, Recognised, KeyId, CheckCode, Handle;
    CheckedType(r);
    BothAdded(x, d, r);
    var z := Run(Run(x, d, [Req(r), Req(r)]), d, [Success(r), Success(r)]);
    RunTwo(z, d, Deletion(r), Req(r));
    Deleted(z, d, r, 0, 1);
    Requested(Step(z, d, Deletion(r)), d, r, 0);
    Succeeded(Run(z, d, [Deletion(r), Req(r)]), d, r, 0, 1);
  }

  /** A password confirmed and requested again: its delete report is ignored. */
  lemma TwinBlocksDeletion(x: Session, d: nat, r: Request)
    requires Begins(x.s, d, r) && Recognised(r)
    ensures var y := Run(x, d, [Req(r), Success(r), Req(r)]);
      |y.s.devs| == |x.s.devs| && Slots(y, d)[0].state == KeyAdded && Handle(y.s, d, Ack(0, KeyId(r), 0)) == (y.s, NoNote)
  {
    hide Step, Run, Recognised, KeyId, CheckCode, Handle;
    CheckedType(r);
    Requested(x, d, r, 0);
    RunThree(x, d, Req(r), Success(r), Req(r));
    var x1 := Step(x, d, Req(r));
    Succeeded(x1, d, r, 0, 0);
    RunTwo(x1, d, Success(r), Req(r));
    Requested(Step(x1, d, Success(r)), d, r, 1);
    Deleted(Run(x, d, [Req(r), Success(r), Req(r)]), d, r, 0, 1);
  }

  /** Two different texts with one identifier: the notification of the first key
      activated carries the text of the second. */
  lemma TwinMisdescribed(x: Session, d: nat, r: Request, q: Request)
    requires Begins(x.s, d, r) && Recognised(r) && CheckCode(q) == 0 && KeyId(q) == KeyId(r) && q.keyStr != r.keyStr
    ensures var y := Run(x, d, [Req(r), Req(q)]);
      |y.s.devs| == |x.s.devs| && Handle(y.s, d, Ack(1, KeyId(r), 0)).1 == KeyAddedNote(KeyId(r), 2, 1, q.keyStr) &&
      Slots(Step(y, d, Success(r)), d)[0].state == KeyAdded && Slots(Step(y, d, Success(r)), d)[0].buf == r.keyStr
  {
    hide Run, Recognised, KeyId, CheckCode, Handle, Step;
    CheckedType(r);
    CheckedType(q);
    RunTwo(x, d, Req(r), Req(q));
    Requested(x, d, r, 0);
    Requested(Step(x, d, Req(r)), d, q, 1);
    var y := Run(x, d, [Req(r), Req(q)]);
    Succeeded(y, d, r, 0, 1);
    NoteIs(y.s, d, r, 1);
  }

  lemma NoteIs(s: Store, d: nat, r: Request, l: nat)
    requires Shaped(s.devs) && d < |s.devs| && r.lockType == 2 && Recognised(r) && l < SLOTS
    requires Passwords(s, d)[l].state == KeyAdding && Passwords(s, d)[l].id == KeyId(r)
    requires forall j :: l < j < SLOTS ==> !(Passwords(s, d)[j].state != KeyNone && Passwords(s, d)[j].id == KeyId(r))
    ensures Handle(s, d, Ack(1, KeyId(r), 0)).1 == KeyAddedNote(KeyId(r), 2, Passwords(s, d)[l].limit, KeyText(Passwords(s, d)[l]))
  {
    hide Recognised, KeyId, CountIn, DoComplete;
    ClassifiedExactlyWhenInBand(r);
    LastWithIs(Passwords(s, d), KeyId(r), l);
  }

  // ---- texts -------------------------------------------------------------

  lemma AllDigits(t: string)
    requires forall i :: 0 <= i < |t| ==> IsDigit(t[i])
    ensures Digits(t) == |t| && Atoi(t) == Value(t)
  {
    DigitsTaken(t, []);
    assert t + [] == t && t[..|t|] == t;
  }

  /** n zeros after a text of digits. */
  lemma {:induction false} ValueOfZeros(t: string, n: nat)
    requires forall i :: 0 <= i < |t| ==> IsDigit(t[i])
    ensures Value(t + Zeros(n)) == Value(t) * Pow10(n)
    decreases n
  {
    if n == 0 {
      assert t + Zeros(0) == t;
    } else {
      assert (t + Zeros(n))[..|t| + n - 1] == t + Zeros(n - 1);
      ValueOfZeros(t, n - 1);
      Times10(Value(t), Pow10(n - 1));
    }
  }

  lemma Times10(v: nat, p: nat)
    ensures 10 * (v * p) == v * (10 * p)
  {
  }

  function Pow10(n: nat): nat { if n == 0 then 1 else 10 * Pow10(n - 1) }

  lemma ZeroRequest(n: nat, now: int, wild: int)
    requires 6 <= n <= 15
    ensures var r := Request(2, 1, Zeros(n), now, wild); CheckCode(r) == 0 && Recognised(r) && KeyId(r) == 2000000
  {
    AllDigits(Zeros(n));
    assert Value(Zeros(n)) == 0 by { ZerosInFront(n, []); assert Zeros(n) + [] == Zeros(n); assert Value([]) == 0; }
    hide Atoi, Digits, Value;
  }

  /** Six zeros and seven zeros are different accepted passwords with one identifier. */
  lemma ZerosAreTwins(now: int, wild: int)
    ensures var r, q := Request(2, 1, Zeros(6), now, wild), Request(2, 1, Zeros(7), now, wild);
      CheckCode(r) == 0 == CheckCode(q) && Recognised(r) && KeyId(q) == KeyId(r) && q.keyStr != r.keyStr
  {
    hide CheckCode, KeyId, Recognised;
    ZeroRequest(6, now, wild);
    ZeroRequest(7, now, wild);
    assert |Zeros(6)| != |Zeros(7)|;
  }

  /** The password 1000000 is accepted, and its success report ignored. */
  lemma MillionOutOfBand(x: Session, d: nat, now: int, wild: int)
    requires Shaped(x.s.devs) && d < |x.s.devs| && AllNone(Passwords(x.s, d))
    ensures var r := Request(2, 1, "1" + Zeros(6), now, wild);
      RequestCode(x.s, d, r) == 0 && KeyId(r) == 3000000 && d < |AfterRequest(x.s, d, r).devs| &&
      !PasswordAdded(Handle(AfterRequest(x.s, d, r), d, Ack(1, KeyId(r), 0)).1) &&
      Passwords(Activated(x.s, d, r), d)[0] == MakeKey(r)
  {
    var r := Request(2, 1, "1" + Zeros(6), now, wild);
    AllDigits(r.keyStr);
    ValueOfZeros("1", 6);
    assert Value("1") == 1;
    assert Pow10(6) == 1000000;
    assert Atoi(r.keyStr) == 1000000;
    hide Handle, AfterRequest, Digits, Atoi, Value;
    FirstFreeIs(Passwords(x.s, d), 0);
    AckActivatesExactlyWhen(x.s, d, r);
  }

  // ---- clears and refusals -----------------------------------------------

  /** A confirmed password survives a clear that is notified as a clear of passwords. */
  lemma ClearLeavesPassword(x: Session, d: nat, r: Request)
    requires Begins(x.s, d, r) && Recognised(r)
    ensures var y := Run(x, d, [Req(r), Success(r), Msg(Ack(1, 0, 0))]);
      |y.s.devs| == |x.s.devs| && y.notes != [] && y.notes[|y.notes| - 1] == Cleared(2) && Slots(y, d)[0].state == KeyAdded
  {
    hide Run, Recognised, KeyId, CheckCode, Handle;
    CheckedType(r);
    Requested(x, d, r, 0);
    RunThree(x, d, Req(r), Success(r), Msg(Ack(1, 0, 0)));
    var x1 := Step(x, d, Req(r));
    Succeeded(x1, d, r, 0, 0);
    RunTwo(x1, d, Success(r), Msg(Ack(1, 0, 0)));
    ClearMissesPasswords(Step(x1, d, Success(r)).s, d, Ack(1, 0, 0));
  }

  /** The first n slots await confirmation, the others are free. */
  ghost predicate Piled(row: Row, n: nat) {
    n <= |row| && forall j :: 0 <= j < |row| ==> row[j].state == if j < n then KeyAdding else KeyNone
  }

  /** n requests in a row fill n slots. */
  lemma {:induction false} Pile(x: Session, d: nat, r: Request, m: nat, n: nat)
    requires Shaped(x.s.devs) && d < |x.s.devs| && CheckCode(r) == 0 && Piled(Slots(x, d), m) && m + n <= SLOTS
    ensures d < |Run(x, d, seq(n, _ => Req(r))).s.devs| && Piled(Slots(Run(x, d, seq(n, _ => Req(r))), d), m + n)
    decreases n
  {
    if n > 0 {
      hide CheckCode, Step;
      Requested(x, d, r, m);
      var rest := seq(n - 1, _ => Req(r));
      assert seq(n, _ => Req(r)) == [Req(r)] + rest;
      RunOne(x, d, Req(r), rest);
      Pile(Step(x, d, Req(r)), d, r, m + 1, n - 1);
    }
  }

  /** 128 requests that the lock does not confirm, and the next one gets -6, also after a
      failure report. */
  lemma RequestsPileUp(x: Session, d: nat, r: Request)
    requires Begins(x.s, d, r)
    ensures var y := Run(x, d, seq(SLOTS, _ => Req(r)));
      d < |y.s.devs| && RequestCode(y.s, d, r) == -6 && d < |Step(y, d, Msg(Ack(1, KeyId(r), 1))).s.devs| &&
      RequestCode(Step(y, d, Msg(Ack(1, KeyId(r), 1))).s, d, r) == -6
  {
    Pile(x, d, r, 0, SLOTS);
    var y := Run(x, d, seq(SLOTS, _ => Req(r)));
    hide Run, Step, CheckCode;
    var e := Msg(Ack(1, KeyId(r), 1));
    forall j | 0 <= j < SLOTS
      ensures |Step(y, d, e).s.devs| == |y.s.devs| && Slots(Step(y, d, e), d)[j] == Slots(y, d)[j]
    {
      AddingStaysOneStep(y, d, e, j);
    }
    AddingStaysOneStep(y, d, e, 0);
  }
}
