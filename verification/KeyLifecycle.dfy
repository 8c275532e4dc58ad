/** What the key protocol achieves for one key, and exactly when it does not. */
module KeyLifecycle {
  import opened Wrappers
  import opened KeyTable
  import opened DeviceTable
  import opened LockProtocol

  // ---- identifiers -------------------------------------------------------

  /** Leading number of a password for which the acknowledgement is recognised. */
  predicate InBand(v: nat) { v < 1000000 || 3000000 <= v < 4000000 }

  /** Where the arithmetic is undefined, the identifier it happens to give decides. */
  predicate Recognised(r: Request) {
    if IdDefined(r) then InBand(Atoi(r.keyStr)) else Classify(r.wild) == Some(2)
  }

  /** The identifier made from a password is read back as a password identifier
      exactly when the number is in the band. */
  lemma ClassifiedExactlyWhenInBand(r: Request)
    requires r.lockType == 2
    ensures Classify(KeyId(r)) == Some(2) <==> Recognised(r)
  {
  }

  ghost predicate InUse(row: Row, id: int) {
    exists j :: 0 <= j < |row| && row[j].state != KeyNone && row[j].id == id
  }

  lemma OnlyMatch(row: Row, k: nat, st: KeyState, id: int)
    requires k < |row| && row[k].state == st && st != KeyNone && row[k].id == id
    requires forall j :: 0 <= j < |row| && j != k ==> !(row[j].state != KeyNone && row[j].id == id)
    ensures LastWith(row, id) == k && FirstWith(row, st, id) == k
  {
  }

  /** A request that is accepted puts its key into the first free slot, ADDING. */
  lemma AcceptedRequest(s: Store, d: nat, r: Request)
    requires Shaped(s.devs) && d < |s.devs| && RequestCode(s, d, r) == 0
    ensures FirstFree(Passwords(s, d)) < SLOTS
    ensures AfterRequest(s, d, r).devs == s.devs[d := WithSlot(s.devs[d], PASSWORDS, FirstFree(Passwords(s, d)), MakeKey(r))]
    ensures Passwords(AfterRequest(s, d, r), d) == Passwords(s, d)[FirstFree(Passwords(s, d)) := MakeKey(r)]
  {
    CountsSum(Passwords(s, d));
    CountZero(Passwords(s, d), KeyNone);
  }

  /** The first slot that awaits the identifier, ADDED. */
  function Activate(row: Row, id: int): Row {
    var a := FirstWith(row, KeyAdding, id);
    if a < |row| then row[a := row[a].(state := KeyAdded)] else row
  }

  /** A success report for a password identifier some slot awaits is honoured exactly when
      the last slot in use with the identifier is ADDING: then the first ADDING one
      becomes ADDED, and otherwise nothing happens. */
  lemma AddReportHonouredExactlyWhen(s: Store, d: nat, id: int)
    requires Shaped(s.devs) && d < |s.devs| && Classify(id) == Some(2)
    requires FirstWith(Passwords(s, d), KeyAdding, id) < SLOTS
    ensures var row := Passwords(s, d); var h := Handle(s, d, Ack(1, id, 0));
      LastWith(row, id) < SLOTS && |h.0.devs| == |s.devs| &&
      (h.1.KeyAddedNote? <==> row[LastWith(row, id)].state == KeyAdding) &&
      (if h.1.KeyAddedNote? then PasswordAdded(h.1) && Passwords(h.0, d) == Activate(row, id) else h == (s, NoNote))
  {
    hide CountIn;
  }

  /** The keys before a request that let the report for it be honoured: the last one with
      the identifier is none, is before the slot the request takes, or is itself awaited. */
  ghost predicate TwinsFit(row: Row, id: int) {
    var l := LastWith(row, id);
    l == |row| || l < FirstFree(row) || row[l].state == KeyAdding
  }

  /** After an accepted request the lock's success report turns a key with the identifier
      ADDED, and is notified as a password, exactly when the identifier is recognised and
      the twins fit; otherwise it leaves the password table as the request left it. The key
      turned is the one requested exactly when no twin before it was awaited already. */
  lemma AckActivatesExactlyWhen(s: Store, d: nat, r: Request)
    requires Shaped(s.devs) && d < |s.devs| && RequestCode(s, d, r) == 0
    ensures d < |Activated(s, d, r).devs| == |AfterRequest(s, d, r).devs|
    ensures var row, id := Passwords(s, d), KeyId(r); var k := FirstFree(row);
      var asked := row[k := MakeKey(r)]; var a := FirstWith(asked, KeyAdding, id);
      var note := Handle(AfterRequest(s, d, r), d, Ack(1, id, 0)).1;
      k < SLOTS && a < SLOTS &&
      (PasswordAdded(note) <==> Recognised(r) && TwinsFit(row, id)) &&
      Passwords(Activated(s, d, r), d) == (if PasswordAdded(note) then Activate(asked, id) else asked) &&
      (a == k <==> FirstWith(row, KeyAdding, id) > k)
  {
    AcceptedRequest(s, d, r);
    assert r.lockType == 2;
    var s1, id, row := AfterRequest(s, d, r), KeyId(r), Passwords(s, d);
    var k := FirstFree(row);
    var asked := row[k := MakeKey(r)];
    hide AfterRequest, CountIn, KeyId, Recognised, Handle, CheckCode, Classify, RequestCode;
    ClassifiedExactlyWhenInBand(r);
    LastWithFilled(row, k, MakeKey(r));
    OwnSlotFirst(row, k, MakeKey(r));
    if Recognised(r) {
      AddReportHonouredExactlyWhen(s1, d, id);
    } else {
      UnrecognisedSpared(s1, d, id);
    }
  }

  lemma OwnSlotFirst(row: Row, k: nat, key: LockKey)
    requires k < |row| && row[k].state == KeyNone && key.state == KeyAdding
    ensures FirstWith(row[k := key], KeyAdding, key.id) == if FirstWith(row, KeyAdding, key.id) < k then FirstWith(row, KeyAdding, key.id) else k
    ensures FirstWith(row, KeyAdding, key.id) != k
  {
    var a := FirstWith(row, KeyAdding, key.id);
    FirstWithIs(row[k := key], KeyAdding, key.id, if a < k then a else k);
  }

  lemma UnrecognisedSpared(s: Store, d: nat, id: int)
    requires Shaped(s.devs) && d < |s.devs| && Classify(id) != Some(2)
    ensures var h := Handle(s, d, Ack(1, id, 0));
      !PasswordAdded(h.1) && |h.0.devs| == |s.devs| && Passwords(h.0, d) == Passwords(s, d)
  {
    var a := Ack(1, id, 0);
    if id != 0 && id != 999999 && id != 888888 {
      TypeOfNote(s, d, a);
    }
    OthersSpared(s, d, a);
    hide DoClrKeys, DoComplete, DoDelKey, CountIn;
  }

  /** The store after an accepted request and the lock's success report for it. */
  function Activated(s: Store, d: nat, r: Request): (s': Store)
    requires Shaped(s.devs) && d < |s.devs|
    ensures Shaped(s'.devs)
  {
    Handle(AfterRequest(s, d, r), d, Ack(1, KeyId(r), 0)).0
  }

  // ---- round trip --------------------------------------------------------

  /** Free slots hold nothing from earlier keys. */
  ghost predicate FreeAreZero(s: Store, d: nat)
    requires Shaped(s.devs) && d < |s.devs|
  {
    forall t, j :: 0 <= t < TABLES && 0 <= j < SLOTS && s.devs[d].keys[t][j].state == KeyNone ==>
      s.devs[d].keys[t][j] == ZERO_KEY
  }

  lemma SlotKeepsFreeZero(s: Store, s': Store, d: nat, t: nat, j: nat, k: LockKey)
    requires Shaped(s.devs) && d < |s.devs| && t < TABLES && j < SLOTS && Shaped(s'.devs)
    requires FreeAreZero(s, d) && OneSlot(s, s', d, t, j, k) && (k.state == KeyNone ==> k == ZERO_KEY)
    ensures FreeAreZero(s', d)
  {
  }

  lemma RequestEffect(s: Store, d: nat, r: Request)
    requires Shaped(s.devs) && d < |s.devs|
    ensures RequestCode(s, d, r) == 0 ==>
      FirstFree(KeyRow(s.devs[d], 2)) < SLOTS &&
      OneSlot(s, AfterRequest(s, d, r), d, PASSWORDS, FirstFree(KeyRow(s.devs[d], 2)), MakeKey(r))
    ensures RequestCode(s, d, r) != 0 ==> AfterRequest(s, d, r) == s
  {
    if RequestCode(s, d, r) == 0 {
      AcceptedRequest(s, d, r);
    }
  }

  lemma ClearKeepsFreeZero(s: Store, d: nat, t: int)
    requires Shaped(s.devs) && d < |s.devs| && FreeAreZero(s, d)
    ensures FreeAreZero(DoClrKeys(s, d, t), d)
  {
    hide CountIn;
  }

  lemma StepKeepsFreeZero(x: Session, d: nat, e: Event)
    requires Shaped(x.s.devs) && d < |x.s.devs| && FreeAreZero(x.s, d)
    ensures FreeAreZero(Step(x, d, e).s, d)
  {
    hide Handle, AfterRequest, RequestCode, DoClrKeys, FreeAreZero;
    match e
    case Req(r) =>
      RequestEffect(x.s, d, r);
      if RequestCode(x.s, d, r) == 0 {
        SlotKeepsFreeZero(x.s, AfterRequest(x.s, d, r), d, PASSWORDS, FirstFree(KeyRow(x.s.devs[d], 2)), MakeKey(r));
      }
    case Msg(a) => MessageKeepsFreeZero(x.s, d, a);
  }

  lemma MessageKeepsFreeZero(s: Store, d: nat, a: Ack)
    requires Shaped(s.devs) && d < |s.devs| && FreeAreZero(s, d)
    ensures FreeAreZero(Handle(s, d, a).0, d)
  {
    NoteMatchesOneSlot(s, d, a);
    var s' := Handle(s, d, a).0;
    if a.passId == 0 {
      ClearKeepsFreeZero(s, d, 0);
    } else {
      hide Handle, DoClrKeys, CountIn, FreeAreZero;
      match Handle(s, d, a).1
      case KeyAddedNote(id, t, _, _) =>
        var j := FirstWith(KeyRow(s.devs[d], t), KeyAdding, id);
        SlotKeepsFreeZero(s, s', d, TypeIndex(t), j, KeyRow(s.devs[d], t)[j].(state := KeyAdded));
      case KeyDeletedNote(id, t) =>
        var j := FirstWith(KeyRow(s.devs[d], t), KeyAdded, id);
        SlotKeepsFreeZero(s, s', d, TypeIndex(t), j, ZERO_KEY);
      case _ => SameKeysFreeZero(s, s', d);
    }
  }

  lemma SameKeysFreeZero(s: Store, s': Store, d: nat)
    requires Shaped(s.devs) && d < |s.devs| && Shaped(s'.devs) && d < |s'.devs|
    requires FreeAreZero(s, d) && s'.devs[d].keys == s.devs[d].keys
    ensures FreeAreZero(s', d)
  {
  }

  lemma {:induction false} RunKeepsFreeZero(x: Session, d: nat, es: seq<Event>)
    requires Shaped(x.s.devs) && d < |x.s.devs| && FreeAreZero(x.s, d)
    ensures FreeAreZero(Run(x, d, es).s, d)
    decreases |es|
  {
    if es != [] {
      StepKeepsFreeZero(x, d, es[0]);
      RunKeepsFreeZero(Step(x, d, es[0]), d, es[1..]);
    }
  }

  /** Request, success report, delete report: for a recognised identifier that was not in
      use, every table is what it was before. */
  lemma AddThenDeleteRestores(s: Store, d: nat, r: Request)
    requires Shaped(s.devs) && d < |s.devs| && FreeAreZero(s, d) && RequestCode(s, d, r) == 0
    requires !InUse(Passwords(s, d), KeyId(r)) && Recognised(r)
    ensures |Activated(s, d, r).devs| == |s.devs|
    ensures Handle(Activated(s, d, r), d, Ack(0, KeyId(r), 0)).0.devs[d].keys == s.devs[d].keys
  {
    hide CountIn, Handle, AfterRequest, KeyId, Recognised;
    var id := KeyId(r);
    var keys, row, k := s.devs[d].keys, Passwords(s, d), FirstFree(Passwords(s, d));
    NotInUse(row, id);
    AckActivatesExactlyWhen(s, d, r);
    AcceptedRequest(s, d, r);
    var s1, s2 := AfterRequest(s, d, r), Activated(s, d, r);
    NoteMatchesOneSlot(s1, d, Ack(1, id, 0));
    ClassifiedExactlyWhenInBand(r);
    OnlyMatch(Passwords(s1, d), k, KeyAdding, id);
    OnlyMatch(Passwords(s2, d), k, KeyAdded, id);
    DeleteReport(s2, d, id, k);
    assert Passwords(s2, d)[k := ZERO_KEY] == row;
    assert s2.devs[d].keys[PASSWORDS := row] == keys;
  }

  lemma NotInUse(row: Row, id: int)
    requires !InUse(row, id)
    ensures LastWith(row, id) == |row| == FirstWith(row, KeyAdding, id)
  {
  }

  lemma DeleteReport(s: Store, d: nat, id: int, k: nat)
    requires Shaped(s.devs) && d < |s.devs| && k < SLOTS && Classify(id) == Some(2) && id > 1000000
    requires LastWith(KeyRow(s.devs[d], 2), id) == k && FirstWith(KeyRow(s.devs[d], 2), KeyAdded, id) == k
    ensures Handle(s, d, Ack(0, id, 0)).0.devs == s.devs[d := WithSlot(s.devs[d], PASSWORDS, k, ZERO_KEY)]
  {
  }

  // ---- clear -------------------------------------------------------------

  /** The clear acknowledgement empties table 0 and leaves the password table alone,
      although it is notified as a clear of passwords; so passwords are all gone
      afterwards exactly when there were none. */
  lemma ClearMissesPasswords(s: Store, d: nat, a: Ack)
    requires Shaped(s.devs) && d < |s.devs| && a.passId == 0
    ensures Handle(s, d, a).1 == Cleared(2) && |Handle(s, d, a).0.devs| == |s.devs|
    ensures AllNone(Handle(s, d, a).0.devs[d].keys[0])
    ensures KeyRow(Handle(s, d, a).0.devs[d], 2) == KeyRow(s.devs[d], 2)
    ensures AllNone(KeyRow(Handle(s, d, a).0.devs[d], 2)) <==> AllNone(KeyRow(s.devs[d], 2))
  {
    ClearKeepsOthers(s, d);
    hide DoClrKeys, CountIn;
  }

  // ---- keys the lock refused --------------------------------------------

  /** The one message that can end the ADDING state of keys with an identifier. */
  predicate Confirms(e: Event, id: int) { e == Msg(Ack(1, id, 0)) }

  lemma AddingStaysOneStep(x: Session, d: nat, e: Event, j: nat)
    requires Shaped(x.s.devs) && d < |x.s.devs| && j < SLOTS
    requires KeyRow(x.s.devs[d], 2)[j].state == KeyAdding && !Confirms(e, KeyRow(x.s.devs[d], 2)[j].id)
    ensures |Step(x, d, e).s.devs| == |x.s.devs|
    ensures KeyRow(Step(x, d, e).s.devs[d], 2)[j] == KeyRow(x.s.devs[d], 2)[j]
  {
    match e
    case Req(r) => RequestEffect(x.s, d, r);
    case Msg(a) =>
      if a.passId == 0 {
        ClearKeepsOthers(x.s, d);
        hide DoClrKeys;
      } else {
        NoteMatchesOneSlot(x.s, d, a);
        hide Handle;
      }
  }

  /** A key that the lock does not confirm keeps its slot through every session:
      failure reports, delete reports and clears do not free it. */
  lemma {:induction false} UnconfirmedKeyStays(x: Session, d: nat, es: seq<Event>, j: nat)
    requires Shaped(x.s.devs) && d < |x.s.devs| && j < SLOTS
    requires KeyRow(x.s.devs[d], 2)[j].state == KeyAdding
    requires forall i :: 0 <= i < |es| ==> !Confirms(es[i], KeyRow(x.s.devs[d], 2)[j].id)
    ensures |Run(x, d, es).s.devs| == |x.s.devs|
    ensures KeyRow(Run(x, d, es).s.devs[d], 2)[j] == KeyRow(x.s.devs[d], 2)[j]
    decreases |es|
  {
    if es != [] {
      AddingStaysOneStep(x, d, es[0], j);
      UnconfirmedKeyStays(Step(x, d, es[0]), d, es[1..], j);
    }
  }

  /** Once 128 such keys have piled up, no request is ever accepted again. */
  lemma PiledUpKeysBlockRequests(x: Session, d: nat, es: seq<Event>, r: Request)
    requires Shaped(x.s.devs) && d < |x.s.devs|
    requires forall j :: 0 <= j < SLOTS ==> KeyRow(x.s.devs[d], 2)[j].state == KeyAdding
    requires forall i, j :: 0 <= i < |es| && 0 <= j < SLOTS ==> !Confirms(es[i], KeyRow(x.s.devs[d], 2)[j].id)
    ensures |Run(x, d, es).s.devs| == |x.s.devs|
    ensures RequestCode(Run(x, d, es).s, d, r) != 0
    ensures CheckCode(r) == 0 ==> RequestCode(Run(x, d, es).s, d, r) == -6
  {
    forall j | 0 <= j < SLOTS
      ensures |Run(x, d, es).s.devs| == |x.s.devs|
      ensures KeyRow(Run(x, d, es).s.devs[d], 2)[j].state == KeyAdding
    {
      UnconfirmedKeyStays(x, d, es, j);
    }
    UnconfirmedKeyStays(x, d, es, 0);
  }

  // ---- two keys with one identifier -------------------------------------

  /** The notification of an added key carries limit and text of the slot it activated
      exactly when that slot and the last one in use with the identifier agree in them. */
  lemma NoteDescribesActivatedSlotExactlyWhen(s: Store, d: nat, a: Ack)
    requires Shaped(s.devs) && d < |s.devs| && Handle(s, d, a).1.KeyAddedNote?
    ensures var n := Handle(s, d, a).1; var row := KeyRow(s.devs[d], n.lockType);
      var l, k := LastWith(row, a.passId), FirstWith(row, KeyAdding, a.passId);
      l < SLOTS && k < SLOTS &&
      OneSlot(s, Handle(s, d, a).0, d, TypeIndex(n.lockType), k, row[k].(state := KeyAdded)) &&
      (n == KeyAddedNote(a.passId, n.lockType, row[k].limit, KeyText(row[k]))
       <==> row[k].limit == row[l].limit && KeyText(row[k]) == KeyText(row[l]))
  {
    NoteMatchesOneSlot(s, d, a);
    hide CountIn, DoComplete;
  }

  /** A key as requests make them. */
  predicate Made(k: LockKey) { k.state != KeyNone ==> k.limit == 1 && k.len == |k.buf| }

  predicate AllMade(row: Row) { forall j :: 0 <= j < |row| ==> Made(row[j]) }

  lemma StepKeepsMade(x: Session, d: nat, e: Event)
    requires Shaped(x.s.devs) && d < |x.s.devs| && AllMade(Passwords(x.s, d))
    ensures d < |Step(x, d, e).s.devs| && AllMade(Passwords(Step(x, d, e).s, d))
  {
    hide Handle, AfterRequest, CountIn;
    match e
    case Req(r) => RequestEffect(x.s, d, r);
    case Msg(a) =>
      OthersSpared(x.s, d, a);
      NoteMatchesOneSlot(x.s, d, a);
  }

  lemma {:induction false} RunKeepsMade(x: Session, d: nat, es: seq<Event>)
    requires Shaped(x.s.devs) && d < |x.s.devs| && AllMade(Passwords(x.s, d))
    ensures d < |Run(x, d, es).s.devs| && AllMade(Passwords(Run(x, d, es).s, d))
    decreases |es|
  {
    if es != [] {
      StepKeepsMade(x, d, es[0]);
      RunKeepsMade(Step(x, d, es[0]), d, es[1..]);
    }
  }

  /** In every session from an empty password table, the notification of an added
      password describes the key it activated exactly when that key has the same text as
      the last one with the identifier. */
  lemma SessionNoteDescribesExactlyWhen(s: Store, d: nat, es: seq<Event>, a: Ack)
    requires Shaped(s.devs) && d < |s.devs| && AllNone(Passwords(s, d))
    requires PasswordAdded(Handle(Run(Session(s, 0, []), d, es).s, d, a).1)
    ensures d < |Run(Session(s, 0, []), d, es).s.devs|
    ensures var row := Passwords(Run(Session(s, 0, []), d, es).s, d);
      var l, k := LastWith(row, a.passId), FirstWith(row, KeyAdding, a.passId);
      l < SLOTS && k < SLOTS &&
      (Handle(Run(Session(s, 0, []), d, es).s, d, a).1 == KeyAddedNote(a.passId, 2, row[k].limit, row[k].buf)
       <==> row[k].buf == row[l].buf)
  {
    var x := Session(s, 0, []);
    RunKeepsMade(x, d, es);
    var y := Run(x, d, es).s;
    hide Run, Handle;
    NoteDescribesActivatedSlotExactlyWhen(y, d, a);
    WholeText(Passwords(y, d), LastWith(Passwords(y, d), a.passId));
    WholeText(Passwords(y, d), FirstWith(Passwords(y, d), KeyAdding, a.passId));
  }

  lemma WholeText(row: Row, k: nat)
    requires AllMade(row) && k <= |row| && (k < |row| ==> row[k].state != KeyNone)
    ensures k < |row| ==> row[k].limit == 1 && KeyText(row[k]) == row[k].buf
  {
    if k < |row| {
      assert Made(row[k]);
    }
  }

  /** An active key is removed by the lock's delete report exactly when the last slot in
      use with its identifier is ADDED; a later pending twin makes the report be ignored. */
  lemma DeleteReportHonouredExactlyWhen(s: Store, d: nat, id: int)
    requires Shaped(s.devs) && d < |s.devs| && Classify(id) == Some(2) && id >= 2000000
    requires FirstWith(KeyRow(s.devs[d], 2), KeyAdded, id) < SLOTS
    ensures LastWith(KeyRow(s.devs[d], 2), id) < SLOTS
    ensures Handle(s, d, Ack(0, id, 0)).1.KeyDeletedNote?
       <==> KeyRow(s.devs[d], 2)[LastWith(KeyRow(s.devs[d], 2), id)].state == KeyAdded
    ensures !Handle(s, d, Ack(0, id, 0)).1.KeyDeletedNote? ==> Handle(s, d, Ack(0, id, 0)) == (s, NoNote)
  {
  }
}
