/** The key protocol between cloud, gateway and lock: subdev_add_key and the
    add/delete acknowledgement of afly_nxp_rpt_event, for one device record. */
module LockProtocol {
  import opened Wrappers
  import opened KeyTable
  import opened DeviceTable

  // ---- key texts ---------------------------------------------------------

  predicate IsDigit(c: char) { '0' <= c <= '9' }

  /** product_valid_password_string. */
  predicate ValidPassword(s: string) {
    6 <= |s| <= 15 && forall i :: 0 <= i < |s| ==> IsDigit(s[i]) || s[i] == ','
  }

  /** Length of the leading digits. */
  function Digits(s: string): (n: nat)
    ensures n <= |s|
    ensures forall i :: 0 <= i < n ==> IsDigit(s[i])
    ensures n < |s| ==> !IsDigit(s[n])
  {
    if s == [] || !IsDigit(s[0]) then 0 else 1 + Digits(s[1..])
  }

  function DigitValue(c: char): nat
    requires IsDigit(c)
  {
    c as int - '0' as int
  }

  /** Decimal value of a string of digits. */
  function Value(s: string): nat
    requires forall i :: 0 <= i < |s| ==> IsDigit(s[i])
  {
    if s == [] then 0 else 10 * Value(s[..|s| - 1]) + DigitValue(s[|s| - 1])
  }

  /** atoi on a text of digits and commas. */
  function Atoi(s: string): nat { Value(s[..Digits(s)]) }

  /** Whether sscanf(s, "%d,%d") reads a number from a valid text. */
  predicate Scans(s: string) { Digits(s) > 0 }

  // ---- requests ----------------------------------------------------------

  /** wild is the identifier the C arithmetic gives where it is undefined. */
  datatype Request = Request(lockType: int, userLimit: int, keyStr: string, now: int, wild: int)

  const ID_SPAN := 1000000
  const INT_MAX := 0x7FFF_FFFF
  const INT_MIN := -0x8000_0000

  /** Neither atoi nor the sum overflows an int. */
  predicate IdDefined(r: Request) {
    Atoi(r.keyStr) <= INT_MAX && INT_MIN <= ID_SPAN * r.lockType && ID_SPAN * r.lockType + Atoi(r.keyStr) <= INT_MAX
  }

  function KeyId(r: Request): int { if IdDefined(r) then ID_SPAN * r.lockType + Atoi(r.keyStr) else r.wild }

  function MakeKey(r: Request): LockKey {
    LockKey(r.now, KeyAdding, KeyId(r), r.lockType, r.userLimit, |r.keyStr|, r.keyStr)
  }

  /** The checks subdev_add_key makes before it touches the table. */
  function CheckCode(r: Request): int {
    if r.lockType != 2 then -2
    else if r.userLimit != 1 then -3
    else if !ValidPassword(r.keyStr) then -4
    else if !Scans(r.keyStr) then -5
    else 0
  }

  /** Return value of subdev_add_key. */
  function RequestCode(s: Store, d: nat, r: Request): int
    requires Shaped(s.devs) && d < |s.devs|
  {
    if CheckCode(r) != 0 then CheckCode(r)
    else if FirstFree(KeyRow(s.devs[d], r.lockType)) == SLOTS then -6
    else 0
  }

  function AfterRequest(s: Store, d: nat, r: Request): (s': Store)
    requires Shaped(s.devs) && d < |s.devs|
    ensures Shaped(s'.devs)
  {
    if CheckCode(r) != 0 then s else DoWaitAck(s, d, r.lockType, MakeKey(r))
  }

  // ---- acknowledgements --------------------------------------------------

  datatype Ack = Ack(op: int, passId: int, code: int)

  /** The type the handler reads off an identifier; None is the early return. */
  function Classify(passId: int): Option<int> {
    if 2000000 <= passId < 3000000 then Some(2)
    else if 3000000 <= passId < 4000000 then Some(3)
    else if 1000000 <= passId < 2000000 then Some(1)
    else if 5000000 <= passId < 6000000 then Some(2)
    else if passId != 0 && passId != 999999 && passId != 888888 then None
    else Some(0)
  }

  /** The event composed for the cloud. */
  datatype Note =
    | NoNote
    | Cleared(lockType: int)
    | DoorOpened
    | KeyAddedNote(id: int, lockType: int, limit: int, text: string)
    | KeyDeletedNote(id: int, lockType: int)

  /** snprintf of key->buf into len + 1 bytes. */
  function KeyText(k: LockKey): string {
    if 0 <= k.len <= |k.buf| then k.buf[..k.len] else k.buf
  }

  /** The key the handler looks at, if any: the last one in use with the id. */
  function Looked(s: Store, d: nat, t: int, id: int): Option<LockKey>
    requires Shaped(s.devs) && d < |s.devs|
  {
    var row := KeyRow(s.devs[d], t);
    if LastWith(row, id) < SLOTS then Some(row[LastWith(row, id)]) else None
  }

  predicate Expected(k: LockKey, op: int) {
    (k.state == KeyAdding && op == 1) || (k.state == KeyAdded && op == 0)
  }

  /** The part of the handler for identifiers of keys, of type t. */
  function KeyAck(s: Store, d: nat, t: int, a: Ack): (r: (Store, Note))
    requires Shaped(s.devs) && d < |s.devs|
    ensures Shaped(r.0.devs)
  {
    match Looked(s, d, t, a.passId)
    case None => (s, NoNote)
    case Some(key) =>
      if !Expected(key, a.op) || a.code != 0 then (s, NoNote)
      else if a.op == 1 then (DoComplete(s, d, t, a.passId), KeyAddedNote(a.passId, t, key.limit, KeyText(key)))
      else (DoDelKey(s, d, t, a.passId), KeyDeletedNote(a.passId, t))
  }

  /** EVENT_NXP_ADD_DEL_PASS_RET. */
  function Handle(s: Store, d: nat, a: Ack): (r: (Store, Note))
    requires Shaped(s.devs) && d < |s.devs|
    ensures Shaped(r.0.devs)
  {
    match Classify(a.passId)
    case None => (s, NoNote)
    case Some(t) =>
      if a.passId == 0 then (DoClrKeys(s, d, t), Cleared(2))
      else if a.passId == 999999 then (Commit(s, d, s.devs[d].(dynamic := 1)), NoNote)
      else if a.passId == 888888 then (SetRecord(s, d, s.devs[d].(lockStatus := 1)), DoorOpened)
      else KeyAck(s, d, t, a)
  }

  /** Every message keeps the stored image in step. */
  lemma HandleKeepsSynced(s: Store, d: nat, a: Ack)
    requires Synced(s) && d < MAX_SUB_DEV
    ensures Synced(Handle(s, d, a).0)
  {
    match Classify(a.passId)
    case None =>
    case Some(t) =>
      if a.passId == 0 {
        DoKeepsSynced(s, ClrKeys(d, t));
      } else if a.passId == 999999 {
        DoKeepsSynced(s, Update(d, s.devs[d].(dynamic := 1), true));
      } else if a.passId == 888888 {
        DoKeepsSynced(s, Update(d, s.devs[d].(lockStatus := 1), false));
      } else {
        DoKeepsSynced(s, Complete(d, t, a.passId));
        DoKeepsSynced(s, DelKey(d, t, a.passId));
      }
  }

  // ---- one message, one slot --------------------------------------------

  /** Table t of record d changed in slot j only, from old to new. */
  ghost predicate OneSlot(s: Store, s': Store, d: nat, t: nat, j: nat, k: LockKey)
    requires Shaped(s.devs) && d < |s.devs| && t < TABLES && j < SLOTS
  {
    s'.devs == s.devs[d := WithSlot(s.devs[d], t, j, k)]
  }

  /** A KeyAdded notification is composed exactly when a slot with that id goes from
      ADDING to ADDED, a KeyDeleted one exactly when a slot with that id goes from
      ADDED to NONE, and otherwise no key changes unless the message is a clear. */
  lemma NoteMatchesOneSlot(s: Store, d: nat, a: Ack)
    requires Shaped(s.devs) && d < |s.devs|
    ensures match Handle(s, d, a).1 {
      case KeyAddedNote(id, t, _, _) =>
        id == a.passId && a.op == 1 && a.code == 0 &&
        var row := KeyRow(s.devs[d], t); var j := FirstWith(row, KeyAdding, id);
        j < SLOTS && OneSlot(s, Handle(s, d, a).0, d, TypeIndex(t), j, row[j].(state := KeyAdded))
      case KeyDeletedNote(id, t) =>
        id == a.passId && a.op == 0 && a.code == 0 &&
        var row := KeyRow(s.devs[d], t); var j := FirstWith(row, KeyAdded, id);
        j < SLOTS && OneSlot(s, Handle(s, d, a).0, d, TypeIndex(t), j, ZERO_KEY)
      case Cleared(_) => a.passId == 0
      case _ => Handle(s, d, a).0.devs[d].keys == s.devs[d].keys
    }
  {
    hide CountIn;
  }

  // ---- whole sessions ----------------------------------------------------

  datatype Event = Req(r: Request) | Msg(a: Ack)

  /** The store, the number of requests accepted and the notifications composed so far. */
  datatype Session = Session(s: Store, accepted: nat, notes: seq<Note>)

  function Step(x: Session, d: nat, e: Event): (y: Session)
    requires Shaped(x.s.devs) && d < |x.s.devs|
    ensures Shaped(y.s.devs)
  {
    match e
    case Req(r) =>
      Session(AfterRequest(x.s, d, r), x.accepted + (if RequestCode(x.s, d, r) == 0 then 1 else 0), x.notes)
    case Msg(a) =>
      Session(Handle(x.s, d, a).0, x.accepted, x.notes + [Handle(x.s, d, a).1])
  }

  function Run(x: Session, d: nat, es: seq<Event>): (y: Session)
    requires Shaped(x.s.devs) && d < |x.s.devs|
    ensures Shaped(y.s.devs)
    decreases |es|
  {
    if es == [] then x else Run(Step(x, d, es[0]), d, es[1..])
  }

  /** KeyAdded notifications about passwords. */
  function AddedNotes(notes: seq<Note>): nat {
    if notes == [] then 0
    else AddedNotes(notes[..|notes| - 1]) + (if PasswordAdded(notes[|notes| - 1]) then 1 else 0)
  }

  /** KeyDeleted notifications about passwords. */
  function DeletedNotes(notes: seq<Note>): nat {
    if notes == [] then 0
    else DeletedNotes(notes[..|notes| - 1]) + (if PasswordDeleted(notes[|notes| - 1]) then 1 else 0)
  }

  predicate PasswordAdded(n: Note) { n.KeyAddedNote? && n.lockType == 2 }

  predicate PasswordDeleted(n: Note) { n.KeyDeletedNote? && n.lockType == 2 }

  const PASSWORDS := 1

  ghost predicate AllNone(row: Row) { forall j :: 0 <= j < |row| ==> row[j].state == KeyNone }

  function Passwords(s: Store, d: nat): (row: Row)
    requires Shaped(s.devs) && d < |s.devs|
    ensures |row| == SLOTS && row == KeyRow(s.devs[d], 2)
  {
    s.devs[d].keys[PASSWORDS]
  }

  /** The counts of the password table follow the messages. */
  ghost predicate Balanced(x: Session, d: nat) {
    Shaped(x.s.devs) && d < |x.s.devs| &&
    CountIn(Passwords(x.s, d), KeyAdded) == AddedNotes(x.notes) - DeletedNotes(x.notes) &&
    CountIn(Passwords(x.s, d), KeyNone) == SLOTS - x.accepted + DeletedNotes(x.notes)
  }

  lemma NotesGrow(notes: seq<Note>, n: Note)
    ensures AddedNotes(notes + [n]) == AddedNotes(notes) + (if PasswordAdded(n) then 1 else 0)
    ensures DeletedNotes(notes + [n]) == DeletedNotes(notes) + (if PasswordDeleted(n) then 1 else 0)
  {
    assert (notes + [n])[..|notes|] == notes;
  }

  lemma RequestKeepsBalance(x: Session, d: nat, r: Request)
    requires Balanced(x, d)
    ensures Balanced(Step(x, d, Req(r)), d)
  {
    if CheckCode(r) == 0 {
      var row := Passwords(x.s, d);
      var k := FirstFree(row);
      CountsSum(row);
      CountZero(row, KeyNone);
      if k < SLOTS {
        CountUpdate(row, k, MakeKey(r), KeyAdded);
        CountUpdate(row, k, MakeKey(r), KeyNone);
      }
    }
  }

  lemma ClearKeepsOthers(s: Store, d: nat)
    requires Shaped(s.devs) && d < |s.devs|
    ensures forall t :: 0 < t < TABLES ==> DoClrKeys(s, d, 0).devs[d].keys[t] == s.devs[d].keys[t]
    ensures AllNone(DoClrKeys(s, d, 0).devs[d].keys[0])
  {
    var row := s.devs[d].keys[0];
    CountZero(row, KeyAdding);
    CountZero(row, KeyAdded);
    CountsSum(row);
  }

  /** What one message does to the counts, as its notification tells. */
  ghost predicate CountsFollow(s: Store, s': Store, d: nat, n: Note)
    requires Shaped(s.devs) && Shaped(s'.devs) && d < |s.devs|
  {
    CountIn(Passwords(s', d), KeyAdded) == CountIn(Passwords(s, d), KeyAdded)
      + (if PasswordAdded(n) then 1 else 0) - (if PasswordDeleted(n) then 1 else 0) &&
    CountIn(Passwords(s', d), KeyNone) == CountIn(Passwords(s, d), KeyNone) + (if PasswordDeleted(n) then 1 else 0)
  }

  lemma Rebalance(x: Session, d: nat, s': Store, n: Note)
    requires Balanced(x, d) && Shaped(s'.devs) && CountsFollow(x.s, s', d, n)
    ensures Balanced(Session(s', x.accepted, x.notes + [n]), d)
  {
    hide CountIn, Passwords, PasswordAdded, PasswordDeleted, AddedNotes, DeletedNotes;
    NotesGrow(x.notes, n);
  }

  /** Key identifiers give no other notification than the two of keys, with their type. */
  lemma TypeOfNote(s: Store, d: nat, a: Ack)
    requires Shaped(s.devs) && d < |s.devs|
    requires a.passId != 0 && a.passId != 999999 && a.passId != 888888
    ensures Handle(s, d, a).1.NoNote? || Handle(s, d, a).1.KeyAddedNote? || Handle(s, d, a).1.KeyDeletedNote?
    ensures Handle(s, d, a).1 != NoNote ==> Classify(a.passId) == Some(Handle(s, d, a).1.lockType)
  {
    hide DoComplete, DoDelKey, CountIn;
  }

  /** Without a notification about a password, the password table is left alone. */
  lemma OthersSpared(s: Store, d: nat, a: Ack)
    requires Shaped(s.devs) && d < |s.devs|
    ensures |Handle(s, d, a).0.devs| == |s.devs|
    ensures !PasswordAdded(Handle(s, d, a).1) && !PasswordDeleted(Handle(s, d, a).1) ==>
      Passwords(Handle(s, d, a).0, d) == Passwords(s, d)
  {
    NoteMatchesOneSlot(s, d, a);
    if a.passId == 0 {
      ClearKeepsOthers(s, d);
      hide DoClrKeys, CountIn;
    } else if a.passId != 999999 && a.passId != 888888 {
      hide Handle;
      TypeOfNote(s, d, a);
    }
  }

  lemma MessageCounts(s: Store, d: nat, a: Ack)
    requires Shaped(s.devs) && d < |s.devs|
    ensures CountsFollow(s, Handle(s, d, a).0, d, Handle(s, d, a).1)
  {
    hide CountIn, Handle;
    OthersSpared(s, d, a);
    NoteMatchesOneSlot(s, d, a);
    var n, row := Handle(s, d, a).1, Passwords(s, d);
    if PasswordAdded(n) {
      var j := FirstWith(row, KeyAdding, a.passId);
      CountUpdate(row, j, row[j].(state := KeyAdded), KeyAdded);
      CountUpdate(row, j, row[j].(state := KeyAdded), KeyNone);
    } else if PasswordDeleted(n) {
      var j := FirstWith(row, KeyAdded, a.passId);
      CountUpdate(row, j, ZERO_KEY, KeyAdded);
      CountUpdate(row, j, ZERO_KEY, KeyNone);
    }
  }

  lemma StepKeepsBalance(x: Session, d: nat, e: Event)
    requires Balanced(x, d)
    ensures Balanced(Step(x, d, e), d)
  {
    hide Handle, CountIn;
    match e
    case Req(r) => RequestKeepsBalance(x, d, r);
    case Msg(a) =>
      MessageCounts(x.s, d, a);
      Rebalance(x, d, Handle(x.s, d, a).0, Handle(x.s, d, a).1);
  }

  lemma {:induction false} RunKeepsBalance(x: Session, d: nat, es: seq<Event>)
    requires Balanced(x, d)
    ensures Balanced(Run(x, d, es), d)
    decreases |es|
  {
    if es != [] {
      StepKeepsBalance(x, d, es[0]);
      RunKeepsBalance(Step(x, d, es[0]), d, es[1..]);
    }
  }

  /** In every session from an empty password table, whatever the other tables hold: its
      ADDED slots are KeyAdded minus KeyDeleted notifications about passwords, its slots
      in use are accepted requests minus KeyDeleted notifications, and every slot is in
      exactly one of the three states. */
  lemma KeysAreConserved(s: Store, d: nat, es: seq<Event>)
    requires Shaped(s.devs) && d < |s.devs| && AllNone(Passwords(s, d))
    ensures var x := Run(Session(s, 0, []), d, es);
      d < |x.s.devs| &&
      var row := Passwords(x.s, d);
      CountIn(row, KeyAdded) == AddedNotes(x.notes) - DeletedNotes(x.notes) &&
      CountIn(row, KeyAdding) + CountIn(row, KeyAdded) == x.accepted - DeletedNotes(x.notes) &&
      CountIn(row, KeyNone) + CountIn(row, KeyAdding) + CountIn(row, KeyAdded) == 128
  {
    var x0 := Session(s, 0, []);
    var row := Passwords(s, d);
    CountZero(row, KeyAdding);
    CountZero(row, KeyAdded);
    CountsSum(row);
    RunKeepsBalance(x0, d, es);
    CountsSum(Passwords(Run(x0, d, es).s, d));
  }

  // ---- what the parts amount to ------------------------------------------

  const DIGITS := "0123456789"

  /** Decimal numeral, digit by digit. */
  function Dec(n: nat): (s: string)
    ensures s != [] && forall i :: 0 <= i < |s| ==> s[i] in DIGITS
  {
    if n < 10 then [DIGITS[n]] else Dec(n / 10) + [DIGITS[n % 10]]
  }

  lemma DigitsRead(d: nat)
    requires d < 10
    ensures IsDigit(DIGITS[d]) && DigitValue(DIGITS[d]) == d
  {
  }

  lemma InDigits(c: char)
    ensures IsDigit(c) <==> c in DIGITS
  {
    if IsDigit(c) {
      assert DIGITS[c as int - '0' as int] == c;
    }
  }

  lemma OneDigitMore(s: string, c: char)
    requires (forall i :: 0 <= i < |s| ==> IsDigit(s[i])) && IsDigit(c)
    ensures (forall i :: 0 <= i < |s + [c]| ==> IsDigit((s + [c])[i])) && Value(s + [c]) == 10 * Value(s) + DigitValue(c)
  {
    assert (s + [c])[..|s|] == s;
  }

  lemma {:induction false} ValueOfDec(n: nat)
    ensures (forall i :: 0 <= i < |Dec(n)| ==> IsDigit(Dec(n)[i])) && Value(Dec(n)) == n
  {
    DigitsRead(n % 10);
    if n < 10 {
      OneDigitMore([], DIGITS[n]);
      assert [] + [DIGITS[n]] == Dec(n);
      assert Value([]) == 0;
    } else {
      hide Value, DigitValue, IsDigit;
      ValueOfDec(n / 10);
      OneDigitMore(Dec(n / 10), DIGITS[n % 10]);
    }
  }

  function Zeros(k: nat): (s: string)
    ensures |s| == k && forall i :: 0 <= i < k ==> s[i] == '0'
  {
    seq(k, _ => '0')
  }

  lemma {:induction false} ZerosInFront(k: nat, s: string)
    requires forall i :: 0 <= i < |s| ==> IsDigit(s[i])
    ensures Value(Zeros(k) + s) == Value(s)
    decreases k, |s|
  {
    if s != [] {
      assert (Zeros(k) + s)[..k + |s| - 1] == Zeros(k) + s[..|s| - 1];
      ZerosInFront(k, s[..|s| - 1]);
    } else if k > 0 {
      assert (Zeros(k) + [])[..k - 1] == Zeros(k - 1) + [];
      ZerosInFront(k - 1, []);
    }
  }

  lemma {:induction false} DigitsTaken(s: string, rest: string)
    requires (forall i :: 0 <= i < |s| ==> IsDigit(s[i])) && (rest != [] ==> !IsDigit(rest[0]))
    ensures Digits(s + rest) == |s|
  {
    if s != [] {
      assert (s + rest)[1..] == s[1..] + rest;
      DigitsTaken(s[1..], rest);
    } else {
      assert s + rest == rest;
    }
  }

  /** atoi reads a decimal numeral, with zeros in front and up to a comma or the end. */
  lemma AtoiReadsDecimal(n: nat, k: nat, rest: string)
    requires rest != [] ==> rest[0] == ','
    ensures Atoi(Zeros(k) + Dec(n) + rest) == n
  {
    ValueOfDec(n);
    ZerosInFront(k, Dec(n));
    var s := Zeros(k) + Dec(n);
    DigitsTaken(s, rest);
    assert (s + rest)[..|s|] == s;
  }

  lemma {:induction false} ValueInjective(s: string, t: string)
    requires |s| == |t| && (forall i :: 0 <= i < |s| ==> IsDigit(s[i]) && IsDigit(t[i])) && Value(s) == Value(t)
    ensures s == t
  {
    if s != [] {
      var n := |s| - 1;
      ValueInjective(s[..n], t[..n]);
      assert s == s[..n] + [s[n]] && t == t[..n] + [t[n]];
    }
  }

  /** Two passwords of digits only and of one length have one identifier only if equal. */
  lemma IdsTellTextsApart(r: Request, q: Request)
    requires r.lockType == q.lockType && |r.keyStr| == |q.keyStr|
    requires forall i :: 0 <= i < |r.keyStr| ==> r.keyStr[i] in DIGITS && q.keyStr[i] in DIGITS
    ensures IdDefined(r) && IdDefined(q) ==> (KeyId(r) == KeyId(q) <==> r.keyStr == q.keyStr)
  {
    forall i | 0 <= i < |r.keyStr| ensures IsDigit(r.keyStr[i]) && IsDigit(q.keyStr[i]) {
      InDigits(r.keyStr[i]);
      InDigits(q.keyStr[i]);
    }
    DigitsTaken(r.keyStr, []);
    DigitsTaken(q.keyStr, []);
    assert r.keyStr + [] == r.keyStr && q.keyStr + [] == q.keyStr;
    assert r.keyStr[..|r.keyStr|] == r.keyStr && q.keyStr[..|q.keyStr|] == q.keyStr;
    if IdDefined(r) && IdDefined(q) && KeyId(r) == KeyId(q) {
      ValueInjective(r.keyStr, q.keyStr);
    }
  }

  /** Why a request is refused, in the order of the checks. */
  lemma RefusedExactlyWhen(s: Store, d: nat, r: Request)
    requires Shaped(s.devs) && d < |s.devs|
    ensures var text := |r.keyStr| < 6 || |r.keyStr| > 15 || exists i :: 0 <= i < |r.keyStr| && r.keyStr[i] !in "0123456789,";
      RequestCode(s, d, r) ==
        if r.lockType != 2 then -2
        else if r.userLimit != 1 then -3
        else if text then -4
        else if r.keyStr[0] == ',' then -5
        else if forall j :: 0 <= j < 128 ==> s.devs[d].keys[1][j].state != KeyNone then -6
        else 0
    ensures RequestCode(s, d, r) != 0 ==> AfterRequest(s, d, r) == s
  {
    forall i | 0 <= i < |r.keyStr|
      ensures (IsDigit(r.keyStr[i]) || r.keyStr[i] == ',') <==> r.keyStr[i] in "0123456789,"
    {
      InDigits(r.keyStr[i]);
      assert "0123456789," == DIGITS + ",";
    }
    hide FirstFree, CountIn;
    var row := s.devs[d].keys[1];
    assert FirstFree(row) == SLOTS <==> forall j :: 0 <= j < 128 ==> row[j].state != KeyNone;
  }

  /** The key an accepted request leaves in the first free slot of the password table. */
  lemma KeyOfRequest(s: Store, d: nat, r: Request)
    requires Shaped(s.devs) && d < |s.devs| && RequestCode(s, d, r) == 0
    ensures var k := FirstFree(s.devs[d].keys[1]);
      |AfterRequest(s, d, r).devs| == |s.devs| && k < 128 &&
      var key := AfterRequest(s, d, r).devs[d].keys[1][k];
      key.state == KeyAdding && key.last == r.now && key.keyType == 2 && key.limit == 1 &&
      key.buf == r.keyStr && key.len == |r.keyStr| &&
      (2000000 + Atoi(r.keyStr) < 0x8000_0000 ==> key.id == 2000000 + Atoi(r.keyStr))
  {
    CountsSum(s.devs[d].keys[1]);
    CountZero(s.devs[d].keys[1], KeyNone);
    hide FirstFree, CountIn, Atoi;
  }

  /** The types read off an identifier, by its million. */
  lemma ClassifiedByMillion(id: int)
    ensures Classify(id) ==
      if id == 0 || id == 888888 || id == 999999 then Some(0)
      else if id / 1000000 == 1 then Some(1)
      else if id / 1000000 == 2 || id / 1000000 == 5 then Some(2)
      else if id / 1000000 == 3 then Some(3)
      else None
  {
  }

  /** The report of a one-key opening sets lock_status in memory and nothing else. */
  lemma OneKeyOpening(s: Store, d: nat, op: int, code: int)
    requires Shaped(s.devs) && d < |s.devs|
    ensures var h := Handle(s, d, Ack(op, 888888, code));
      h.1 == DoorOpened && h.0.file == s.file && OthersKept(s.devs, h.0.devs, d) &&
      h.0.devs[d].lockStatus == 1 && h.0.devs[d].(lockStatus := s.devs[d].lockStatus) == s.devs[d]
  {
  }

  /** The report of the dynamic password sets dynamic, saved, and nothing else. */
  lemma DynamicConfirmed(s: Store, d: nat, op: int, code: int)
    requires Shaped(s.devs) && d < |s.devs|
    ensures var h := Handle(s, d, Ack(op, 999999, code));
      h.1 == NoNote && OthersKept(s.devs, h.0.devs, d) &&
      h.0.devs[d].dynamic == 1 && h.0.devs[d].(dynamic := s.devs[d].dynamic) == s.devs[d] &&
      (s.file.Some? && d < |s.file.value| ==>
        h.0.file.Some? && OthersKept(s.file.value, h.0.file.value, d) && h.0.file.value[d] == h.0.devs[d])
  {
  }

  /** A report that failed, has another operation than add and delete, or an identifier of
      no type, changes nothing and is not notified. */
  lemma IgnoredReports(s: Store, d: nat, a: Ack)
    requires Shaped(s.devs) && d < |s.devs| && a.passId != 0 && a.passId != 888888 && a.passId != 999999
    requires a.code != 0 || (a.op != 0 && a.op != 1) || a.passId < 1000000 || a.passId >= 6000000 || a.passId / 1000000 == 4
    ensures Handle(s, d, a) == (s, NoNote)
  {
  }
}
