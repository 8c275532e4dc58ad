/** One key table of a lock: 128 slots that go NONE, ADDING, ADDED, NONE. */
module KeyTable {
  datatype KeyState = KeyNone | KeyAdding | KeyAdded

  /** stLockKey_t. buf is the text up to its terminator. */
  datatype LockKey = LockKey(last: int, state: KeyState, id: int, keyType: int, limit: int, len: int, buf: string)

  const ZERO_KEY := LockKey(0, KeyNone, 0, 0, 0, 0, "")
  const TABLES := 4
  const SLOTS := 128

  type Row = seq<LockKey>

  /** product_sub_convet_type2idx. */
  function TypeIndex(keyType: int): (i: nat)
    ensures i < TABLES
  {
    match keyType
    case 1 => 0
    case 2 => 1
    case 3 => 2
    case 5 => 3
    case _ => 0
  }

  function CountIn(row: Row, st: KeyState): (n: nat)
    ensures n <= |row|
  {
    if row == [] then 0
    else CountIn(row[..|row| - 1], st) + (if row[|row| - 1].state == st then 1 else 0)
  }

  /** Slot of the first key in a state with an id, or the length of the row. */
  function FirstWith(row: Row, st: KeyState, id: int): (k: nat)
    ensures k <= |row|
    ensures k < |row| ==> row[k].state == st && row[k].id == id
    ensures forall j :: 0 <= j < k ==> !(row[j].state == st && row[j].id == id)
  {
    if row == [] then 0
    else if row[0].state == st && row[0].id == id then 0
    else 1 + FirstWith(row[1..], st, id)
  }

  /** First free slot, or the length of the row. */
  function FirstFree(row: Row): (k: nat)
    ensures k <= |row|
    ensures k < |row| ==> row[k].state == KeyNone
    ensures forall j :: 0 <= j < k ==> row[j].state != KeyNone
  {
    if row == [] then 0 else if row[0].state == KeyNone then 0 else 1 + FirstFree(row[1..])
  }

  /** Slot of the last key in use with an id, or the length of the row. */
  function LastWith(row: Row, id: int): (k: nat)
    ensures k <= |row|
    ensures k < |row| ==> row[k].state != KeyNone && row[k].id == id
    ensures forall j :: (if k < |row| then k else -1) < j < |row| ==> !(row[j].state != KeyNone && row[j].id == id)
  {
    if row == [] then 0
    else
      var n := |row| - 1;
      if row[n].state != KeyNone && row[n].id == id then n
      else
        var k := LastWith(row[..n], id);
        assert forall j :: 0 <= j < n ==> row[..n][j] == row[j];
        if k < n then k else n + 1
  }

  lemma FirstWithIs(row: Row, st: KeyState, id: int, k: nat)
    requires k <= |row| && (k < |row| ==> row[k].state == st && row[k].id == id)
    requires forall j :: 0 <= j < k ==> !(row[j].state == st && row[j].id == id)
    ensures FirstWith(row, st, id) == k
  {
  }

  lemma FirstFreeIs(row: Row, k: nat)
    requires k < |row| && row[k].state == KeyNone && forall j :: 0 <= j < k ==> row[j].state != KeyNone
    ensures FirstFree(row) == k
  {
  }

  lemma LastWithIs(row: Row, id: int, k: nat)
    requires k < |row| && row[k].state != KeyNone && row[k].id == id
    requires forall j :: k < j < |row| ==> !(row[j].state != KeyNone && row[j].id == id)
    ensures LastWith(row, id) == k
  {
  }

  /** The last match once a free slot is filled with a key of the same id. */
  lemma LastWithFilled(row: Row, k: nat, key: LockKey)
    requires k < |row| && row[k].state == KeyNone && key.state != KeyNone
    ensures LastWith(row[k := key], key.id) == if k < LastWith(row, key.id) < |row| then LastWith(row, key.id) else k
  {
    var l := LastWith(row, key.id);
    LastWithIs(row[k := key], key.id, if k < l < |row| then l else k);
  }

  // ---- counting ----------------------------------------------------------

  lemma {:induction false} CountSplit(a: Row, b: Row, st: KeyState)
    ensures CountIn(a + b, st) == CountIn(a, st) + CountIn(b, st)
  {
    if b == [] {
      assert a + b == a;
    } else {
      assert (a + b)[..|a + b| - 1] == a + b[..|b| - 1];
      CountSplit(a, b[..|b| - 1], st);
    }
  }

  lemma CountOne(k: LockKey, st: KeyState)
    ensures CountIn([k], st) == if k.state == st then 1 else 0
  {
    assert [k][..0] == [];
  }

  /** Overwriting one slot changes the count by what it held and what it now holds. */
  lemma CountUpdate(row: Row, i: nat, k: LockKey, st: KeyState)
    requires i < |row|
    ensures CountIn(row[i := k], st)
         == CountIn(row, st) - (if row[i].state == st then 1 else 0) + (if k.state == st then 1 else 0)
  {
    assert row == row[..i] + ([row[i]] + row[i + 1..]);
    assert row[i := k] == row[..i] + ([k] + row[i + 1..]);
    CountSplit(row[..i], [row[i]] + row[i + 1..], st);
    CountSplit([row[i]], row[i + 1..], st);
    CountSplit(row[..i], [k] + row[i + 1..], st);
    CountSplit([k], row[i + 1..], st);
    CountOne(row[i], st);
    CountOne(k, st);
  }

  /** Every slot is in exactly one state. */
  lemma {:induction false} CountsSum(row: Row)
    ensures CountIn(row, KeyNone) + CountIn(row, KeyAdding) + CountIn(row, KeyAdded) == |row|
  {
    if row != [] {
      CountsSum(row[..|row| - 1]);
    }
  }

  lemma {:induction false} CountZero(row: Row, st: KeyState)
    ensures CountIn(row, st) == 0 <==> forall j :: 0 <= j < |row| ==> row[j].state != st
  {
    if row != [] {
      CountZero(row[..|row| - 1], st);
      assert forall j :: 0 <= j < |row| - 1 ==> row[..|row| - 1][j] == row[j];
    }
  }

  // ---- enumeration -------------------------------------------------------

  /** Slots of the ADDED keys, in physical order. */
  function AddedSlots(row: Row): (s: seq<nat>)
    ensures |s| == CountIn(row, KeyAdded)
    ensures forall i :: 0 <= i < |s| ==> s[i] < |row| && row[s[i]].state == KeyAdded
    ensures forall i, j :: 0 <= i < j < |s| ==> s[i] < s[j]
  {
    if row == [] then []
    else
      var s := AddedSlots(row[..|row| - 1]);
      if row[|row| - 1].state == KeyAdded then s + [|row| - 1] else s
  }

  /** The enumeration misses nothing. */
  lemma {:induction false} AddedSlotsComplete(row: Row, j: nat)
    requires j < |row| && row[j].state == KeyAdded
    ensures j in AddedSlots(row)
  {
    if j < |row| - 1 {
      AddedSlotsComplete(row[..|row| - 1], j);
    }
  }

  /** Prefixes of a row enumerate prefixes. */
  lemma {:induction false} AddedSlotsPrefix(row: Row, n: nat)
    requires n <= |row|
    ensures AddedSlots(row[..n]) <= AddedSlots(row)
    decreases |row|
  {
    if n < |row| {
      AddedSlotsPrefix(row[..|row| - 1], n);
      assert row[..|row| - 1][..n] == row[..n];
    } else {
      assert row[..n] == row;
    }
  }

  /** Fingerprints, passwords, cards and hardware keys have a table each, and any other
      type shares the first. */
  lemma TableOfType(keyType: int)
    ensures TypeIndex(1) == 0 && TypeIndex(2) == 1 && TypeIndex(3) == 2 && TypeIndex(5) == 3
    ensures keyType != 1 && keyType != 2 && keyType != 3 && keyType != 5 ==> TypeIndex(keyType) == 0
  {
  }
}
