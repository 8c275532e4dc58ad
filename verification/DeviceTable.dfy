/** The device records of product_sub.c and what each table operation means. */
module DeviceTable {
  import opened Wrappers
  import opened KeyTable

  const MAX_SUB_DEV := 40

  /** stSubDev_t without its timer node. */
  datatype SubDev = SubDev(
    use: int, devid: int, login: int,
    productKey: string, deviceName: string, deviceSecret: string,
    battery: int, online: int, devType: string, version: string, model: string, app: string,
    rssi: int, dynamic: int, seed: int, interval: int,
    lockStatus: int, passNum: int, passAll: int, cardNum: int, cardAll: int, fingNum: int, fingAll: int,
    keys: seq<Row>)

  function ZeroRow(): (r: Row)
    ensures |r| == SLOTS && forall j :: 0 <= j < SLOTS ==> r[j] == ZERO_KEY
  {
    seq(SLOTS, _ => ZERO_KEY)
  }

  function ZeroKeys(): (r: seq<Row>)
    ensures KeysShaped(r) && forall t :: 0 <= t < TABLES ==> r[t] == ZeroRow()
  {
    [ZeroRow(), ZeroRow(), ZeroRow(), ZeroRow()]
  }

  /** A record after memset. */
  function ZeroDev(): (r: SubDev)
    ensures KeysShaped(r.keys) && r.use == 0
  {
    SubDev(0, 0, 0, "", "", "", 0, 0, "", "", "", "", 0, 0, 0, 0, 0, 0, 0, 0, 0, 0, 0, ZeroKeys())
  }

  predicate KeysShaped(keys: seq<Row>) {
    |keys| == TABLES && forall t :: 0 <= t < TABLES ==> |keys[t]| == SLOTS
  }

  type Devices = seq<SubDev>

  predicate Shaped(devs: Devices) {
    |devs| == MAX_SUB_DEV && forall d :: 0 <= d < |devs| ==> KeysShaped(devs[d].keys)
  }

  function WithSlot(sd: SubDev, t: nat, j: nat, k: LockKey): (r: SubDev)
    requires KeysShaped(sd.keys) && t < TABLES && j < SLOTS
    ensures KeysShaped(r.keys)
  {
    sd.(keys := sd.keys[t := sd.keys[t][j := k]])
  }

  function WithRow(sd: SubDev, t: nat, row: Row): (r: SubDev)
    requires KeysShaped(sd.keys) && t < TABLES && |row| == SLOTS
    ensures KeysShaped(r.keys)
  {
    sd.(keys := sd.keys[t := row])
  }

  function KeyRow(sd: SubDev, keyType: int): (r: Row)
    requires KeysShaped(sd.keys)
    ensures |r| == SLOTS
  {
    sd.keys[TypeIndex(keyType)]
  }

  /** First used record with a name, or the length. */
  function FindName(devs: Devices, name: string): (d: nat)
    ensures d <= |devs|
    ensures d < |devs| ==> devs[d].use != 0 && devs[d].deviceName == name
    ensures forall j :: 0 <= j < d ==> !(devs[j].use != 0 && devs[j].deviceName == name)
  {
    if devs == [] then 0
    else if devs[0].use != 0 && devs[0].deviceName == name then 0
    else 1 + FindName(devs[1..], name)
  }

  /** First unused record, or the length. */
  function FindUnused(devs: Devices): (d: nat)
    ensures d <= |devs|
    ensures d < |devs| ==> devs[d].use == 0
    ensures forall j :: 0 <= j < d ==> devs[j].use != 0
  {
    if devs == [] then 0 else if devs[0].use == 0 then 0 else 1 + FindUnused(devs[1..])
  }

  function UsedCount(devs: Devices): (n: nat)
    ensures n <= |devs|
  {
    if devs == [] then 0 else UsedCount(devs[..|devs| - 1]) + (if devs[|devs| - 1].use != 0 then 1 else 0)
  }

  /** Records in use, in physical order: what product_sub_get_i is there to enumerate. */
  function UsedRecords(devs: Devices): (s: seq<nat>)
    ensures |s| == UsedCount(devs)
    ensures forall i :: 0 <= i < |s| ==> s[i] < |devs| && devs[s[i]].use != 0 && i <= s[i]
    ensures forall i, j :: 0 <= i < j < |s| ==> s[i] < s[j]
  {
    if devs == [] then []
    else
      var s := UsedRecords(devs[..|devs| - 1]);
      if devs[|devs| - 1].use != 0 then s + [|devs| - 1] else s
  }

  /** What product_sub_get_i returns as a record number, -1 for NULL: its loop looks at
      record i itself where the i-th used record was meant. */
  function GetIResult(devs: Devices, i: int): int {
    if 0 <= i < UsedCount(devs) && devs[i].use != 0 then i else -1
  }

  lemma {:induction false} FullPrefix(devs: Devices, i: nat)
    requires i < |devs| && forall j :: 0 <= j <= i ==> devs[j].use != 0
    ensures i < UsedCount(devs) && UsedRecords(devs)[i] == i
  {
    var n := |devs| - 1;
    assert forall j :: 0 <= j < n ==> devs[..n][j] == devs[j];
    if i < n {
      FullPrefix(devs[..n], i);
    } else if n > 0 {
      FullPrefix(devs[..n], n - 1);
    }
  }

  lemma IndexBound(s: seq<nat>, k: nat, i: nat)
    requires forall i, j :: 0 <= i < j < |s| ==> s[i] < s[j]
    requires k <= i < |s|
    ensures s[k] + (i - k) <= s[i]
    decreases i - k
  {
    if k < i {
      IndexBound(s, k, i - 1);
    }
  }

  /** product_sub_get_i finds the i-th used record exactly when the records up to i are all in use. */
  lemma GetIRightExactlyWhen(devs: Devices, i: nat)
    requires i < UsedCount(devs)
    ensures GetIResult(devs, i) == UsedRecords(devs)[i] <==> forall j :: 0 <= j <= i ==> devs[j].use != 0
  {
    var s := UsedRecords(devs);
    if GetIResult(devs, i) == s[i] {
      forall j | 0 <= j <= i ensures devs[j].use != 0 {
        IndexBound(s, j, i);
        assert s[j] == j;
      }
    }
    if forall j :: 0 <= j <= i ==> devs[j].use != 0 {
      FullPrefix(devs, i);
    }
  }

  /** So the whole enumeration is right exactly when the used records come first. */
  lemma EnumerationRightExactlyWhen(devs: Devices)
    ensures (forall i :: 0 <= i < UsedCount(devs) ==> GetIResult(devs, i) == UsedRecords(devs)[i])
       <==> (forall j :: 0 <= j < UsedCount(devs) ==> devs[j].use != 0)
  {
    var n := UsedCount(devs);
    forall i | 0 <= i < n
      ensures GetIResult(devs, i) == UsedRecords(devs)[i] <==> forall j :: 0 <= j <= i ==> devs[j].use != 0
    {
      GetIRightExactlyWhen(devs, i);
    }
    if n > 0 && forall i :: 0 <= i < n ==> GetIResult(devs, i) == UsedRecords(devs)[i] {
      assert GetIResult(devs, n - 1) == UsedRecords(devs)[n - 1];
    }
  }

  function SecretOf(secret: Option<string>): string {
    match secret
    case None => ""
    case Some(s) => s
  }

  /** The stores of product_sub_add into a fresh record. What it leaves alone is what
      a record keeps from before: rssi, dynamic, seed and interval. */
  function Fresh(sd: SubDev, name: string, key: string, secret: Option<string>): SubDev {
    sd.(use := 1, productKey := key, deviceSecret := SecretOf(secret), deviceName := name,
        devid := 0, login := 0, battery := 0, online := 0,
        devType := "", version := "", model := "", app := "",
        lockStatus := 0, passNum := 0, passAll := 0, cardNum := 0, cardAll := 0, fingNum := 0, fingAll := 0,
        keys := ZeroKeys())
  }

  /** Memory and the database file. */
  datatype Store = Store(devs: Devices, file: Option<Devices>)

  /** One record written to the file at its place; nothing happens without a file to open. */
  function SaveRecord(s: Store, d: nat): Store
    requires d < |s.devs|
  {
    match s.file
    case None => s
    case Some(f) => if d < |f| then s.(file := Some(f[d := s.devs[d]])) else s
  }

  function SetRecord(s: Store, d: nat, sd: SubDev): Store
    requires d < |s.devs|
  {
    s.(devs := s.devs[d := sd])
  }

  /** Change record d and write it. */
  function Commit(s: Store, d: nat, sd: SubDev): Store
    requires d < |s.devs|
  {
    SaveRecord(SetRecord(s, d, sd), d)
  }

  function LoggedOff(sd: SubDev): SubDev { sd.(login := 0, devid := 0) }

  /** product_sub_clr_id_after_load. */
  function ClearIds(devs: Devices): (r: Devices)
    ensures |r| == |devs|
  {
    seq(|devs|, d requires 0 <= d < |devs| => if devs[d].use == 0 then devs[d] else LoggedOff(devs[d]))
  }

  function ZeroDevs(): (r: Devices)
    ensures Shaped(r)
  {
    seq(MAX_SUB_DEV, _ => ZeroDev())
  }

  // ---- the operations ----------------------------------------------------

  /** What can be done to the table. Record numbers are those the lookups return. */
  datatype TableOp =
    | AddDev(name: string, productKey: string, secret: Option<string>)
    | DelDev(name: string)
    | ClrDevs
    | WaitAck(d: nat, keyType: int, key: LockKey)   // the key is stored ADDING in the first free slot
    | Complete(d: nat, keyType: int, id: int)
    | DelKey(d: nat, keyType: int, id: int)
    | ClrKeys(d: nat, keyType: int)
    | Update(d: nat, sd: SubDev, saved: bool)       // any other change, keeping keys, name and use
    | Load

  /** Same keys, same name, same use flag. */
  ghost predicate SameIdentity(a: SubDev, b: SubDev) {
    a.keys == b.keys && a.use == b.use && a.deviceName == b.deviceName
  }

  ghost predicate OpOk(s: Store, op: TableOp) {
    match op
    case WaitAck(d, _, key) => d < |s.devs| && key.state == KeyAdding
    case Complete(d, _, _) => d < |s.devs|
    case DelKey(d, _, _) => d < |s.devs|
    case ClrKeys(d, _) => d < |s.devs|
    case Update(d, sd, _) => d < |s.devs| && SameIdentity(sd, s.devs[d])
    case _ => true
  }

  function DoAddDev(s: Store, name: string, key: string, secret: Option<string>): Store {
    var d := FindName(s.devs, name);
    if d < |s.devs| then SetRecord(s, d, s.devs[d].(productKey := key, deviceSecret := SecretOf(secret)))
    else
      var u := FindUnused(s.devs);
      if u < |s.devs| then Commit(s, u, Fresh(s.devs[u], name, key, secret)) else s
  }

  function DoDelDev(s: Store, name: string): Store {
    var d := FindName(s.devs, name);
    if d < |s.devs| then Commit(s, d, ZeroDev()) else s
  }

  function DoWaitAck(s: Store, d: nat, keyType: int, key: LockKey): (r: Store)
    requires Shaped(s.devs) && d < |s.devs|
    ensures Shaped(r.devs)
  {
    var row := KeyRow(s.devs[d], keyType);
    var k := FirstFree(row);
    if k < |row| && CountIn(row, KeyAdded) < SLOTS then
      SetRecord(s, d, WithSlot(s.devs[d], TypeIndex(keyType), k, key))
    else s
  }

  function DoComplete(s: Store, d: nat, keyType: int, id: int): (r: Store)
    requires Shaped(s.devs) && d < |s.devs|
    ensures Shaped(r.devs)
  {
    var row := KeyRow(s.devs[d], keyType);
    var k := FirstWith(row, KeyAdding, id);
    if k < |row| then Commit(s, d, WithSlot(s.devs[d], TypeIndex(keyType), k, row[k].(state := KeyAdded))) else s
  }

  function DoDelKey(s: Store, d: nat, keyType: int, id: int): (r: Store)
    requires Shaped(s.devs) && d < |s.devs|
    ensures Shaped(r.devs)
  {
    var row := KeyRow(s.devs[d], keyType);
    var k := FirstWith(row, KeyAdded, id);
    if k < |row| then Commit(s, d, WithSlot(s.devs[d], TypeIndex(keyType), k, ZERO_KEY)) else s
  }

  /** Every key not NONE is zeroed; a key that is NONE stays as it is. */
  function Emptied(row: Row): (r: Row)
    ensures |r| == |row|
  {
    seq(|row|, j requires 0 <= j < |row| => if row[j].state == KeyNone then row[j] else ZERO_KEY)
  }

  /** The row when the clearing loop has passed the first j slots. */
  function PartlyEmptied(row: Row, j: nat): (r: Row)
    requires j <= |row|
    ensures |r| == |row|
    ensures j == 0 ==> r == row
    ensures j == |row| ==> r == Emptied(row)
    ensures j < |row| ==> r[j] == row[j]
  {
    Emptied(row)[..j] + row[j..]
  }

  lemma EmptyOneMore(row: Row, j: nat)
    requires j < |row|
    ensures PartlyEmptied(row, j + 1) == if row[j].state == KeyNone then PartlyEmptied(row, j) else PartlyEmptied(row, j)[j := ZERO_KEY]
  {
  }

  function DoClrKeys(s: Store, d: nat, keyType: int): (r: Store)
    requires Shaped(s.devs) && d < |s.devs|
    ensures Shaped(r.devs)
  {
    var t := TypeIndex(keyType);
    var row := s.devs[d].keys[t];
    if CountIn(row, KeyNone) == |row| then s
    else Commit(s, d, WithRow(s.devs[d], t, Emptied(row)))
  }

  ghost predicate SomeUsed(row: Row, n: nat)
    requires n <= |row|
  {
    exists i :: 0 <= i < n && row[i].state != KeyNone
  }

  /** The store when the clearing loop has passed the first j slots of table t. */
  ghost function PartlyCleared(s: Store, d: nat, t: nat, j: nat): Store
    requires Shaped(s.devs) && d < |s.devs| && t < TABLES && j <= SLOTS
  {
    var row := s.devs[d].keys[t];
    if SomeUsed(row, j) then Commit(s, d, WithRow(s.devs[d], t, PartlyEmptied(row, j))) else s
  }

  lemma CommitTwice(s: Store, d: nat, x: SubDev, y: SubDev)
    requires d < |s.devs|
    ensures Commit(Commit(s, d, x), d, y) == Commit(s, d, y)
  {
    assert s.devs[d := x][d := y] == s.devs[d := y];
    if s.file.Some? && d < |s.file.value| {
      assert s.file.value[d := x][d := y] == s.file.value[d := y];
    }
  }

  lemma SlotOfRow(sd: SubDev, t: nat, row: Row, j: nat, k: LockKey)
    requires KeysShaped(sd.keys) && t < TABLES && |row| == SLOTS && j < SLOTS
    ensures WithSlot(WithRow(sd, t, row), t, j, k) == WithRow(sd, t, row[j := k])
    ensures WithSlot(sd, t, j, k) == WithRow(sd, t, sd.keys[t][j := k])
  {
    assert sd.keys[t := row][t := row[j := k]] == sd.keys[t := row[j := k]];
  }

  /** One round of the loop: a slot in use is zeroed and the record written. */
  lemma ClearOneMore(s: Store, d: nat, t: nat, j: nat)
    requires Shaped(s.devs) && d < |s.devs| && t < TABLES && j < SLOTS
    requires s.file.Some? ==> |s.file.value| == |s.devs|
    ensures Shaped(PartlyCleared(s, d, t, j).devs)
    ensures PartlyCleared(s, d, t, j).devs[d].keys[t][j] == s.devs[d].keys[t][j]
    ensures PartlyCleared(s, d, t, j + 1)
         == if s.devs[d].keys[t][j].state == KeyNone then PartlyCleared(s, d, t, j)
            else Commit(PartlyCleared(s, d, t, j), d, WithSlot(PartlyCleared(s, d, t, j).devs[d], t, j, ZERO_KEY))
  {
    hide PartlyEmptied, WithSlot;
    var row := s.devs[d].keys[t];
    EmptyOneMore(row, j);
    if !SomeUsed(row, j) {
      NothingToEmpty(row, j);
    }
    var x := WithRow(s.devs[d], t, PartlyEmptied(row, j));
    SlotOfRow(s.devs[d], t, PartlyEmptied(row, j), j, ZERO_KEY);
    CommitTwice(s, d, x, WithSlot(x, t, j, ZERO_KEY));
    assert row[j].state != KeyNone ==> SomeUsed(row, j + 1);
  }

  lemma NothingToEmpty(row: Row, j: nat)
    requires j <= |row| && !SomeUsed(row, j)
    ensures PartlyEmptied(row, j) == row
  {
  }

  lemma ClearedNone(s: Store, d: nat, t: nat)
    requires Shaped(s.devs) && d < |s.devs| && t < TABLES
    ensures PartlyCleared(s, d, t, 0) == s
  {
  }

  lemma ClearedAll(s: Store, d: nat, keyType: int)
    requires Shaped(s.devs) && d < |s.devs|
    ensures PartlyCleared(s, d, TypeIndex(keyType), SLOTS) == DoClrKeys(s, d, keyType)
  {
    var row := KeyRow(s.devs[d], keyType);
    CountZero(row, KeyAdding);
    CountZero(row, KeyAdded);
    CountsSum(row);
  }

  function DoLoad(s: Store): Store {
    match s.file
    case None => Store(ZeroDevs(), Some(ZeroDevs()))
    case Some(f) => s.(devs := ClearIds(f))
  }

  function Do(s: Store, op: TableOp): Store
    requires Shaped(s.devs) && OpOk(s, op)
  {
    match op
    case AddDev(name, key, secret) => DoAddDev(s, name, key, secret)
    case DelDev(name) => DoDelDev(s, name)
    case ClrDevs => Store(ZeroDevs(), Some(ZeroDevs()))
    case WaitAck(d, keyType, key) => DoWaitAck(s, d, keyType, key)
    case Complete(d, keyType, id) => DoComplete(s, d, keyType, id)
    case DelKey(d, keyType, id) => DoDelKey(s, d, keyType, id)
    case ClrKeys(d, keyType) => DoClrKeys(s, d, keyType)
    case Update(d, sd, saved) => if saved then Commit(s, d, sd) else SetRecord(s, d, sd)
    case Load => DoLoad(s)
  }

  // ---- the stored image --------------------------------------------------

  /** The ADDED keys of two records are the same keys in the same slots. */
  ghost predicate SameAdded(a: SubDev, b: SubDev)
    requires KeysShaped(a.keys) && KeysShaped(b.keys)
  {
    forall t, j :: 0 <= t < TABLES && 0 <= j < SLOTS ==>
      (a.keys[t][j].state == KeyAdded || b.keys[t][j].state == KeyAdded ==> a.keys[t][j] == b.keys[t][j])
  }

  /** Stored record and record in memory stand for the same device with the same active keys. */
  ghost predicate Mirrors(a: SubDev, b: SubDev)
    requires KeysShaped(a.keys) && KeysShaped(b.keys)
  {
    a.use == b.use && a.deviceName == b.deviceName && SameAdded(a, b)
  }

  /** The file holds the image of the table. */
  ghost predicate Synced(s: Store) {
    Shaped(s.devs) && s.file.Some? && Shaped(s.file.value) &&
    forall d :: 0 <= d < MAX_SUB_DEV ==> Mirrors(s.file.value[d], s.devs[d])
  }

  lemma CommitKeepsSynced(s: Store, d: nat, sd: SubDev)
    requires Synced(s) && d < MAX_SUB_DEV && KeysShaped(sd.keys)
    ensures Synced(Commit(s, d, sd))
  {
  }

  /** A change that is not written is harmless if no ADDED key is involved. */
  lemma SetKeepsSynced(s: Store, d: nat, sd: SubDev)
    requires Synced(s) && d < MAX_SUB_DEV && KeysShaped(sd.keys) && Mirrors(s.devs[d], sd)
    ensures Synced(SetRecord(s, d, sd))
  {
    var f := s.file.value;
    forall t, j | 0 <= t < TABLES && 0 <= j < SLOTS && (f[d].keys[t][j].state == KeyAdded || sd.keys[t][j].state == KeyAdded)
      ensures f[d].keys[t][j] == sd.keys[t][j]
    {
      assert Mirrors(f[d], s.devs[d]);
    }
  }

  lemma WaitAckKeepsSynced(s: Store, d: nat, keyType: int, key: LockKey)
    requires Synced(s) && d < MAX_SUB_DEV && key.state == KeyAdding
    ensures Synced(DoWaitAck(s, d, keyType, key))
  {
    var row, t := KeyRow(s.devs[d], keyType), TypeIndex(keyType);
    var k := FirstFree(row);
    if k < |row| && CountIn(row, KeyAdded) < SLOTS {
      var sd := WithSlot(s.devs[d], t, k, key);
      assert forall u, j :: 0 <= u < TABLES && 0 <= j < SLOTS && !(u == t && j == k) ==> sd.keys[u][j] == s.devs[d].keys[u][j];
      SetKeepsSynced(s, d, sd);
    }
  }

  lemma LoadKeepsSynced(s: Store)
    requires Synced(s)
    ensures Synced(DoLoad(s))
  {
  }

  lemma DoKeepsSynced(s: Store, op: TableOp)
    requires Synced(s) && OpOk(s, op)
    ensures Synced(Do(s, op))
  {
    match op
    case AddDev(name, key, secret) =>
      var d, u := FindName(s.devs, name), FindUnused(s.devs);
      if d < |s.devs| {
        SetKeepsSynced(s, d, s.devs[d].(productKey := key, deviceSecret := SecretOf(secret)));
      } else if u < |s.devs| {
        CommitKeepsSynced(s, u, Fresh(s.devs[u], name, key, secret));
      }
    case DelDev(name) =>
      if FindName(s.devs, name) < |s.devs| {
        CommitKeepsSynced(s, FindName(s.devs, name), ZeroDev());
      }
    case ClrDevs =>
    case WaitAck(d, keyType, key) => WaitAckKeepsSynced(s, d, keyType, key);
    case Complete(d, keyType, id) =>
      var row := KeyRow(s.devs[d], keyType);
      var k := FirstWith(row, KeyAdding, id);
      if k < |row| {
        CommitKeepsSynced(s, d, WithSlot(s.devs[d], TypeIndex(keyType), k, row[k].(state := KeyAdded)));
      }
    case DelKey(d, keyType, id) =>
      var row := KeyRow(s.devs[d], keyType);
      var k := FirstWith(row, KeyAdded, id);
      if k < |row| {
        CommitKeepsSynced(s, d, WithSlot(s.devs[d], TypeIndex(keyType), k, ZERO_KEY));
      }
    case ClrKeys(d, keyType) =>
      var t := TypeIndex(keyType);
      if CountIn(s.devs[d].keys[t], KeyNone) != SLOTS {
        CommitKeepsSynced(s, d, WithRow(s.devs[d], t, Emptied(s.devs[d].keys[t])));
      }
    case Update(d, sd, saved) =>
      if saved {
        CommitKeepsSynced(s, d, sd);
      } else {
        SetKeepsSynced(s, d, sd);
      }
    case Load => LoadKeepsSynced(s);
  }

  // ---- runs --------------------------------------------------------------

  ghost predicate Possible(s: Store, ops: seq<TableOp>)
    decreases |ops|
  {
    Shaped(s.devs) && (ops == [] || (OpOk(s, ops[0]) && Possible(Do(s, ops[0]), ops[1..])))
  }

  ghost function After(s: Store, ops: seq<TableOp>): Store
    requires Possible(s, ops)
    decreases |ops|
  {
    if ops == [] then s else After(Do(s, ops[0]), ops[1..])
  }

  lemma {:induction false} RunKeepsSynced(s: Store, ops: seq<TableOp>)
    requires Synced(s) && Possible(s, ops)
    ensures Synced(After(s, ops))
    decreases |ops|
  {
    if ops != [] {
      DoKeepsSynced(s, ops[0]);
      RunKeepsSynced(Do(s, ops[0]), ops[1..]);
    }
  }

  /** Loading, with or without a database, leaves image and table in step. */
  lemma LoadSyncs(s: Store)
    requires s.file.Some? ==> Shaped(s.file.value)
    ensures Synced(DoLoad(s))
  {
  }

  /** After any run that begins with a load, loading again gives the same devices and
      exactly the same ADDED keys, with login and devid zero in used records. */
  lemma ReloadRestoresActiveKeys(s: Store, ops: seq<TableOp>, d: nat)
    requires Shaped(s.devs) && (s.file.Some? ==> Shaped(s.file.value))
    requires Possible(s, [Load] + ops) && d < MAX_SUB_DEV
    ensures Shaped(After(s, [Load] + ops).devs) && Shaped(DoLoad(After(s, [Load] + ops)).devs)
    ensures Mirrors(DoLoad(After(s, [Load] + ops)).devs[d], After(s, [Load] + ops).devs[d])
    ensures DoLoad(After(s, [Load] + ops)).devs[d].use != 0 ==>
      DoLoad(After(s, [Load] + ops)).devs[d].login == 0 && DoLoad(After(s, [Load] + ops)).devs[d].devid == 0
  {
    assert ([Load] + ops)[1..] == ops;
    LoadSyncs(s);
    RunKeepsSynced(Do(s, Load), ops);
  }

  // ---- a gap in the table ------------------------------------------------

  /** With one record in use, or none, the enumeration is that record. */
  lemma {:induction false} OnlyUsed(devs: Devices, j: nat)
    requires forall i :: 0 <= i < |devs| ==> (devs[i].use != 0 <==> i == j)
    ensures UsedRecords(devs) == if j < |devs| then [j] else []
  {
    if devs != [] {
      OnlyUsed(devs[..|devs| - 1], j);
    }
  }

  /** Two devices added to an empty table and the first deleted. */
  function Gap(a: string, b: string, key: string): Store {
    DoDelDev(DoAddDev(DoAddDev(Store(ZeroDevs(), Some(ZeroDevs())), a, key, None), b, key, None), a)
  }

  /** A new name goes to the first unused record. */
  lemma AddedAt(s: Store, u: nat, name: string, key: string, secret: Option<string>)
    requires u < |s.devs| && s.devs[u].use == 0
    requires forall j :: 0 <= j < |s.devs| && s.devs[j].use != 0 ==> j < u && s.devs[j].deviceName != name
    requires forall j :: 0 <= j < u ==> s.devs[j].use != 0
    ensures DoAddDev(s, name, key, secret).devs == s.devs[u := Fresh(s.devs[u], name, key, secret)]
  {
    hide FindName, FindUnused;
    assert FindName(s.devs, name) == |s.devs|;
    assert FindUnused(s.devs) == u;
  }

  /** One device is left, and product_sub_get_i(0) does not find it. */
  lemma GapHidesDevice(a: string, b: string, key: string)
    requires a != b
    ensures UsedRecords(Gap(a, b, key).devs) == [1] && Gap(a, b, key).devs[1].deviceName == b
    ensures GetIResult(Gap(a, b, key).devs, 0) == -1
  {
    hide FindName, FindUnused, UsedRecords, UsedCount, DoAddDev;
    var s0 := Store(ZeroDevs(), Some(ZeroDevs()));
    AddedAt(s0, 0, a, key, None);
    var s1 := DoAddDev(s0, a, key, None);
    AddedAt(s1, 1, b, key, None);
    var s2 := DoAddDev(s1, b, key, None);
    assert s2.devs[0].use != 0 && s2.devs[0].deviceName == a;
    assert FindName(s2.devs, a) == 0;
    var devs := Gap(a, b, key).devs;
    assert devs == s2.devs[0 := ZeroDev()];
    OnlyUsed(devs, 1);
  }

  // ---- the operations field by field -------------------------------------

  /** Nothing but record d differs. */
  ghost predicate OthersKept(devs: Devices, devs': Devices, d: nat) {
    |devs'| == |devs| && forall j :: 0 <= j < |devs| && j != d ==> devs'[j] == devs[j]
  }

  /** A new name with a record free: it is found afterwards, in the first record that was
      free, with this key and secret and everything else that the code sets cleared. */
  lemma AddNewDevice(s: Store, name: string, key: string, secret: Option<string>)
    requires Shaped(s.devs) && FindName(s.devs, name) == |s.devs| && FindUnused(s.devs) < |s.devs|
    ensures var devs := DoAddDev(s, name, key, secret).devs; var d := FindName(devs, name);
      |devs| == |s.devs| && d == FindUnused(s.devs) && OthersKept(s.devs, devs, d) &&
      devs[d].use == 1 && devs[d].deviceName == name && devs[d].productKey == key &&
      devs[d].deviceSecret == (if secret.Some? then secret.value else "") &&
      devs[d].devid == 0 && devs[d].login == 0 && devs[d].battery == 0 && devs[d].online == 0 &&
      devs[d].devType == "" && devs[d].version == "" && devs[d].model == "" && devs[d].app == "" &&
      devs[d].lockStatus == 0 && devs[d].passNum == 0 && devs[d].passAll == 0 && devs[d].cardNum == 0 &&
      devs[d].cardAll == 0 && devs[d].fingNum == 0 && devs[d].fingAll == 0 &&
      devs[d].rssi == s.devs[d].rssi && devs[d].dynamic == s.devs[d].dynamic &&
      devs[d].seed == s.devs[d].seed && devs[d].interval == s.devs[d].interval &&
      |devs[d].keys| == 4 && forall t, j :: 0 <= t < 4 && 0 <= j < |devs[d].keys[t]| ==> devs[d].keys[t][j].state == KeyNone
  {
    hide FindUnused, ZeroKeys, ZeroRow;
    var u := FindUnused(s.devs);
    var sd := Fresh(s.devs[u], name, key, secret);
    assert DoAddDev(s, name, key, secret).devs == s.devs[u := sd];
    FoundOnlyAt(s.devs[u := sd], name, u);
  }

  lemma FoundOnlyAt(devs: Devices, name: string, d: nat)
    requires d < |devs| && devs[d].use != 0 && devs[d].deviceName == name
    requires forall j :: 0 <= j < |devs| && j != d ==> !(devs[j].use != 0 && devs[j].deviceName == name)
    ensures FindName(devs, name) == d
  {
    hide FindName;
  }

  /** A new name is stored in the file as it is in memory. */
  lemma AddNewDeviceSaved(s: Store, name: string, key: string, secret: Option<string>)
    requires FindName(s.devs, name) == |s.devs| && FindUnused(s.devs) < |s.devs|
    requires s.file.Some? && |s.file.value| == |s.devs|
    ensures var s' := DoAddDev(s, name, key, secret); var d := FindUnused(s.devs);
      |s'.devs| == |s.devs| && s'.file.Some? && OthersKept(s.file.value, s'.file.value, d) && s'.file.value[d] == s'.devs[d]
  {
  }

  /** A known name gets the new key and secret, unsaved, and nothing else changes. */
  lemma AddKnownDevice(s: Store, name: string, key: string, secret: Option<string>)
    requires FindName(s.devs, name) < |s.devs|
    ensures var s' := DoAddDev(s, name, key, secret); var d := FindName(s.devs, name);
      s'.file == s.file && OthersKept(s.devs, s'.devs, d) &&
      s'.devs[d].productKey == key && s'.devs[d].deviceSecret == (if secret.Some? then secret.value else "") &&
      s'.devs[d].(productKey := s.devs[d].productKey, deviceSecret := s.devs[d].deviceSecret) == s.devs[d]
  {
  }

  /** With no record free a new name changes nothing. */
  lemma AddToFullTable(s: Store, name: string, key: string, secret: Option<string>)
    requires FindName(s.devs, name) == |s.devs| && forall j :: 0 <= j < |s.devs| ==> s.devs[j].use != 0
    ensures DoAddDev(s, name, key, secret) == s
  {
    hide FindUnused;
  }

  /** A deleted name is gone, its record all zero in memory and file, and the others stay. */
  lemma DelDevice(s: Store, name: string)
    requires FindName(s.devs, name) < |s.devs|
    ensures var s' := DoDelDev(s, name); var d := FindName(s.devs, name);
      OthersKept(s.devs, s'.devs, d) && s'.devs[d] == SubDev(0, 0, 0, "", "", "", 0, 0, "", "", "", "", 0, 0, 0, 0,
        0, 0, 0, 0, 0, 0, 0, [ZeroRow(), ZeroRow(), ZeroRow(), ZeroRow()]) &&
      (s.file.Some? && |s.file.value| == |s.devs| ==>
        s'.file.Some? && OthersKept(s.file.value, s'.file.value, d) && s'.file.value[d] == s'.devs[d])
  {
  }

  /** A load takes every record of the file as it is, but for login and devid, which are
      zero in used records; without a file everything is unused and written so. */
  lemma LoadedRecords(s: Store, d: nat)
    requires s.file.Some? ==> d < |s.file.value|
    requires s.file.None? ==> d < 40
    ensures d < |DoLoad(s).devs|
    ensures s.file.Some? ==> DoLoad(s).file == s.file && |DoLoad(s).devs| == |s.file.value|
    ensures s.file.Some? ==>
      DoLoad(s).devs[d] == if s.file.value[d].use != 0 then s.file.value[d].(login := 0, devid := 0) else s.file.value[d]
    ensures s.file.None? ==> |DoLoad(s).devs| == 40 && DoLoad(s).devs[d].use == 0 && DoLoad(s).file == Some(DoLoad(s).devs)
  {
  }

  /** Clearing the keys of a type leaves none in its table, in memory or in the file, and
      every other table and field as it was. */
  lemma ClearedTable(s: Store, d: nat, keyType: int)
    requires Shaped(s.devs) && d < |s.devs|
    ensures var s' := DoClrKeys(s, d, keyType); var t := TypeIndex(keyType);
      OthersKept(s.devs, s'.devs, d) && s'.devs[d].(keys := s.devs[d].keys) == s.devs[d] &&
      (forall j :: 0 <= j < 128 ==> s'.devs[d].keys[t][j].state == KeyNone) &&
      (forall u :: 0 <= u < 4 && u != t ==> s'.devs[d].keys[u] == s.devs[d].keys[u])
  {
    var row := s.devs[d].keys[TypeIndex(keyType)];
    CountZero(row, KeyAdding);
    CountZero(row, KeyAdded);
    CountsSum(row);
    hide CountIn;
  }

  /** Beyond the number of used records product_sub_get_i returns NULL, and it never returns
      an unused record. */
  lemma GetINeverUnused(devs: Devices, i: int)
    ensures i < 0 || i >= UsedCount(devs) ==> GetIResult(devs, i) == -1
    ensures GetIResult(devs, i) != -1 ==> 0 <= GetIResult(devs, i) < |devs| && devs[GetIResult(devs, i)].use != 0
  {
  }
}
