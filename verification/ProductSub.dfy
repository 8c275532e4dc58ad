/** product_sub.c: loops over the static record array, with the database file beside it. */
module ProductSub {
  import opened Wrappers
  import opened KeyTable
  import opened DeviceTable
  import LP = LockProtocol

  class ProductSub {
    /** The static array subdevs. */
    const subdevs: array<SubDev>

    /** The database file: absent, or an image of the whole array. */
    var file: Option<Devices>

    constructor (devs: Devices, file: Option<Devices>)
      requires Shaped(devs) && (file.Some? ==> Shaped(file.value))
      ensures Valid() && fresh(subdevs) && View() == Store(devs, file)
    {
      subdevs := new SubDev[MAX_SUB_DEV](d requires 0 <= d < MAX_SUB_DEV => devs[d]);
      this.file := file;
    }

    ghost predicate Valid()
      reads this, subdevs
    {
      Shaped(subdevs[..]) && (file.Some? ==> Shaped(file.value))
    }

    ghost function View(): Store
      reads this, subdevs
    {
      Store(subdevs[..], file)
    }

    /** product_sub_malloc, before the use flag is set. */
    method Malloc() returns (d: int)
      requires Valid()
      ensures d == if FindUnused(subdevs[..]) < MAX_SUB_DEV then FindUnused(subdevs[..]) else -1
    {
      ghost var devs := subdevs[..];
      for i := 0 to subdevs.Length
        invariant forall j :: 0 <= j < i ==> devs[j].use != 0
      {
        if subdevs[i].use == 0 {
          return i;
        }
      }
      return -1;
    }

    /** product_sub_search_by_name. */
    method SearchByName(name: string) returns (d: int)
      requires Valid()
      ensures d == if FindName(subdevs[..], name) < MAX_SUB_DEV then FindName(subdevs[..], name) else -1
    {
      ghost var devs := subdevs[..];
      for j := 0 to subdevs.Length
        invariant forall i :: 0 <= i < j ==> !(devs[i].use != 0 && devs[i].deviceName == name)
      {
        if subdevs[j].use == 0 {
          continue;
        }
        if name != subdevs[j].deviceName {
          continue;
        }
        return j;
      }
      return -1;
    }

    /** product_sub_save of a whole record. */
    method Save(d: nat) returns (ret: int)
      requires Valid() && d < MAX_SUB_DEV
      modifies `file
      ensures Valid() && View() == SaveRecord(old(View()), d)
      ensures ret == if old(file).Some? then 0 else -2
    {
      match file {
        case None => ret := -2;
        case Some(f) =>
          file := Some(f[d := subdevs[d]]);
          ret := 0;
      }
    }

    /** product_sub_add. */
    method Add(name: string, key: string, secret: Option<string>) returns (ret: int)
      requires Valid()
      modifies this, subdevs
      ensures Valid() && View() == DoAddDev(old(View()), name, key, secret)
      ensures ret == if FindName(old(subdevs[..]), name) < MAX_SUB_DEV then 0
                     else if FindUnused(old(subdevs[..])) == MAX_SUB_DEV then -1
                     else if old(file).Some? then 0 else -2
    {
      var d := SearchByName(name);
      if d >= 0 {
        subdevs[d] := subdevs[d].(productKey := key, deviceSecret := SecretOf(secret));
        return 0;
      }
      d := Malloc();
      if d < 0 {
        return -1;
      }
      Fill(d, name, key, secret);
      ret := Save(d);
    }

    /** The stores of product_sub_add into a record just taken. */
    method Fill(d: nat, name: string, key: string, secret: Option<string>)
      requires Valid() && d < MAX_SUB_DEV
      modifies subdevs
      ensures Valid() && subdevs[..] == old(subdevs[..])[d := Fresh(old(subdevs[d]), name, key, secret)]
    {
      var sd := subdevs[d].(use := 1);
      sd := sd.(productKey := key);
      match secret {
        case Some(text) => sd := sd.(deviceSecret := text);
        case None => sd := sd.(deviceSecret := "");
      }
      sd := sd.(deviceName := name);
      sd := sd.(devid := 0);
      sd := sd.(login := 0);
      sd := sd.(battery := 0);
      sd := sd.(online := 0);
      sd := sd.(devType := "");
      sd := sd.(version := "");
      sd := sd.(model := "");
      sd := sd.(app := "");
      sd := sd.(lockStatus := 0, passNum := 0, passAll := 0, cardNum := 0, cardAll := 0, fingNum := 0, fingAll := 0);
      sd := sd.(keys := ZeroKeys());
      subdevs[d] := sd;
    }

    /** product_sub_del. */
    method Del(name: string) returns (ret: int)
      requires Valid()
      modifies this, subdevs
      ensures Valid() && View() == DoDelDev(old(View()), name) && ret == 0
    {
      var d := SearchByName(name);
      if d < 0 {
        return 0;
      }
      subdevs[d] := ZeroDev();
      var _ := Save(d);
      ret := 0;
    }

    /** product_sub_load_all and product_sub_clr_id_after_load. */
    method LoadAll()
      requires Valid()
      modifies this, subdevs
      ensures Valid() && View() == DoLoad(old(View()))
    {
      match file {
        case Some(f) =>
          forall d | 0 <= d < subdevs.Length {
            subdevs[d] := f[d];
          }
          assert subdevs[..] == f;
          for j := 0 to subdevs.Length
            invariant forall d :: 0 <= d < j ==> subdevs[d] == ClearIds(f)[d]
            invariant forall d :: j <= d < subdevs.Length ==> subdevs[d] == f[d]
            invariant file == Some(f)
          {
            if subdevs[j].use == 0 {
              continue;
            }
            subdevs[j] := subdevs[j].(login := 0);
            subdevs[j] := subdevs[j].(devid := 0);
          }
          assert subdevs[..] == ClearIds(f);
        case None =>
          forall d | 0 <= d < subdevs.Length {
            subdevs[d] := ZeroDev();
          }
          assert subdevs[..] == ZeroDevs();
          file := Some(subdevs[..]);
      }
    }

    /** product_sub_clr. */
    method Clr()
      requires Valid()
      modifies this, subdevs
      ensures Valid() && View() == Store(ZeroDevs(), Some(ZeroDevs()))
    {
      forall d | 0 <= d < subdevs.Length {
        subdevs[d] := ZeroDev();
      }
      assert subdevs[..] == ZeroDevs();
      file := Some(subdevs[..]);
    }

    /** product_sub_get_num. */
    method GetNum() returns (num: nat)
      requires Valid()
      ensures num == UsedCount(subdevs[..])
    {
      num := 0;
      for j := 0 to subdevs.Length
        invariant num == UsedCount(subdevs[..j])
      {
        assert subdevs[..j + 1][..j] == subdevs[..j];
        if subdevs[j].use == 0 {
          continue;
        }
        num := num + 1;
      }
      assert subdevs[..subdevs.Length] == subdevs[..];
    }

    /** product_sub_get_i, which looks at record i in every round of its loop. */
    method GetI(i: int) returns (d: int)
      requires Valid()
      ensures d == GetIResult(subdevs[..], i)
    {
      var num := GetNum();
      if !(0 <= i < num) {
        return -1;
      }
      var idx := 0;
      for j := 0 to subdevs.Length
        invariant subdevs[i].use != 0 ==> idx == j <= i
      {
        if subdevs[i].use == 0 {
          continue;
        }
        if idx != i {
          idx := idx + 1;
          continue;
        }
        return i;
      }
      return -1;
    }

    // ---- keys --------------------------------------------------------------

    /** product_sub_lock_get_key_num. */
    method GetKeyNum(d: nat, keyType: int) returns (num: nat)
      requires Valid() && d < MAX_SUB_DEV
      ensures num == CountIn(KeyRow(subdevs[d], keyType), KeyAdded)
    {
      var row := KeyRow(subdevs[d], keyType);
      num := 0;
      for i := 0 to SLOTS
        invariant num == CountIn(row[..i], KeyAdded)
      {
        assert row[..i + 1][..i] == row[..i];
        if !(row[i].state == KeyAdded) {
          continue;
        }
        num := num + 1;
      }
      assert row[..SLOTS] == row;
    }

    /** product_sub_lock_get_key_i: the slot, or -1 for NULL. */
    method GetKeyI(d: nat, i: int, keyType: int) returns (k: int)
      requires Valid() && d < MAX_SUB_DEV
      ensures k == var s := AddedSlots(KeyRow(subdevs[d], keyType)); if 0 <= i < |s| then s[i] else -1
    {
      var num := GetKeyNum(d, keyType);
      if !(0 <= i < num) {
        return -1;
      }
      var row := KeyRow(subdevs[d], keyType);
      assert row[..SLOTS] == row;
      var idx := 0;
      for j := 0 to SLOTS
        invariant idx == |AddedSlots(row[..j])| && idx <= i
      {
        assert row[..j + 1][..j] == row[..j];
        AddedSlotsPrefix(row, j + 1);
        if !(row[j].state == KeyAdded) {
          continue;
        }
        if idx != i {
          idx := idx + 1;
          continue;
        }
        return j;
      }
      return -1;
    }

    /** product_sub_lock_get_key_by_id: the last match wins; -1 for NULL. */
    method GetKeyById(d: nat, keyType: int, id: int) returns (k: int)
      requires Valid() && d < MAX_SUB_DEV
      ensures k == var row := KeyRow(subdevs[d], keyType); if LastWith(row, id) < SLOTS then LastWith(row, id) else -1
    {
      var row := KeyRow(subdevs[d], keyType);
      k := -1;
      for j := 0 to SLOTS
        invariant k == if LastWith(row[..j], id) < j then LastWith(row[..j], id) else -1
      {
        assert row[..j + 1][..j] == row[..j];
        if row[j].state == KeyNone {
          continue;
        }
        if row[j].id != id {
          continue;
        }
        k := j;
      }
      assert row[..SLOTS] == row;
    }

    /** product_sub_lock_add_key_wait_ack. */
    method AddKeyWaitAck(d: nat, r: LP.Request) returns (k: int)
      requires Valid() && d < MAX_SUB_DEV
      modifies subdevs
      ensures Valid() && View() == DoWaitAck(old(View()), d, r.lockType, LP.MakeKey(r))
      ensures k == var free := FirstFree(KeyRow(old(subdevs[d]), r.lockType)); if free < SLOTS then free else -1
    {
      var num := GetKeyNum(d, r.lockType);
      var adx := TypeIndex(r.lockType);
      var row := subdevs[d].keys[adx];
      if !(0 <= num < SLOTS) {
        FullHasNoFree(row);
        return -1;
      }
      k := -1;
      for j := 0 to SLOTS
        invariant k == -1 && forall i :: 0 <= i < j ==> row[i].state != KeyNone
      {
        if row[j].state != KeyNone {
          continue;
        }
        k := j;
        break;
      }
      if k == -1 {
        return;
      }
      var key := FillKey(row[k], r);
      subdevs[d] := WithSlot(subdevs[d], adx, k, key);
    }

    /** Its stores into the slot. */
    method FillKey(slot: LockKey, r: LP.Request) returns (key: LockKey)
      ensures key == LP.MakeKey(r)
    {
      key := slot.(state := KeyAdding);
      key := key.(last := r.now);
      key := key.(id := if LP.IdDefined(r) then 1000000 * r.lockType + LP.Atoi(r.keyStr) else r.wild);
      key := key.(keyType := r.lockType);
      key := key.(limit := r.userLimit);
      key := key.(len := |r.keyStr|);
      key := key.(buf := r.keyStr);
    }

    lemma FullHasNoFree(row: Row)
      requires |row| == SLOTS && CountIn(row, KeyAdded) == SLOTS
      ensures FirstFree(row) == SLOTS
    {
      CountsSum(row);
      CountZero(row, KeyNone);
    }

    /** product_sub_lock_add_key_complete. */
    method AddKeyComplete(d: nat, keyType: int, id: int) returns (ret: int)
      requires Valid() && d < MAX_SUB_DEV
      modifies this, subdevs
      ensures Valid() && View() == DoComplete(old(View()), d, keyType, id)
      ensures ret == -1 <==> FirstWith(KeyRow(old(subdevs[d]), keyType), KeyAdding, id) == SLOTS
    {
      var adx := TypeIndex(keyType);
      var row := subdevs[d].keys[adx];
      var k := -1;
      for j := 0 to SLOTS
        invariant k == -1 && forall i :: 0 <= i < j ==> !(row[i].state == KeyAdding && row[i].id == id)
      {
        if row[j].state != KeyAdding {
          continue;
        }
        if row[j].id != id {
          continue;
        }
        k := j;
        break;
      }
      if k == -1 {
        return -1;
      }
      subdevs[d] := WithSlot(subdevs[d], adx, k, row[k].(state := KeyAdded));
      ret := Save(d);
    }

    /** product_sub_lock_del_key. */
    method DelKey(d: nat, keyType: int, id: int) returns (ret: int)
      requires Valid() && d < MAX_SUB_DEV
      modifies this, subdevs
      ensures Valid() && View() == DoDelKey(old(View()), d, keyType, id)
      ensures ret == -1 <==> FirstWith(KeyRow(old(subdevs[d]), keyType), KeyAdded, id) == SLOTS
    {
      var adx := TypeIndex(keyType);
      var row := subdevs[d].keys[adx];
      var k := -1;
      for j := 0 to SLOTS
        invariant k == -1 && forall i :: 0 <= i < j ==> !(row[i].state == KeyAdded && row[i].id == id)
      {
        if !(row[j].state == KeyAdded) {
          continue;
        }
        if row[j].id != id {
          continue;
        }
        k := j;
        break;
      }
      if k == -1 {
        return -1;
      }
      subdevs[d] := WithSlot(subdevs[d], adx, k, ZERO_KEY);
      ret := Save(d);
    }

    /** Change record d and write it. */
    method Put(d: nat, sd: SubDev)
      requires Valid() && d < MAX_SUB_DEV && KeysShaped(sd.keys)
      modifies this, subdevs
      ensures Valid() && View() == Commit(old(View()), d, sd)
    {
      subdevs[d] := sd;
      var _ := Save(d);
    }

    /** product_sub_lock_clr_key: one save for every key it clears. */
    method ClrKey(d: nat, keyType: int)
      requires Valid() && d < MAX_SUB_DEV
      modifies this, subdevs
      ensures Valid() && View() == DoClrKeys(old(View()), d, keyType)
    {
      hide PartlyCleared, Commit, DoClrKeys, WithSlot;
      var adx := TypeIndex(keyType);
      ghost var s0 := View();
      ClearedNone(s0, d, adx);
      for j := 0 to SLOTS
        invariant Valid() && View() == PartlyCleared(s0, d, adx, j)
      {
        ClearOneMore(s0, d, adx, j);
        if subdevs[d].keys[adx][j].state == KeyNone {
          continue;
        }
        Put(d, WithSlot(subdevs[d], adx, j, ZERO_KEY));
      }
      ClearedAll(s0, d, keyType);
    }
  }
}
