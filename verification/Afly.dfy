/** The handlers of afly.c that work on the device table, step by step as the C code
    takes them, against the functions of LockProtocol and DeviceLife. */
module Afly {
  import opened Wrappers
  import opened KeyTable
  import opened DeviceTable
  import opened ProductSub
  import opened LockProtocol
  import opened DeviceLife

  /** product_valid_password_string. */
  method ValidPasswordString(s: string) returns (ok: bool)
    ensures ok == ValidPassword(s)
  {
    if !(6 <= |s| <= 15) {
      return false;
    }
    for i := 0 to |s|
      invariant forall j :: 0 <= j < i ==> IsDigit(s[j]) || s[j] == ','
    {
      if !(('0' <= s[i] <= '9') || s[i] == ',') {
        return false;
      }
    }
    return true;
  }

  /** subdev_add_key, after the JSON arguments are taken apart. */
  method SubdevAddKey(ps: ProductSub, d: nat, r: Request) returns (ret: int)
    requires ps.Valid() && d < MAX_SUB_DEV
    modifies ps.subdevs
    ensures ps.Valid() && ps.View() == AfterRequest(old(ps.View()), d, r)
    ensures ret == RequestCode(old(ps.View()), d, r)
  {
    hide DoWaitAck, FirstFree;
    if r.lockType != 2 {
      return -2;
    }
    if r.userLimit != 1 {
      return -3;
    }
    var ok := ValidPasswordString(r.keyStr);
    if !ok {
      return -4;
    }
    if !Scans(r.keyStr) {
      return -5;
    }
    var k := ps.AddKeyWaitAck(d, r);
    if k == -1 {
      return -6;
    }
    return 0;
  }

  /** The identifier branches of EVENT_NXP_ADD_DEL_PASS_RET; false is the early return. */
  method TypeOf(passId: int) returns (known: bool, keyType: int)
    ensures Classify(passId) == if known then Some(keyType) else None
  {
    keyType := 0;
    if passId >= 2000000 && passId < 3000000 {
      keyType := 2;
    } else if passId >= 3000000 && passId < 4000000 {
      keyType := 3;
    } else if passId >= 1000000 && passId < 2000000 {
      keyType := 1;
    } else if passId >= 5000000 && passId < 6000000 {
      keyType := 2;
    } else if passId != 0 && passId != 999999 && passId != 888888 {
      return false, 0;
    }
    known := true;
  }

  /** EVENT_NXP_ADD_DEL_PASS_RET of afly_nxp_rpt_event, up to the event composed. */
  method RptAddDelPass(ps: ProductSub, d: nat, a: Ack) returns (note: Note)
    requires ps.Valid() && d < MAX_SUB_DEV
    modifies ps, ps.subdevs
    ensures ps.Valid() && (ps.View(), note) == Handle(old(ps.View()), d, a)
  {
    hide DoClrKeys, DoComplete, DoDelKey, LastWith, FirstWith, Commit;
    var known, keyType := TypeOf(a.passId);
    if !known {
      return NoNote;
    }
    if a.passId == 0 {
      ps.ClrKey(d, keyType);
      return Cleared(2);
    }
    if a.passId == 999999 {
      ps.Put(d, ps.subdevs[d].(dynamic := 1));
      return NoNote;
    }
    if a.passId == 888888 {
      ps.subdevs[d] := ps.subdevs[d].(lockStatus := 1);
      return DoorOpened;
    }
    note := RptKey(ps, d, keyType, a);
  }

  /** The rest of that case: look the key up, compare states, complete or delete. */
  method RptKey(ps: ProductSub, d: nat, keyType: int, a: Ack) returns (note: Note)
    requires ps.Valid() && d < MAX_SUB_DEV
    modifies ps, ps.subdevs
    ensures ps.Valid() && (ps.View(), note) == KeyAck(old(ps.View()), d, keyType, a)
  {
    hide DoComplete, DoDelKey, FirstWith;
    var k := ps.GetKeyById(d, keyType, a.passId);
    if k == -1 {
      return NoNote;
    }
    var key := KeyRow(ps.subdevs[d], keyType)[k];
    if !((key.state == KeyAdding && a.op == 1) || (key.state == KeyAdded && a.op == 0)) {
      return NoNote;
    }
    note := NoNote;
    if a.code == 0 {
      if a.op == 1 {
        var _ := ps.AddKeyComplete(d, keyType, a.passId);
        note := KeyAddedNote(a.passId, keyType, key.limit, KeyText(key));
      } else if a.op == 0 {
        var _ := ps.DelKey(d, keyType, a.passId);
        note := KeyDeletedNote(a.passId, keyType);
      }
    }
  }

  /** The loop of subdev_get_key_list: every active key once, in slot order. */
  method KeyList(ps: ProductSub, d: nat, keyType: int) returns (keys: seq<LockKey>)
    requires ps.Valid() && d < MAX_SUB_DEV
    ensures |keys| == CountIn(KeyRow(ps.subdevs[d], keyType), KeyAdded)
    ensures forall i :: 0 <= i < |keys| ==>
      keys[i] == KeyRow(ps.subdevs[d], keyType)[AddedSlots(KeyRow(ps.subdevs[d], keyType))[i]]
  {
    var num := ps.GetKeyNum(d, keyType);
    ghost var row := KeyRow(ps.subdevs[d], keyType);
    keys := [];
    for i := 0 to num
      invariant |keys| == i && forall j :: 0 <= j < i ==> keys[j] == row[AddedSlots(row)[j]]
    {
      var k := ps.GetKeyI(d, i, keyType);
      if k != -1 {
        keys := keys + [KeyRow(ps.subdevs[d], keyType)[k]];
      }
    }
  }

  /** A list made by KeyList contains a key exactly when some slot holds it ADDED. */
  lemma ListedExactlyWhenAdded(row: Row, keys: seq<LockKey>, key: LockKey)
    requires |keys| == CountIn(row, KeyAdded)
    requires forall i :: 0 <= i < |keys| ==> keys[i] == row[AddedSlots(row)[i]]
    ensures key in keys <==> exists j :: 0 <= j < |row| && row[j] == key && key.state == KeyAdded
  {
    if j :| 0 <= j < |row| && row[j] == key && key.state == KeyAdded {
      AddedSlotsComplete(row, j);
      var i :| 0 <= i < |AddedSlots(row)| && AddedSlots(row)[i] == j;
      assert keys[i] == key;
    }
  }

  /** The login block of both report handlers. */
  method SessionBlock(ps: ProductSub, d: nat, online: int, sdk: Sdk) returns (calls: seq<Call>)
    requires ps.Valid() && d < MAX_SUB_DEV
    modifies ps.subdevs
    ensures ps.Valid()
    ensures ps.View() == SetRecord(old(ps.View()), d, DeviceLife.Session(old(ps.subdevs[d]), online, sdk).0)
    ensures calls == DeviceLife.Session(old(ps.subdevs[d]), online, sdk).1
  {
    calls := [];
    if online != 0 {
      if ps.subdevs[d].login == 0 {
        var ret := sdk.login;
        ps.subdevs[d] := ps.subdevs[d].(login := if ret == 0 then 1 else 0);
        if ret == 0 {
          calls := [LoginOk];
        }
      }
    } else {
      if ps.subdevs[d].login != 0 {
        var ret := sdk.logout;
        ps.subdevs[d] := ps.subdevs[d].(login := if ret == 0 then 0 else 1);
        if ret == 0 {
          calls := [LogoutOk];
        }
      }
    }
    assert ps.subdevs[..] == old(ps.subdevs[..])[d := ps.subdevs[d]];
  }

  /** afly_nxp_reg. spk is the product key found for the type or model. */
  method NxpReg(ps: ProductSub, r: Report, spk: Option<string>, sdk: Sdk, now: int) returns (calls: seq<Call>)
    requires ps.Valid()
    modifies ps, ps.subdevs
    ensures ps.Valid() && (ps.View(), calls) == Reg(old(ps.View()), r, spk, sdk, now)
  {
    hide DoAddDev, FindName, Commit, DeviceLife.Session, Seeded, Reported;
    var d := ps.SearchByName(r.name);
    if d == -1 {
      if spk.None? {
        return [];
      }
      var _ := ps.Add(r.name, spk.value, None);
      d := ps.SearchByName(r.name);
      if d == -1 {
        return [];
      }
    }
    calls := RegKnown(ps, d, r, sdk, now);
  }

  /** The rest of afly_nxp_reg. */
  method RegKnown(ps: ProductSub, d: nat, r: Report, sdk: Sdk, now: int) returns (calls: seq<Call>)
    requires ps.Valid() && d < MAX_SUB_DEV
    modifies ps, ps.subdevs
    ensures ps.Valid() && (ps.View(), calls) == RegRecord(old(ps.View()), d, r, sdk, now)
  {
    hide DeviceLife.Session;
    var id := ps.subdevs[d].devid;
    if id == 0 {
      if sdk.register < 0 {
        return [];
      }
      if sdk.create < 0 {
        return [];
      }
      id := sdk.create;
    }
    var sd := ps.subdevs[d].(devid := id);
    sd := sd.(battery := r.battery);
    sd := sd.(online := r.online);
    sd := sd.(devType := r.devType);
    sd := sd.(version := r.version);
    sd := sd.(model := r.model);
    sd := sd.(app := "NXP");
    sd := sd.(rssi := r.rssi);
    ps.Put(d, sd);
    ghost var saved := ps.View();
    if ps.subdevs[d].dynamic == 0 {
      ps.subdevs[d] := ps.subdevs[d].(seed := now, interval := 60 * 30);
    }
    ghost var seeded := ps.subdevs[d];
    calls := SessionBlock(ps, d, r.online, sdk);
    assert saved.devs[d := seeded][d := ps.subdevs[d]] == saved.devs[d := ps.subdevs[d]];
  }

  /** afly_nxp_upt_online. */
  method NxpUptOnline(ps: ProductSub, u: Status, sdk: Sdk) returns (calls: seq<Call>)
    requires ps.Valid()
    modifies ps, ps.subdevs
    ensures ps.Valid() && (ps.View(), calls) == Upt(old(ps.View()), u, sdk)
  {
    hide FindName, Commit, DeviceLife.Session, Updated;
    var d := ps.SearchByName(u.name);
    if d == -1 {
      return [];
    }
    if ps.subdevs[d].devid == 0 {
      return [];
    }
    var sd := StatusStores(ps.subdevs[d], u);
    assert sd.keys == ps.subdevs[d].keys by { UpdatedKeys(ps.subdevs[d], u); }
    ps.Put(d, sd);
    assert ps.subdevs[d] == sd by { CommitPuts(old(ps.View()), d, sd); }
    calls := SessionBlock(ps, d, u.online, sdk);
  }

  /** The stores of a status report; isLock is the comparison of the type with 1203. */
  method StatusStores(was: SubDev, u: Status) returns (sd: SubDev)
    ensures sd == Updated(was, u)
  {
    sd := was.(online := u.online);
    sd := sd.(battery := u.battery);
    if u.isLock {
      sd := sd.(passNum := u.passNum);
      sd := sd.(passAll := u.passAll);
      sd := sd.(cardNum := u.cardNum);
      sd := sd.(cardAll := u.cardAll);
      sd := sd.(fingNum := u.fingNum);
      sd := sd.(fingAll := u.fingAll);
    }
    sd := sd.(rssi := u.rssi);
  }

  lemma UpdatedKeys(sd: SubDev, u: Status)
    ensures Updated(sd, u).keys == sd.keys
  {
  }

  lemma CommitPuts(s: Store, d: nat, sd: SubDev)
    requires d < |s.devs|
    ensures Commit(s, d, sd).devs == s.devs[d := sd]
  {
  }

  /** afly_nxp_unreg with the SDK's two answers. */
  method NxpUnreg(ps: ProductSub, name: string, destroy: int, unregister: int)
    requires ps.Valid()
    modifies ps, ps.subdevs
    ensures ps.Valid() && ps.View() == Unreg(old(ps.View()), name, destroy, unregister)
  {
    var d := ps.SearchByName(name);
    if d == -1 || ps.subdevs[d].devid == 0 {
      return;
    }
    if destroy != 0 {
      return;
    }
    if unregister != 0 {
      return;
    }
    var _ := ps.Del(ps.subdevs[d].deviceName);
  }
}
