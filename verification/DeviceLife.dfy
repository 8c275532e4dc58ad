/** Registration, status and removal of sub-devices against the cloud SDK, whose
    answers are inputs. */
module DeviceLife {
  import opened Wrappers
  import opened KeyTable
  import opened DeviceTable

  /** Successful session calls to the SDK for one record. */
  datatype Call = LoginOk | LogoutOk

  /** The SDK's return codes, in the order they may be asked for. */
  datatype Sdk = Sdk(register: int, create: int, login: int, logout: int)

  /** What a registration report says about the device. */
  datatype Report = Report(name: string, model: string, devType: string, version: string,
                           battery: int, online: int, rssi: int)

  /** The tail of afly_nxp_reg and afly_nxp_upt_online: log in when online, out when not. */
  function Session(sd: SubDev, online: int, sdk: Sdk): (SubDev, seq<Call>) {
    if online != 0 then
      if sd.login == 0 then
        (sd.(login := if sdk.login == 0 then 1 else 0), if sdk.login == 0 then [LoginOk] else [])
      else (sd, [])
    else if sd.login != 0 then
      (sd.(login := if sdk.logout == 0 then 0 else 1), if sdk.logout == 0 then [LogoutOk] else [])
    else (sd, [])
  }

  /** Fields a registration report overwrites. */
  function Reported(sd: SubDev, r: Report): SubDev {
    sd.(battery := r.battery, online := r.online, devType := r.devType, version := r.version,
        model := r.model, app := "NXP", rssi := r.rssi)
  }

  /** Asking the lock for a dynamic password stores the seed and interval sent. */
  function Seeded(sd: SubDev, now: int): SubDev {
    if sd.dynamic == 0 then sd.(seed := now, interval := 60 * 30) else sd
  }

  /** The record to work on: found, or added with a product key for the type; None ends the handler. */
  function Enrolled(s: Store, name: string, spk: Option<string>): Store {
    if FindName(s.devs, name) < |s.devs| then s
    else
      match spk
      case None => s
      case Some(key) => DoAddDev(s, name, key, None)
  }

  function Id(sd: SubDev, sdk: Sdk): Option<int> {
    if sd.devid != 0 then Some(sd.devid)
    else if sdk.register < 0 || sdk.create < 0 then None
    else Some(sdk.create)
  }

  /** afly_nxp_reg from the point where the record is known. */
  function RegRecord(s: Store, d: nat, r: Report, sdk: Sdk, now: int): (Store, seq<Call>)
    requires d < |s.devs|
  {
    match Id(s.devs[d], sdk)
    case None => (s, [])
    case Some(id) =>
      var sd := Reported(s.devs[d].(devid := id), r);
      var saved := Commit(s, d, sd);
      var (sd', calls) := Session(Seeded(sd, now), r.online, sdk);
      (SetRecord(saved, d, sd'), calls)
  }

  /** afly_nxp_reg: store, record concerned (or the table size) and session calls. */
  function Reg(s: Store, r: Report, spk: Option<string>, sdk: Sdk, now: int): (Store, seq<Call>) {
    var s1 := Enrolled(s, r.name, spk);
    var d := FindName(s1.devs, r.name);
    if d < |s1.devs| then RegRecord(s1, d, r, sdk, now) else (s1, [])
  }

  /** What a status report changes. counts is None unless the type is a lock's. */
  datatype Status = Status(name: string, online: int, battery: int, rssi: int, isLock: bool,
                           passNum: int, passAll: int, cardNum: int, cardAll: int, fingNum: int, fingAll: int)

  function Updated(sd: SubDev, u: Status): SubDev {
    var sd1 := sd.(online := u.online, battery := u.battery, rssi := u.rssi);
    if u.isLock then
      sd1.(passNum := u.passNum, passAll := u.passAll, cardNum := u.cardNum, cardAll := u.cardAll,
           fingNum := u.fingNum, fingAll := u.fingAll)
    else sd1
  }

  /** afly_nxp_upt_online. */
  function Upt(s: Store, u: Status, sdk: Sdk): (Store, seq<Call>) {
    var d := FindName(s.devs, u.name);
    if d == |s.devs| || s.devs[d].devid == 0 then (s, [])
    else
      var sd := Updated(s.devs[d], u);
      var (sd', calls) := Session(sd, u.online, sdk);
      (SetRecord(Commit(s, d, sd), d, sd'), calls)
  }

  /** afly_nxp_unreg. */
  function Unreg(s: Store, name: string, destroy: int, unregister: int): Store {
    var d := FindName(s.devs, name);
    if d == |s.devs| || s.devs[d].devid == 0 || destroy != 0 || unregister != 0 then s
    else DoDelDev(s, name)
  }

  // ---- lives -------------------------------------------------------------

  /** hist[d] is what was called for record d since it was taken into use. */
  datatype Life = Life(s: Store, hist: seq<seq<Call>>)

  datatype Event =
    | RegEv(r: Report, spk: Option<string>, sdk: Sdk, now: int)
    | UptEv(u: Status, sdk: Sdk)
    | UnregEv(name: string, destroy: int, unregister: int)
    | CloudAdd(name: string, productKey: string, secret: Option<string>)
    | CloudDel(name: string)
    | CloudClr
    | Restart

  /** The record of a name gets its calls; a record just taken into use starts afresh. */
  function Log(x: Life, s': Store, name: string, calls: seq<Call>): seq<seq<Call>> {
    var d := FindName(s'.devs, name);
    if d < |s'.devs| && d < |x.hist| then
      x.hist[d := (if FindName(x.s.devs, name) < |x.s.devs| then x.hist[d] else []) + calls]
    else x.hist
  }

  function Step(x: Life, e: Event): Life {
    match e
    case RegEv(r, spk, sdk, now) =>
      var (s', calls) := Reg(x.s, r, spk, sdk, now);
      Life(s', Log(x, s', r.name, calls))
    case UptEv(u, sdk) =>
      var (s', calls) := Upt(x.s, u, sdk);
      Life(s', Log(x, s', u.name, calls))
    case UnregEv(name, destroy, unregister) => Life(Unreg(x.s, name, destroy, unregister), x.hist)
    case CloudAdd(name, key, secret) =>
      if FindName(x.s.devs, name) < |x.s.devs| then x
      else Life(DoAddDev(x.s, name, key, secret), Log(x, DoAddDev(x.s, name, key, secret), name, []))
    case CloudDel(name) => Life(DoDelDev(x.s, name), x.hist)
    case CloudClr => Life(Store(ZeroDevs(), Some(ZeroDevs())), x.hist)
    case Restart => Life(DoLoad(x.s), seq(|x.hist|, _ => []))
  }

  /** Logins and logouts take turns, beginning with a login. */
  ghost predicate Alternates(h: seq<Call>) {
    forall i :: 0 <= i < |h| ==> h[i] == if i % 2 == 0 then LoginOk else LogoutOk
  }

  ghost predicate RecordOk(sd: SubDev, h: seq<Call>) {
    sd.login == |h| % 2 && Alternates(h) && (sd.login == 1 ==> sd.devid != 0)
  }

  ghost predicate DistinctNames(devs: Devices) {
    forall i, j :: 0 <= i < j < |devs| && devs[i].use != 0 && devs[j].use != 0 ==> devs[i].deviceName != devs[j].deviceName
  }

  ghost predicate AllOk(devs: Devices, hist: seq<seq<Call>>) {
    |hist| == |devs| && forall d :: 0 <= d < |devs| && devs[d].use != 0 ==> RecordOk(devs[d], hist[d])
  }

  ghost predicate Inv(x: Life) {
    Synced(x.s) && DistinctNames(x.s.devs) && AllOk(x.s.devs, x.hist)
  }

  lemma SessionKeeps(sd: SubDev, h: seq<Call>, online: int, sdk: Sdk)
    requires RecordOk(sd, h) && sd.devid != 0
    ensures RecordOk(Session(sd, online, sdk).0, h + Session(sd, online, sdk).1)
    ensures SameIdentity(Session(sd, online, sdk).0, sd)
  {
  }

  lemma SetKeepsNames(devs: Devices, d: nat, sd: SubDev)
    requires DistinctNames(devs) && d < |devs| && sd.use == devs[d].use && sd.deviceName == devs[d].deviceName
    ensures DistinctNames(devs[d := sd])
  {
  }

  lemma FoundAgain(devs: Devices, d: nat, sd: SubDev, name: string)
    requires d < |devs| && sd.use == devs[d].use && sd.deviceName == devs[d].deviceName
    ensures FindName(devs[d := sd], name) == FindName(devs, name)
  {
    var a, b, devs' := FindName(devs, name), FindName(devs[d := sd], name), devs[d := sd];
    assert forall j :: 0 <= j < |devs| ==>
      (devs'[j].use != 0 && devs'[j].deviceName == name <==> devs[j].use != 0 && devs[j].deviceName == name);
    hide FindName;
    assert a < |devs| ==> b <= a;
    assert b < |devs| ==> a <= b;
  }

  /** Working on a used record: memory, image and history stay consistent. */
  lemma RecordChange(x: Life, d: nat, saved: SubDev, final: SubDev, calls: seq<Call>)
    requires Inv(x) && d < MAX_SUB_DEV && x.s.devs[d].use != 0
    requires SameIdentity(saved, x.s.devs[d]) && SameIdentity(final, saved) && RecordOk(final, x.hist[d] + calls)
    ensures Inv(Life(SetRecord(Commit(x.s, d, saved), d, final), x.hist[d := x.hist[d] + calls]))
  {
    CommitKeepsSynced(x.s, d, saved);
    SetKeepsSynced(Commit(x.s, d, saved), d, final);
    assert x.s.devs[d := saved][d := final] == x.s.devs[d := final];
    SetKeepsNames(x.s.devs, d, final);
  }

  lemma NoCalls(hist: seq<seq<Call>>, d: nat)
    requires d < |hist|
    ensures hist[d := hist[d] + []] == hist
  {
    assert hist[d] + [] == hist[d];
  }

  lemma RegRecordKeeps(x: Life, d: nat, r: Report, sdk: Sdk, now: int)
    requires Inv(x) && d < MAX_SUB_DEV && x.s.devs[d].use != 0 && sdk.create != 0
    ensures Inv(Life(RegRecord(x.s, d, r, sdk, now).0, x.hist[d := x.hist[d] + RegRecord(x.s, d, r, sdk, now).1]))
    ensures forall name :: FindName(RegRecord(x.s, d, r, sdk, now).0.devs, name) == FindName(x.s.devs, name)
  {
    match Id(x.s.devs[d], sdk)
    case None => NoCalls(x.hist, d);
    case Some(id) =>
      var sd := Reported(x.s.devs[d].(devid := id), r);
      SessionKeeps(Seeded(sd, now), x.hist[d], r.online, sdk);
      var (sd', calls) := Session(Seeded(sd, now), r.online, sdk);
      RecordChange(x, d, sd, sd', calls);
      forall name ensures FindName(x.s.devs[d := sd], name) == FindName(x.s.devs, name)
        && FindName(x.s.devs[d := sd][d := sd'], name) == FindName(x.s.devs, name)
      {
        FoundAgain(x.s.devs, d, sd, name);
        FoundAgain(x.s.devs[d := sd], d, sd', name);
      }
  }

  lemma NewName(devs: Devices, u: nat, sd: SubDev)
    requires DistinctNames(devs) && u < |devs| && FindName(devs, sd.deviceName) == |devs| && sd.use != 0 && devs[u].use == 0
    ensures DistinctNames(devs[u := sd]) && FindName(devs[u := sd], sd.deviceName) == u
  {
    FoundAt(devs[u := sd], sd.deviceName, u);
  }

  /** Taking a record into use under a new name. */
  lemma AddKeeps(x: Life, name: string, key: string, secret: Option<string>)
    requires Inv(x) && FindName(x.s.devs, name) == |x.s.devs|
    ensures Inv(Life(DoAddDev(x.s, name, key, secret), Log(x, DoAddDev(x.s, name, key, secret), name, [])))
    ensures FindName(DoAddDev(x.s, name, key, secret).devs, name) == FindUnused(x.s.devs)
  {
    hide DistinctNames, Synced;
    DoKeepsSynced(x.s, AddDev(name, key, secret));
    var u := FindUnused(x.s.devs);
    if u < |x.s.devs| {
      NewName(x.s.devs, u, Fresh(x.s.devs[u], name, key, secret));
    }
  }

  lemma FoundAt(devs: Devices, name: string, d: nat)
    requires d < |devs| && devs[d].use != 0 && devs[d].deviceName == name
    requires forall j :: 0 <= j < |devs| && j != d ==> !(devs[j].use != 0 && devs[j].deviceName == name)
    ensures FindName(devs, name) == d
  {
  }

  lemma DelKeeps(x: Life, name: string)
    requires Inv(x)
    ensures Inv(Life(DoDelDev(x.s, name), x.hist))
  {
    DoKeepsSynced(x.s, DelDev(name));
  }

  lemma SameNames(a: Devices, b: Devices)
    requires DistinctNames(a) && |a| == |b|
    requires forall i :: 0 <= i < |a| ==> b[i].use == a[i].use && b[i].deviceName == a[i].deviceName
    ensures DistinctNames(b)
  {
  }

  lemma RestartKeeps(x: Life)
    requires Inv(x)
    ensures Inv(Step(x, Restart))
  {
    LoadKeepsSynced(x.s);
    var f := x.s.file.value;
    forall i | 0 <= i < |f|
      ensures ClearIds(f)[i].use == x.s.devs[i].use && ClearIds(f)[i].deviceName == x.s.devs[i].deviceName
    {
      assert Mirrors(f[i], x.s.devs[i]);
    }
    hide DistinctNames, Synced;
    SameNames(x.s.devs, ClearIds(f));
  }

  lemma RegKeeps(x: Life, r: Report, spk: Option<string>, sdk: Sdk, now: int)
    requires Inv(x) && sdk.create != 0
    ensures Inv(Step(x, RegEv(r, spk, sdk, now)))
  {
    hide RegRecord, Mirrors, SameAdded, RecordOk, Alternates;
    var s1 := Enrolled(x.s, r.name, spk);
    var known := FindName(x.s.devs, r.name) < |x.s.devs|;
    if !known && spk.Some? {
      AddKeeps(x, r.name, spk.value, None);
    }
    var d := FindName(s1.devs, r.name);
    if d < |s1.devs| {
      var x1 := Life(s1, if known then x.hist else x.hist[d := []]);
      RegRecordKeeps(x1, d, r, sdk, now);
      var calls := RegRecord(s1, d, r, sdk, now).1;
      assert x1.hist[d := x1.hist[d] + calls] == x.hist[d := (if known then x.hist[d] else []) + calls];
    }
  }

  lemma UptKeeps(x: Life, u: Status, sdk: Sdk)
    requires Inv(x)
    ensures Inv(Step(x, UptEv(u, sdk)))
  {
    var d := FindName(x.s.devs, u.name);
    if d < |x.s.devs| {
      if x.s.devs[d].devid == 0 {
        NoCalls(x.hist, d);
      } else {
        var sd := Updated(x.s.devs[d], u);
        SessionKeeps(sd, x.hist[d], u.online, sdk);
        var (sd', calls) := Session(sd, u.online, sdk);
        RecordChange(x, d, sd, sd', calls);
        FoundAgain(x.s.devs, d, sd, u.name);
        FoundAgain(x.s.devs[d := sd], d, sd', u.name);
      }
    }
  }

  /** A successful create never hands out id 0. */
  ghost predicate EventOk(e: Event) { e.RegEv? ==> e.sdk.create != 0 }

  lemma StepKeepsInv(x: Life, e: Event)
    requires Inv(x) && EventOk(e)
    ensures Inv(Step(x, e))
  {
    match e
    case RegEv(r, spk, sdk, now) => RegKeeps(x, r, spk, sdk, now);
    case UptEv(u, sdk) => UptKeeps(x, u, sdk);
    case UnregEv(name, destroy, unregister) => DelKeeps(x, name);
    case CloudAdd(name, key, secret) =>
      if FindName(x.s.devs, name) == |x.s.devs| {
        AddKeeps(x, name, key, secret);
      }
    case CloudDel(name) => DelKeeps(x, name);
    case CloudClr =>
    case Restart => RestartKeeps(x);
  }

  function Run(x: Life, es: seq<Event>): Life
    decreases |es|
  {
    if es == [] then x else Run(Step(x, es[0]), es[1..])
  }

  lemma {:induction false} RunKeepsInv(x: Life, es: seq<Event>)
    requires Inv(x) && forall i :: 0 <= i < |es| ==> EventOk(es[i])
    ensures Inv(Run(x, es))
    decreases |es|
  {
    if es != [] {
      StepKeepsInv(x, es[0]);
      RunKeepsInv(Step(x, es[0]), es[1..]);
    }
  }

  /** A start from a database, if there is one, whose used records have distinct names. */
  ghost predicate Bootable(s: Store) {
    Shaped(s.devs) && (s.file.Some? ==> Shaped(s.file.value) && DistinctNames(s.file.value))
  }

  ghost function Boot(s: Store): (x: Life)
    requires Bootable(s)
    ensures Inv(x)
  {
    LoadSyncs(s);
    assert s.file.Some? ==> DistinctNames(ClearIds(s.file.value));
    Life(DoLoad(s), seq(MAX_SUB_DEV, _ => []))
  }

  /** In every run from a start: names of used records are distinct, a logged-in record
      has an id, and its successful logins and logouts strictly alternate. */
  lemma LivesAreOrderly(s: Store, es: seq<Event>, d: nat)
    requires Bootable(s) && d < MAX_SUB_DEV && forall i :: 0 <= i < |es| ==> EventOk(es[i])
    ensures |Run(Boot(s), es).s.devs| == |Run(Boot(s), es).hist| == MAX_SUB_DEV
    ensures DistinctNames(Run(Boot(s), es).s.devs)
    ensures Run(Boot(s), es).s.devs[d].use != 0 ==> RecordOk(Run(Boot(s), es).s.devs[d], Run(Boot(s), es).hist[d])
  {
    RunKeepsInv(Boot(s), es);
    hide Run, Boot;
  }

  /** For an id 0 from the SDK the registration of an unregistered record leaves it
      logged in without an id exactly when the device is online and the login succeeds. */
  lemma IdZeroBreaksExactlyWhen(s: Store, d: nat, r: Report, sdk: Sdk, now: int)
    requires d < |s.devs| && s.devs[d].devid == 0 && s.devs[d].login == 0
    requires sdk.register >= 0 && sdk.create == 0
    ensures |RegRecord(s, d, r, sdk, now).0.devs| == |s.devs|
    ensures RegRecord(s, d, r, sdk, now).0.devs[d].login == 1 && RegRecord(s, d, r, sdk, now).0.devs[d].devid == 0
       <==> r.online != 0 && sdk.login == 0
  {
  }

  /** It does so at the first report of a new device. */
  lemma IdZeroFromTheStart(r: Report, key: string, now: int)
    requires r.online != 0
    ensures var s := Reg(Store(ZeroDevs(), Some(ZeroDevs())), r, Some(key), Sdk(0, 0, 0, 0), now).0;
      |s.devs| == MAX_SUB_DEV && s.devs[0].use != 0 && s.devs[0].login == 1 && s.devs[0].devid == 0
  {
    hide FindName, FindUnused, DoAddDev;
    var s0 := Store(ZeroDevs(), Some(ZeroDevs()));
    AddedAt(s0, 0, r.name, key, None);
    var s1 := DoAddDev(s0, r.name, key, None);
    assert FindName(s0.devs, r.name) == |s0.devs|;
    assert s1.devs[0].use != 0 && s1.devs[0].deviceName == r.name;
    assert FindName(s1.devs, r.name) == 0;
    IdZeroBreaksExactlyWhen(s1, 0, r, Sdk(0, 0, 0, 0), now);
  }

  // ---- reports field by field --------------------------------------------

  /** What a report with this online flag does to the session of a record, calls included:
      a login when it is online and logged out, a logout when it is offline and logged in,
      each recorded only if the SDK returns 0, and otherwise nothing. */
  ghost predicate SessionFollows(before: int, after: int, online: int, sdk: Sdk, calls: seq<Call>) {
    (online != 0 && before == 0 ==> if sdk.login == 0 then after == 1 && calls == [LoginOk] else after == 0 && calls == []) &&
    (online == 0 && before != 0 ==> if sdk.logout == 0 then after == 0 && calls == [LogoutOk] else after == 1 && calls == []) &&
    ((online != 0) == (before != 0) ==> after == before && calls == [])
  }

  /** A status report of a registered device: what is stored, what is called, and that
      nothing else changes. */
  lemma StatusReport(s: Store, u: Status, sdk: Sdk)
    requires FindName(s.devs, u.name) < |s.devs| && s.devs[FindName(s.devs, u.name)].devid != 0
    ensures var (s', calls) := Upt(s, u, sdk); var d := FindName(s.devs, u.name);
      OthersKept(s.devs, s'.devs, d) &&
      var before, after := s.devs[d], s'.devs[d];
      SessionFollows(before.login, after.login, u.online, sdk, calls) &&
      after.online == u.online && after.battery == u.battery && after.rssi == u.rssi &&
      after.passNum == (if u.isLock then u.passNum else before.passNum) &&
      after.passAll == (if u.isLock then u.passAll else before.passAll) &&
      after.cardNum == (if u.isLock then u.cardNum else before.cardNum) &&
      after.cardAll == (if u.isLock then u.cardAll else before.cardAll) &&
      after.fingNum == (if u.isLock then u.fingNum else before.fingNum) &&
      after.fingAll == (if u.isLock then u.fingAll else before.fingAll) &&
      after.(login := before.login, online := before.online, battery := before.battery, rssi := before.rssi,
          passNum := before.passNum, passAll := before.passAll, cardNum := before.cardNum, cardAll := before.cardAll,
          fingNum := before.fingNum, fingAll := before.fingAll) == before &&
      (s.file.Some? && |s.file.value| == |s.devs| ==>
        s'.file.Some? && OthersKept(s.file.value, s'.file.value, d) && s'.file.value[d] == after.(login := before.login))
  {
    hide FindName;
  }

  /** From a device that is unknown or not registered it does nothing. */
  lemma StatusReportIgnored(s: Store, u: Status, sdk: Sdk)
    requires FindName(s.devs, u.name) == |s.devs| || s.devs[FindName(s.devs, u.name)].devid == 0
    ensures Upt(s, u, sdk) == (s, [])
  {
  }

  /** When the SDK agrees, a report leaves the device logged in exactly if it is online. */
  lemma AgreedReport(s: Store, u: Status, sdk: Sdk)
    requires FindName(s.devs, u.name) < |s.devs| && s.devs[FindName(s.devs, u.name)].devid != 0
    requires 0 <= s.devs[FindName(s.devs, u.name)].login <= 1 && sdk.login == 0 && sdk.logout == 0
    ensures var s' := Upt(s, u, sdk).0; var d := FindName(s.devs, u.name);
      |s'.devs| == |s.devs| && s'.devs[d].login == if u.online != 0 then 1 else 0
  {
    hide FindName, Upt;
    StatusReport(s, u, sdk);
  }

  /** A registration report of a device whose record exists and has an id, or is given one
      by the SDK: what is stored, what is called, and that nothing else changes. */
  lemma RegistrationReport(s: Store, r: Report, spk: Option<string>, sdk: Sdk, now: int)
    requires FindName(s.devs, r.name) < |s.devs|
    requires s.devs[FindName(s.devs, r.name)].devid != 0 || (sdk.register >= 0 && sdk.create >= 0)
    ensures var (s', calls) := Reg(s, r, spk, sdk, now); var d := FindName(s.devs, r.name);
      RegisteredAs(s, s', d, r, sdk, now, calls)
  {
    hide FindName;
  }

  /** Record d of s after a registration report, field by field. */
  ghost predicate RegisteredAs(s: Store, s': Store, d: nat, r: Report, sdk: Sdk, now: int, calls: seq<Call>)
    requires d < |s.devs|
  {
    OthersKept(s.devs, s'.devs, d) &&
    var before, after := s.devs[d], s'.devs[d];
    after.devid == (if before.devid != 0 then before.devid else sdk.create) &&
    SessionFollows(before.login, after.login, r.online, sdk, calls) &&
    after.battery == r.battery && after.online == r.online && after.devType == r.devType && after.version == r.version &&
    after.model == r.model && after.app == "NXP" && after.rssi == r.rssi &&
    after.seed == (if before.dynamic == 0 then now else before.seed) &&
    after.interval == (if before.dynamic == 0 then 1800 else before.interval) &&
    after.(devid := before.devid, login := before.login, battery := before.battery, online := before.online, devType := before.devType,
        version := before.version, model := before.model, app := before.app, rssi := before.rssi, seed := before.seed,
        interval := before.interval) == before &&
    (s.file.Some? && |s.file.value| == |s.devs| ==>
      s'.file.Some? && OthersKept(s.file.value, s'.file.value, d) &&
      s'.file.value[d] == after.(login := before.login, seed := before.seed, interval := before.interval))
  }

  /** When the SDK refuses the registration or the creation of a known device, nothing changes. */
  lemma RegistrationRefused(s: Store, r: Report, spk: Option<string>, sdk: Sdk, now: int)
    requires FindName(s.devs, r.name) < |s.devs| && s.devs[FindName(s.devs, r.name)].devid == 0
    requires sdk.register < 0 || sdk.create < 0
    ensures Reg(s, r, spk, sdk, now) == (s, [])
  {
  }

  /** A new device with a product key is added first, with that key and no secret, and then
      reported; without a product key, or without a free record, nothing changes. */
  lemma RegistrationOfNew(s: Store, r: Report, spk: Option<string>, sdk: Sdk, now: int)
    requires Shaped(s.devs) && FindName(s.devs, r.name) == |s.devs|
    ensures spk.None? || FindUnused(s.devs) == |s.devs| ==> Reg(s, r, spk, sdk, now) == (s, [])
    ensures spk.Some? && FindUnused(s.devs) < |s.devs| ==>
      Reg(s, r, spk, sdk, now) == Reg(DoAddDev(s, r.name, spk.value, None), r, None, sdk, now) &&
      FindName(DoAddDev(s, r.name, spk.value, None).devs, r.name) == FindUnused(s.devs)
  {
    hide FindUnused, RegRecord;
    if spk.Some? && FindUnused(s.devs) < |s.devs| {
      AddNewDevice(s, r.name, spk.value, None);
    }
  }

  /** A removal report deletes the device exactly when it is known and registered and the
      SDK destroys and unregisters it; otherwise nothing changes. */
  lemma RemovalReport(s: Store, name: string, destroy: int, unregister: int)
    requires FindName(s.devs, name) < |s.devs|
    ensures var d := FindName(s.devs, name); var gone := s.devs[d].devid != 0 && destroy == 0 && unregister == 0;
      var s' := Unreg(s, name, destroy, unregister);
      if gone then OthersKept(s.devs, s'.devs, d) && s'.devs[d].use == 0 else s' == s
  {
    DelDevice(s, name);
    hide FindName, DoDelDev;
  }

  lemma RemovalOfUnknown(s: Store, name: string, destroy: int, unregister: int)
    requires FindName(s.devs, name) == |s.devs|
    ensures Unreg(s, name, destroy, unregister) == s
  {
  }
}
