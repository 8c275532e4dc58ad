/** Auto-relock as a state machine: door-open events, the timer list, its dispatcher
    and the deletion of device records. */
module RelockSpec {
  import opened Wrappers
  import opened ScheduleSpec

  const RELOCK_MS := 5000

  /** The timer nodes of the gateway: its own, and the one inside each device record. */
  datatype TaskRef = GwInfo | Dev(i: nat)

  /** lock[i] is lock_status of record i; lastOpen[i] is when its latest open event came in;
      timer is when the dispatcher's one-shot timer fires, None if it is not armed. Once the
      program has called a null function it is gone. */
  datatype Gateway =
    Gateway(sched: Sched<TaskRef>, lock: seq<int>, lastOpen: seq<int>, timer: Option<int>, crashed: bool)

  datatype Event =
    | Start                           // afly_init schedules the gateway's own task
    | Open(i: nat, postMs: nat)       // door opened; posting the property takes postMs
    | Wait(ms: nat)
    | TaskRun(infoOk: bool)           // the timer fires; infoOk is what product_init tells gw_info_func
    | Delete(i: nat)                  // product_sub_free zeroes record i, timer node included

  ghost predicate Shaped(g: Gateway) { |g.lock| == |g.lastOpen| }

  ghost predicate Allowed(g: Gateway, e: Event) {
    match e
    case Open(i, _) => i < |g.lock|
    case Delete(i) => i < |g.lock|
    case _ => true
  }

  function Max(a: int, b: int): int { if a < b then b else a }

  /** timer_set with the delay of the first task: at its deadline, or at once if that is past. */
  function Armed(s: Sched<TaskRef>): Option<int> {
    if s.q == [] then None else Some(Max(s.now, s.q[First(s.q)].Due()))
  }

  function GwAdd(g: Gateway, ms: int): Gateway {
    var s := ScheduleSpec.Step(g.sched, AddOp(GwInfo, GwInfoFunc, 0, ms));
    g.(sched := s, timer := Armed(s))
  }

  const INFO_MS := 20 * 60 * 1000
  const RETRY_MS := 1000

  /** What the dispatcher calls. A zeroed node has no function. */
  function Callback(g: Gateway, e: Entry<TaskRef>, infoOk: bool): (r: Gateway)
    ensures |r.lock| == |g.lock| && r.lastOpen == g.lastOpen
  {
    match e.func
    case SubdevTimeoutFunc => if 0 <= e.arg < |g.lock| then g.(lock := g.lock[e.arg := 0]) else g
    case GwInfoFunc => GwAdd(g, if infoOk then INFO_MS else RETRY_MS)
    case NoFunc => g.(crashed := true)
  }

  /** The first task if it is due, off the list and called. */
  function Called(g: Gateway, infoOk: bool): (r: Gateway)
    ensures |r.lock| == |g.lock| && r.lastOpen == g.lastOpen
  {
    var s := ScheduleSpec.Step(g.sched, Dispatch);
    if |s.ran| == |g.sched.ran| then g else Callback(g.(sched := s), s.ran[|s.ran| - 1].entry, infoOk)
  }

  /** The dispatcher: the timer has fired, and is set again unless the list is empty. */
  function Dispatcher(g: Gateway, infoOk: bool): (r: Gateway)
    ensures |r.lock| == |g.lock| && r.lastOpen == g.lastOpen
  {
    var c := Called(g.(timer := None), infoOk);
    if c.crashed then c else c.(timer := Armed(c.sched))
  }

  /** A call that leaves the list empty has not set the timer. */
  lemma EmptyLeavesTimer(g: Gateway, infoOk: bool)
    ensures Called(g, infoOk).sched.q == [] ==> Called(g, infoOk).timer == g.timer
  {
    hide Armed;
  }

  function Opened(g: Gateway, i: nat, postMs: nat): (r: Gateway)
    requires Shaped(g) && i < |g.lock|
    ensures |r.lock| == |g.lock| && |r.lastOpen| == |g.lastOpen|
  {
    var posted := ScheduleSpec.Step(g.sched, Tick(postMs));
    var s := ScheduleSpec.Step(posted, AddOp(Dev(i), SubdevTimeoutFunc, i, RELOCK_MS));
    g.(sched := s, lock := g.lock[i := 1], lastOpen := g.lastOpen[i := g.sched.now], timer := Armed(s))
  }

  function Step(g: Gateway, e: Event): (r: Gateway)
    requires Shaped(g) && Allowed(g, e)
    ensures Shaped(r) && |r.lock| == |g.lock|
  {
    if g.crashed then g
    else
      match e
      case Start => GwAdd(g, RETRY_MS)
      case Open(i, postMs) => Opened(g, i, postMs)
      case Wait(ms) => g.(sched := ScheduleSpec.Step(g.sched, Tick(ms)))
      case TaskRun(infoOk) => Dispatcher(g, infoOk)
      case Delete(i) => g.(sched := g.sched.(q := Zeroed(g.sched.q, Dev(i))), lock := g.lock[i := 0])
  }

  ghost predicate DoorEntryOk(e: Entry<TaskRef>, i: nat, lastOpen: seq<int>) {
    i < |lastOpen| && e.func == SubdevTimeoutFunc && e.arg == i && e.delt == RELOCK_MS && lastOpen[i] <= e.start
  }

  /** The node's fields say what it is for and no earlier deadline than promised. */
  ghost predicate EntryOk(e: Entry<TaskRef>, lastOpen: seq<int>) {
    match e.task
    case GwInfo => e.func == GwInfoFunc
    case Dev(i) => DoorEntryOk(e, i, lastOpen)
  }

  /** The dispatcher will run no later than any deadline, or at once if that is past, and it
      will not run before there is something to do. */
  ghost predicate TimerOk(g: Gateway) {
    (forall e :: e in g.sched.q ==> g.timer.Some? && g.timer.value <= Max(e.Due(), g.sched.now)) &&
    (g.timer.Some? ==> g.timer.value <= g.sched.now || exists e :: e in g.sched.q && e.Due() == g.timer.value)
  }

  ghost predicate Inv(g: Gateway) {
    Shaped(g) && !g.crashed && Good(g.sched) && TimerOk(g) &&
    (forall i :: 0 <= i < |g.lock| ==> g.lock[i] == if Pending(g.sched.q, Dev(i)) then 1 else 0) &&
    (forall e :: e in g.sched.q ==> EntryOk(e, g.lastOpen))
  }

  /** A deletion is clean when the device's task is not in the list. */
  ghost predicate Clean(g: Gateway, e: Event) {
    e.Delete? ==> !Pending(g.sched.q, Dev(e.i))
  }

  lemma NotPendingUntouched(q: Queue<TaskRef>, t: TaskRef)
    requires !Pending(q, t)
    ensures Zeroed(q, t) == q
  {
  }

  lemma AddKeepsEntries(g: Gateway, e: Entry<TaskRef>, lastOpen: seq<int>)
    requires Inv(g) && EntryOk(e, lastOpen)
    requires forall x :: x in g.sched.q && x.task != e.task && EntryOk(x, g.lastOpen) ==> EntryOk(x, lastOpen)
    ensures forall x :: x in Add(g.sched.q, e) ==> EntryOk(x, lastOpen)
    ensures forall t :: Pending(Add(g.sched.q, e), t) <==> t == e.task || Pending(g.sched.q, t)
  {
    AddKeeps(g.sched.q, e);
  }

  lemma ArmedInTime(g: Gateway)
    requires g.timer == Armed(g.sched)
    ensures TimerOk(g)
  {
    if g.sched.q != [] {
      assert g.sched.q[First(g.sched.q)] in g.sched.q;
    }
  }

  lemma OpenKeepsInv(g: Gateway, i: nat, postMs: nat)
    requires Inv(g) && i < |g.lock|
    ensures Inv(Step(g, Open(i, postMs)))
  {
    hide Good, Add, TimerOk, Armed;
    var posted := ScheduleSpec.Step(g.sched, Tick(postMs));
    StepKeepsGood(g.sched, Tick(postMs));
    StepKeepsGood(posted, AddOp(Dev(i), SubdevTimeoutFunc, i, RELOCK_MS));
    AddKeepsEntries(g, Entry(Dev(i), SubdevTimeoutFunc, i, posted.now, RELOCK_MS), g.lastOpen[i := g.sched.now]);
    ArmedInTime(Step(g, Open(i, postMs)));
  }

  lemma GwAddKeepsInv(g: Gateway, ms: int)
    requires Inv(g)
    ensures Inv(GwAdd(g, ms))
  {
    hide Good, Add, TimerOk, Armed;
    StepKeepsGood(g.sched, AddOp(GwInfo, GwInfoFunc, 0, ms));
    AddKeepsEntries(g, Entry(GwInfo, GwInfoFunc, 0, g.sched.now, ms), g.lastOpen);
    ArmedInTime(GwAdd(g, ms));
  }

  /** The dispatched entry, if there is one. */
  ghost predicate Dispatched(g: Gateway, e: Entry<TaskRef>) {
    g.sched.q != [] && e == g.sched.q[First(g.sched.q)] && e.Due() <= g.sched.now
  }

  /** The gateway once entry e is off the list, the status of a door back to 0 and the timer set. */
  function Fired(g: Gateway, e: Entry<TaskRef>): Gateway {
    var s := ScheduleSpec.Step(g.sched, Dispatch);
    g.(sched := s, lock := if e.task.Dev? && e.task.i < |g.lock| then g.lock[e.task.i := 0] else g.lock, timer := Armed(s))
  }

  lemma DispatchKeepsInv(g: Gateway, e: Entry<TaskRef>)
    requires Inv(g) && Dispatched(g, e)
    ensures Fired(g, e).sched.ran == g.sched.ran + [Ran(e, g.sched.now, g.sched.q)]
    ensures Inv(Fired(g, e))
  {
    hide Good, TimerOk, Armed;
    StepKeepsGood(g.sched, Dispatch);
    GoodIsDistinct(g.sched);
    DelKeeps(g.sched.q, e.task);
    ArmedInTime(Fired(g, e));
    assert e in g.sched.q;
  }

  lemma GoodIsDistinct(s: Sched<TaskRef>)
    requires Good(s)
    ensures Distinct(s.q)
  {
  }

  /** What is dispatched under the invariant has a function, and the dispatcher then
      leaves the gateway as after the firing, with the gateway's own task added again. */
  lemma DispatcherIs(g: Gateway, e: Entry<TaskRef>, infoOk: bool)
    requires Inv(g) && Dispatched(g, e)
    ensures e.func != NoFunc
    ensures Dispatcher(g, infoOk) == if e.task.GwInfo? then GwAdd(Fired(g, e), if infoOk then INFO_MS else RETRY_MS) else Fired(g, e)
  {
    hide Good, TimerOk, Armed, Add, Del;
    InvEntry(g, e);
  }

  lemma TaskRunKeepsInv(g: Gateway, infoOk: bool)
    requires Inv(g)
    ensures Inv(Step(g, TaskRun(infoOk)))
  {
    assert Step(g, TaskRun(infoOk)) == Dispatcher(g, infoOk);
    if g.sched.q != [] && g.sched.q[First(g.sched.q)].Due() <= g.sched.now {
      hide Inv, Dispatcher, Fired, GwAdd;
      var e := g.sched.q[First(g.sched.q)];
      DispatchKeepsInv(g, e);
      DispatcherIs(g, e, infoOk);
      if e.task.GwInfo? {
        GwAddKeepsInv(Fired(g, e), if infoOk then INFO_MS else RETRY_MS);
      }
    } else {
      hide Armed, TimerOk, Good;
      ArmedInTime(Dispatcher(g, infoOk));
    }
  }

  lemma InvEntry(g: Gateway, e: Entry<TaskRef>)
    requires Inv(g) && e in g.sched.q
    ensures EntryOk(e, g.lastOpen) && |g.lock| == |g.lastOpen|
  {
  }

  lemma StepKeepsInv(g: Gateway, e: Event)
    requires Inv(g) && Allowed(g, e) && Clean(g, e)
    ensures Inv(Step(g, e))
  {
    match e
    case Start => GwAddKeepsInv(g, RETRY_MS);
    case Open(i, postMs) => OpenKeepsInv(g, i, postMs);
    case Wait(ms) => StepKeepsGood(g.sched, Tick(ms));
    case TaskRun(infoOk) => TaskRunKeepsInv(g, infoOk);
    case Delete(i) => NotPendingUntouched(g.sched.q, Dev(i));
  }

  /** Deleting a record keeps the gateway sound exactly when its task is not pending. */
  lemma DeleteSafeExactlyWhenNotPending(g: Gateway, i: nat)
    requires Inv(g) && i < |g.lock|
    ensures Inv(Step(g, Delete(i))) <==> !Pending(g.sched.q, Dev(i))
  {
    if Pending(g.sched.q, Dev(i)) {
      var q, k := g.sched.q, IndexOf(g.sched.q, Dev(i));
      var q' := Zeroed(q, Dev(i));
      assert q'[k].task == Dev(i);
      assert Pending(q', Dev(i));
    } else {
      StepKeepsInv(g, Delete(i));
    }
  }

  // ---- runs --------------------------------------------------------------

  /** Every event of the run refers to an existing record. */
  ghost predicate Possible(g: Gateway, run: seq<Event>)
    decreases |run|
  {
    run == [] || (Shaped(g) && Allowed(g, run[0]) && Possible(Step(g, run[0]), run[1..]))
  }

  ghost function After(g: Gateway, run: seq<Event>): Gateway
    requires Possible(g, run)
    decreases |run|
  {
    if run == [] then g else After(Step(g, run[0]), run[1..])
  }

  /** No record is deleted while its task is pending. */
  ghost predicate AllClean(g: Gateway, run: seq<Event>)
    requires Possible(g, run)
    decreases |run|
  {
    run == [] || (Clean(g, run[0]) && AllClean(Step(g, run[0]), run[1..]))
  }

  /** n records, all doors closed, nothing scheduled. */
  function Closed(n: nat, now: int): Gateway {
    Gateway(Sched([], now, [], multiset{}), seq(n, _ => 0), seq(n, _ => now), None, false)
  }

  lemma {:induction false} RunKeepsInv(g: Gateway, run: seq<Event>)
    requires Inv(g) && Possible(g, run) && AllClean(g, run)
    ensures Inv(After(g, run)) && |After(g, run).lock| == |g.lock|
    decreases |run|
  {
    if run != [] {
      StepKeepsInv(g, run[0]);
      RunKeepsInv(Step(g, run[0]), run[1..]);
    }
  }

  /** In every run with clean deletions lock_status is 1 exactly while the task is pending. */
  lemma OpenExactlyWhilePending(n: nat, now: int, run: seq<Event>, i: nat)
    requires i < n && Possible(Closed(n, now), run) && AllClean(Closed(n, now), run)
    ensures |After(Closed(n, now), run).lock| == n
    ensures After(Closed(n, now), run).lock[i] == 1 <==> Pending(After(Closed(n, now), run).sched.q, Dev(i))
    ensures After(Closed(n, now), run).lock[i] == 0 <==> !Pending(After(Closed(n, now), run).sched.q, Dev(i))
  {
    RunKeepsInv(Closed(n, now), run);
  }

  /** In every run with clean deletions the timer is armed while the list is not empty: no
      later than its least deadline, already expired once that has passed, and otherwise at
      a deadline of the list. */
  lemma TimerNeverLate(n: nat, now: int, run: seq<Event>)
    requires Possible(Closed(n, now), run) && AllClean(Closed(n, now), run)
    ensures var g := After(Closed(n, now), run);
      forall e :: e in g.sched.q ==>
        (g.timer.Some? && (g.timer.value <= e.Due() || g.timer.value <= g.sched.now) &&
         (e.Due() <= g.sched.now ==> g.timer.value <= g.sched.now))
    ensures var g := After(Closed(n, now), run);
      g.timer.Some? && g.timer.value > g.sched.now ==> exists e :: e in g.sched.q && e.start + e.delt == g.timer.value
  {
    RunKeepsInv(Closed(n, now), run);
  }

  /** lock_status falls only in a dispatcher run, and at least five seconds after the
      latest open event of that door. */
  lemma RelocksNotBeforeTime(g: Gateway, e: Event, i: nat)
    requires Inv(g) && Allowed(g, e) && Clean(g, e) && i < |g.lock|
    requires g.lock[i] == 1
    ensures |Step(g, e).lock| == |g.lock|
    ensures Step(g, e).lock[i] == 0 ==> e.TaskRun? && g.sched.now >= g.lastOpen[i] + 5000
  {
    if e.TaskRun? && g.sched.q != [] {
      InvEntry(g, g.sched.q[First(g.sched.q)]);
    }
  }

  /** The same for whole runs: from all doors closed, whatever happened in between, the
      event that closes door i is a dispatcher run no sooner than that. */
  lemma RunRelocksNotBeforeTime(n: nat, now: int, run: seq<Event>, e: Event, i: nat)
    requires i < n && Possible(Closed(n, now), run) && AllClean(Closed(n, now), run)
    requires var g := After(Closed(n, now), run); Shaped(g) && Allowed(g, e) && Clean(g, e)
    ensures var g := After(Closed(n, now), run);
      |g.lock| == |Step(g, e).lock| == |g.lastOpen| == n &&
      (g.lock[i] == 1 && Step(g, e).lock[i] == 0 ==> e.TaskRun? && g.sched.now >= g.lastOpen[i] + 5000)
  {
    RunKeepsInv(Closed(n, now), run);
    var g := After(Closed(n, now), run);
    if g.lock[i] == 1 {
      RelocksNotBeforeTime(g, e, i);
    }
  }

  // ---- every due door is relocked ----------------------------------------

  function DueCount(q: Queue<TaskRef>, now: int): nat {
    if q == [] then 0 else DueCount(q[..|q| - 1], now) + (if q[|q| - 1].Due() <= now then 1 else 0)
  }

  lemma {:induction false} DueCountSplit(p: Queue<TaskRef>, q: Queue<TaskRef>, now: int)
    ensures DueCount(p + q, now) == DueCount(p, now) + DueCount(q, now)
  {
    if q == [] {
      assert p + q == p;
    } else {
      assert (p + q)[..|p + q| - 1] == p + q[..|q| - 1];
      DueCountSplit(p, q[..|q| - 1], now);
    }
  }

  lemma DueCountSingle(e: Entry<TaskRef>, now: int)
    ensures DueCount([e], now) == if e.Due() <= now then 1 else 0
  {
    assert [e][..0] == [];
  }

  lemma DueCountDel(q: Queue<TaskRef>, k: nat, now: int)
    requires k < |q| && q[k].Due() <= now
    ensures DueCount(q[..k] + q[k + 1..], now) == DueCount(q, now) - 1
  {
    assert q == q[..k] + ([q[k]] + q[k + 1..]);
    DueCountSplit(q[..k], [q[k]] + q[k + 1..], now);
    DueCountSplit([q[k]], q[k + 1..], now);
    DueCountSplit(q[..k], q[k + 1..], now);
    DueCountSingle(q[k], now);
  }

  lemma {:induction false} DueCountZero(q: Queue<TaskRef>, now: int)
    ensures DueCount(q, now) == 0 <==> forall e :: e in q ==> e.Due() > now
  {
    if q != [] {
      DueCountZero(q[..|q| - 1], now);
      assert q == q[..|q| - 1] + [q[|q| - 1]];
    }
  }

  lemma DueCountAddLater(q: Queue<TaskRef>, e: Entry<TaskRef>, now: int)
    requires !Pending(q, e.task) && e.Due() > now
    ensures DueCount(Add(q, e), now) == DueCount(q, now)
  {
    assert IndexOf(q, e.task) == |q|;
    DueCountSplit(q, [e], now);
    DueCountSingle(e, now);
  }

  lemma DispatchServesOne(s: Sched<TaskRef>)
    requires Distinct(s.q) && DueCount(s.q, s.now) > 0
    ensures s.q != [] && s.q[First(s.q)].Due() <= s.now
    ensures DueCount(Del(s.q, s.q[First(s.q)].task), s.now) == DueCount(s.q, s.now) - 1
    ensures !Pending(Del(s.q, s.q[First(s.q)].task), s.q[First(s.q)].task)
  {
    hide DueCount, Distinct, IndexOf, Pending, Del;
    DueCountZero(s.q, s.now);
    var k := First(s.q);
    IndexIs(s.q, k);
    DueCountDel(s.q, k, s.now);
    DelAt(s.q, s.q[k].task);
    DelKeeps(s.q, s.q[k].task);
  }

  /** A dispatcher run with something due leaves one due entry fewer; the gateway's
      own task comes back only with a later deadline. */
  lemma TaskRunServesOne(g: Gateway, infoOk: bool)
    requires Inv(g) && DueCount(g.sched.q, g.sched.now) > 0
    ensures DueCount(Step(g, TaskRun(infoOk)).sched.q, g.sched.now) == DueCount(g.sched.q, g.sched.now) - 1
    ensures Step(g, TaskRun(infoOk)).sched.now == g.sched.now
  {
    hide DueCount, Good, Distinct, Pending, Del, Add, First, Dispatcher, Armed, TimerOk;
    GoodIsDistinct(g.sched);
    DispatchServesOne(g.sched);
    var e := g.sched.q[First(g.sched.q)];
    InvEntry(g, e);
    DispatcherIs(g, e, infoOk);
    if e.task.GwInfo? {
      DueCountAddLater(Del(g.sched.q, GwInfo),
                       Entry(GwInfo, GwInfoFunc, 0, g.sched.now, if infoOk then INFO_MS else RETRY_MS), g.sched.now);
    }
  }

  lemma DelAt(q: Queue<TaskRef>, t: TaskRef)
    requires IndexOf(q, t) < |q|
    ensures Del(q, t) == q[..IndexOf(q, t)] + q[IndexOf(q, t) + 1..]
  {
  }

  lemma IndexIs(q: Queue<TaskRef>, k: nat)
    requires Distinct(q) && k < |q|
    ensures IndexOf(q, q[k].task) == k
  {
  }

  /** One dispatcher run per element. */
  ghost function RunTasks(g: Gateway, infoOk: seq<bool>): Gateway
    requires Shaped(g)
    decreases |infoOk|
  {
    if infoOk == [] then g else RunTasks(Step(g, TaskRun(infoOk[0])), infoOk[1..])
  }

  lemma {:induction false} NothingDueNothingRuns(g: Gateway, infoOk: seq<bool>)
    requires Inv(g) && DueCount(g.sched.q, g.sched.now) == 0
    ensures Inv(RunTasks(g, infoOk)) && RunTasks(g, infoOk).sched == g.sched && RunTasks(g, infoOk).lock == g.lock
    decreases |infoOk|
  {
    DueCountZero(g.sched.q, g.sched.now);
    if infoOk != [] {
      TaskRunKeepsInv(g, infoOk[0]);
      NothingDueNothingRuns(Step(g, TaskRun(infoOk[0])), infoOk[1..]);
    }
  }

  /** As many dispatcher runs as there are due entries leave nothing due. */
  lemma {:induction false} DueTasksAreServed(g: Gateway, infoOk: seq<bool>)
    requires Inv(g) && |infoOk| >= DueCount(g.sched.q, g.sched.now)
    ensures Inv(RunTasks(g, infoOk))
    ensures forall e :: e in RunTasks(g, infoOk).sched.q ==> e.Due() > g.sched.now
    decreases |infoOk|
  {
    if DueCount(g.sched.q, g.sched.now) == 0 {
      NothingDueNothingRuns(g, infoOk);
      DueCountZero(g.sched.q, g.sched.now);
    } else {
      TaskRunKeepsInv(g, infoOk[0]);
      TaskRunServesOne(g, infoOk[0]);
      DueTasksAreServed(Step(g, TaskRun(infoOk[0])), infoOk[1..]);
    }
  }

  /** So no door is left open past its deadline. */
  lemma DueDoorsRelock(g: Gateway, infoOk: seq<bool>)
    requires Inv(g) && |infoOk| >= DueCount(g.sched.q, g.sched.now)
    ensures var g' := RunTasks(g, infoOk);
      forall i :: 0 <= i < |g'.lock| ==>
        (g'.lock[i] == 0 || exists e :: e in g'.sched.q && e.task == Dev(i) && e.Due() > g.sched.now)
  {
    DueTasksAreServed(g, infoOk);
    var g' := RunTasks(g, infoOk);
    forall i | 0 <= i < |g'.lock|
      ensures g'.lock[i] == 0 || exists e :: e in g'.sched.q && e.task == Dev(i) && e.Due() > g.sched.now
    {
      PendingIsMembership(g'.sched.q, Dev(i));
    }
  }

  // ---- what an unclean deletion costs ------------------------------------

  /** Nothing in the list can clear door j. */
  ghost predicate NoTimeoutFor(q: Queue<TaskRef>, j: nat) {
    forall e :: e in q ==> !(e.func == SubdevTimeoutFunc && e.arg == j)
  }

  /** Doors whose tasks were queued behind a deleted pending one lose them. */
  lemma DeletionDropsLaterTasks(g: Gateway, i: nat, j: nat)
    requires Inv(g) && i < |g.lock| && j < |g.lock|
    requires IndexOf(g.sched.q, Dev(i)) < IndexOf(g.sched.q, Dev(j)) < |g.sched.q|
    ensures g.lock[j] == 1 && Step(g, Delete(i)).lock[j] == 1
    ensures NoTimeoutFor(Step(g, Delete(i)).sched.q, j)
  {
    var q, k := g.sched.q, IndexOf(g.sched.q, Dev(i));
    assert q[IndexOf(q, Dev(j))].task == Dev(j);
    assert Pending(q, Dev(j));
    forall e | e in q[..k] ensures EntryOk(e, g.lastOpen) && e.task != Dev(j) {
      var m :| 0 <= m < k && q[m] == e;
      assert q[m] in q;
    }
  }

  ghost predicate Quiet(e: Event, j: nat) { e != Delete(j) && !(e.Open? && e.i == j) }

  lemma AddChangesFrom(q: Queue<TaskRef>, e: Entry<TaskRef>)
    ensures forall x :: x in Add(q, e) ==> x == e || x in q
  {
  }

  lemma DelChangesFrom(q: Queue<TaskRef>, t: TaskRef)
    ensures forall x :: x in Del(q, t) ==> x in q
  {
  }

  lemma ZeroedChangesFrom(q: Queue<TaskRef>, t: TaskRef)
    ensures forall x :: x in Zeroed(q, t) ==> x == Entry(t, NoFunc, 0, 0, 0) || x in q
  {
  }

  lemma DispatchStillNoTimeout(g: Gateway, infoOk: bool, j: nat)
    requires Shaped(g) && j < |g.lock| && NoTimeoutFor(g.sched.q, j) && g.lock[j] == 1
    ensures NoTimeoutFor(Step(g, TaskRun(infoOk)).sched.q, j) && Step(g, TaskRun(infoOk)).lock[j] == 1
  {
    hide Add, Del, First;
    var q := g.sched.q;
    if q != [] && q[First(q)].Due() <= g.sched.now {
      assert q[First(q)] in q;
      DelChangesFrom(q, q[First(q)].task);
      AddChangesFrom(Del(q, q[First(q)].task), Entry(GwInfo, GwInfoFunc, 0, g.sched.now, if infoOk then 20 * 60 * 1000 else 1000));
    }
  }

  lemma StillNoTimeout(g: Gateway, e: Event, j: nat)
    requires Shaped(g) && Allowed(g, e) && j < |g.lock|
    requires NoTimeoutFor(g.sched.q, j) && g.lock[j] == 1 && Quiet(e, j)
    ensures NoTimeoutFor(Step(g, e).sched.q, j) && Step(g, e).lock[j] == 1
  {
    hide Add, Zeroed;
    match e
    case Start => AddChangesFrom(g.sched.q, Entry(GwInfo, GwInfoFunc, 0, g.sched.now, 1000));
    case Open(i, postMs) => AddChangesFrom(g.sched.q, Entry(Dev(i), SubdevTimeoutFunc, i, g.sched.now + postMs, RELOCK_MS));
    case Wait(ms) =>
    case TaskRun(infoOk) => DispatchStillNoTimeout(g, infoOk, j);
    case Delete(i) => ZeroedChangesFrom(g.sched.q, Dev(i));
  }

  lemma {:induction false} CrashStays(g: Gateway, run: seq<Event>)
    requires Possible(g, run) && g.crashed
    ensures After(g, run) == g
    decreases |run|
  {
    if run != [] {
      CrashStays(g, run[1..]);
    }
  }

  /** As long as the program runs, a door that lost its task reports open until somebody
      opens it again or deletes it. */
  lemma {:induction false} LostTaskNeverRelocks(g: Gateway, run: seq<Event>, j: nat)
    requires Shaped(g) && j < |g.lock| && NoTimeoutFor(g.sched.q, j) && g.lock[j] == 1
    requires Possible(g, run) && forall k :: 0 <= k < |run| ==> Quiet(run[k], j)
    requires !After(g, run).crashed
    ensures |After(g, run).lock| == |g.lock| && After(g, run).lock[j] == 1
    decreases |run|
  {
    if run != [] {
      StillNoTimeout(g, run[0], j);
      LostTaskNeverRelocks(Step(g, run[0]), run[1..], j);
    }
  }

  // ---- the events in full ------------------------------------------------

  /** An open event: lock_status 1, this door's time noted, its task due 5000 ms after the
      post, and no other door or task touched. */
  lemma OpenEvent(g: Gateway, i: nat, postMs: nat)
    requires Inv(g) && i < |g.lock|
    ensures var g' := Step(g, Open(i, postMs)); var k := IndexOf(g.sched.q, Dev(i));
      g'.sched.now == g.sched.now + postMs && |g'.lock| == |g.lock| && |g'.lastOpen| == |g.lastOpen| == |g.lock| &&
      g'.lock[i] == 1 && g'.lastOpen[i] == g.sched.now &&
      (forall j :: 0 <= j < |g.lock| && j != i ==> g'.lock[j] == g.lock[j] && g'.lastOpen[j] == g.lastOpen[j]) &&
      k < |g'.sched.q| && g'.sched.q[k].task == Dev(i) && g'.sched.q[k].func == SubdevTimeoutFunc && g'.sched.q[k].arg == i &&
      g'.sched.q[k].start + g'.sched.q[k].delt == g'.sched.now + 5000 &&
      (forall j :: 0 <= j < |g.sched.q| && j != k ==> j < |g'.sched.q| && g'.sched.q[j] == g.sched.q[j])
  {
    hide Good, TimerOk, Armed, Add, IndexOf;
    AddPlaces(ScheduleSpec.Step(g.sched, Tick(postMs)), Dev(i), SubdevTimeoutFunc, i, RELOCK_MS);
  }

  /** When the task of a door is dispatched, lock_status of that door falls and no other,
      and the task is off the list. */
  lemma DoorTask(g: Gateway, k: nat, i: nat, infoOk: bool)
    requires Inv(g) && IsFirst(g.sched.q, k) && g.sched.q[k].task == Dev(i) && g.sched.q[k].start + g.sched.q[k].delt <= g.sched.now
    ensures var g' := Step(g, TaskRun(infoOk));
      g'.sched.q == g.sched.q[..k] + g.sched.q[k + 1..] && i < |g.lock| && g'.lock == g.lock[i := 0] && !g'.crashed
  {
    hide Good, TimerOk, Armed, First, Del, Dispatcher;
    var e := g.sched.q[k];
    FirstIsUnique(g.sched.q, k, First(g.sched.q));
    GoodIsDistinct(g.sched);
    DispatchPlaces(g.sched, k);
    assert e in g.sched.q;
    InvEntry(g, e);
    DispatcherIs(g, e, infoOk);
  }

  /** When the gateway's own task is dispatched it is added again, due in twenty minutes, or
      in one second if the network was not ready, and no door changes. */
  lemma GatewayTask(g: Gateway, k: nat, infoOk: bool)
    requires Inv(g) && IsFirst(g.sched.q, k) && g.sched.q[k].task == GwInfo && g.sched.q[k].start + g.sched.q[k].delt <= g.sched.now
    ensures var g' := Step(g, TaskRun(infoOk)); var n := |g.sched.q|;
      |g'.sched.q| == n && g'.sched.q[..n - 1] == g.sched.q[..k] + g.sched.q[k + 1..] && g'.lock == g.lock && !g'.crashed &&
      g'.sched.q[n - 1].task == GwInfo && g'.sched.q[n - 1].func == GwInfoFunc &&
      g'.sched.q[n - 1].start + g'.sched.q[n - 1].delt == g.sched.now + (if infoOk then 1200000 else 1000)
  {
    hide Good, TimerOk, Armed, First, Del, Dispatcher, Add, Pending, Distinct;
    var q, e := g.sched.q, g.sched.q[k];
    FirstIsUnique(q, k, First(q));
    GoodIsDistinct(g.sched);
    DispatchPlaces(g.sched, k);
    assert e in q;
    InvEntry(g, e);
    DispatcherIs(g, e, infoOk);
    var s := Fired(g, e).sched;
    AbsentAfter(q, k);
    AddedBehind(s, if infoOk then INFO_MS else RETRY_MS);
  }

  lemma AbsentAfter(q: Queue<TaskRef>, k: nat)
    requires Distinct(q) && k < |q|
    ensures !Pending(q[..k] + q[k + 1..], q[k].task)
  {
    var r := q[..k] + q[k + 1..];
    assert forall j :: 0 <= j < |r| ==> r[j] == q[if j < k then j else j + 1];
  }

  lemma AddedBehind(s: Sched<TaskRef>, ms: int)
    requires !Pending(s.q, GwInfo)
    ensures ScheduleSpec.Step(s, AddOp(GwInfo, GwInfoFunc, 0, ms)).q == s.q + [Entry(GwInfo, GwInfoFunc, 0, s.now, ms)]
  {
    assert IndexOf(s.q, GwInfo) == |s.q|;
    hide IndexOf;
  }

  /** At the start the gateway's own task is due in one second. */
  lemma StartEvent(n: nat, now: int)
    ensures var g := Step(Closed(n, now), Start);
      g.sched.q == [Entry(GwInfo, GwInfoFunc, 0, now, 1000)] && g.timer == Some(now + 1000) && g.lock == Closed(n, now).lock
  {
  }

  /** A deletion clears this door and zeroes its node if that is in the list; time, timer and
      the other doors stay. Waiting only lets time pass. */
  lemma DeleteAndWait(g: Gateway, i: nat, ms: nat)
    requires Shaped(g) && i < |g.lock| && !g.crashed
    ensures var g' := Step(g, Delete(i));
      g'.lock == g.lock[i := 0] && g'.lastOpen == g.lastOpen && g'.timer == g.timer && g'.sched.now == g.sched.now &&
      (!Pending(g.sched.q, Dev(i)) ==> g'.sched.q == g.sched.q)
    ensures Step(g, Wait(ms)) == g.(sched := g.sched.(now := g.sched.now + ms))
  {
    if !Pending(g.sched.q, Dev(i)) {
      NotPendingUntouched(g.sched.q, Dev(i));
    }
  }
}
