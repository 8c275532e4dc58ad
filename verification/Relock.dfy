/** The door-open handlers and the dispatcher of afly.c over the linked timer list,
    shown to take exactly the steps of RelockSpec. */
module Relock {
  import opened Wrappers
  import opened ScheduleSpec
  import opened RelockSpec
  import opened Schedule

  /** Node 0 is the gateway's, node i + 1 sits in device record i. */
  ghost function RefOf(t: Task): TaskRef {
    if t.id == 0 then GwInfo else Dev(t.id - 1)
  }

  ghost function RefEntry(e: Entry<Task>): Entry<TaskRef> {
    Entry(RefOf(e.task), e.func, e.arg, e.start, e.delt)
  }

  ghost function Refs(q: Queue<Task>): (r: Queue<TaskRef>)
    ensures |r| == |q| && forall i :: 0 <= i < |q| ==> r[i] == RefEntry(q[i])
  {
    seq(|q|, i requires 0 <= i < |q| => RefEntry(q[i]))
  }

  /** Different nodes of q and t have different numbers. */
  ghost predicate Apart(q: Queue<Task>, t: Task) {
    forall i :: 0 <= i < |q| && q[i].task.id == t.id ==> q[i].task == t
  }

  lemma RefIndex(q: Queue<Task>, t: Task)
    requires Apart(q, t)
    ensures IndexOf(Refs(q), RefOf(t)) == IndexOf(q, t)
  {
    var i, r := IndexOf(q, t), Refs(q);
    assert forall j :: 0 <= j < |q| ==> (r[j].task == RefOf(t) <==> q[j].task == t);
    FirstIndex(r, RefOf(t), i);
  }

  lemma FirstIndex(r: Queue<TaskRef>, t: TaskRef, i: nat)
    requires i <= |r| && (i < |r| ==> r[i].task == t) && forall j :: 0 <= j < i ==> r[j].task != t
    ensures IndexOf(r, t) == i
  {
  }

  lemma RefAdd(q: Queue<Task>, e: Entry<Task>)
    requires Apart(q, e.task)
    ensures Refs(Add(q, e)) == Add(Refs(q), RefEntry(e))
  {
    hide IndexOf;
    RefIndex(q, e.task);
  }

  lemma RefDel(q: Queue<Task>, t: Task)
    requires Apart(q, t)
    ensures Refs(Del(q, t)) == Del(Refs(q), RefOf(t))
  {
    hide IndexOf;
    RefIndex(q, t);
  }

  lemma RefZeroed(q: Queue<Task>, t: Task)
    requires Apart(q, t)
    ensures Refs(Zeroed(q, t)) == Zeroed(Refs(q), RefOf(t))
  {
    hide IndexOf;
    RefIndex(q, t);
  }

  lemma RefFirst(q: Queue<Task>)
    requires q != []
    ensures First(Refs(q)) == First(q)
  {
    hide First;
    var k, r := First(q), Refs(q);
    assert forall j :: 0 <= j < |q| ==> r[j].Due() == q[j].Due();
    FirstIsUnique(r, k, First(r));
  }

  /** The parts of stSubDev that relocking touches. */
  class LockDev {
    var lockStatus: int
    const task: Task

    constructor (ghost i: nat)
      ensures lockStatus == 0 && task.id == i + 1 && fresh(task)
    {
      lockStatus := 0;
      task := new Task(i + 1);
    }
  }

  class RelockGateway {
    const devs: seq<LockDev>
    const gwTask: Task
    const list: TaskList

    /** What CLOCK_MONOTONIC reads, in milliseconds. */
    var now: int

    /** When task_timer fires; None while it is not set. */
    var timer: Option<int>

    /** A null function has been called: nothing runs any more. */
    var crashed: bool

    // What the C program does not keep: the calls made, the adds, the open events.
    ghost var ran: seq<Ran<TaskRef>>
    ghost var added: multiset<TaskRef>
    ghost var lastOpen: seq<int>

    /** n zeroed records, at clock reading now. */
    constructor (n: nat, now: int)
      ensures Valid() && View() == Closed(n, now)
    {
      var ds: seq<LockDev> := [];
      for i := 0 to n
        invariant |ds| == i
        invariant forall j :: 0 <= j < i ==> ds[j].task.id == j + 1 && ds[j].lockStatus == 0 && fresh(ds[j])
        invariant forall j, k :: 0 <= j < k < i ==> ds[j] != ds[k]
      {
        var d := new LockDev(i);
        ds := ds + [d];
      }
      devs := ds;
      gwTask := new Task(0);
      list := new TaskList();
      this.now := now;
      timer, crashed := None, false;
      ran, added, lastOpen := [], multiset{}, seq(n, _ => now);
    }

    ghost predicate Known(t: Task) {
      t == gwTask || (0 < t.id <= |devs| && t == devs[t.id - 1].task)
    }

    ghost predicate Valid()
      reads this, list, list.Nodes, devs
    {
      list.Valid() && |lastOpen| == |devs| && gwTask.id == 0 &&
      (forall i :: 0 <= i < |devs| ==> devs[i].task.id == i + 1) &&
      (forall i, j :: 0 <= i < j < |devs| ==> devs[i] != devs[j]) &&
      (forall n :: n in list.Nodes ==> Known(n))
    }

    ghost function Locks(): (s: seq<int>)
      reads this, devs
      ensures |s| == |devs| && forall i :: 0 <= i < |devs| ==> s[i] == devs[i].lockStatus
    {
      seq(|devs|, i requires 0 <= i < |devs| reads this, devs => devs[i].lockStatus)
    }

    ghost function View(): (g: Gateway)
      reads this, list, list.Nodes, devs
      ensures Shaped(g) <==> |devs| == |lastOpen|
    {
      Gateway(Sched(Refs(list.Entries()), now, ran, added), Locks(), lastOpen, timer, crashed)
    }

    lemma KnownApart(t: Task)
      requires Valid() && Known(t)
      ensures Apart(list.Entries(), t)
    {
      forall i | 0 <= i < |list.Nodes| ensures Known(list.Nodes[i]) {
        assert list.Nodes[i] in list.Nodes;
      }
    }

    /** A timer add, on the list and on its view. */
    method AddTask(t: Task, ms: int, func: Func, arg: int)
      requires Valid() && Known(t)
      modifies `added, list, list.Nodes, t
      ensures Valid() && list.Nodes != []
      ensures View() == old(View()).(sched := ScheduleSpec.Step(old(View()).sched, AddOp(RefOf(t), func, arg, ms)))
    {
      hide Add, Apart, TaskList.Entries;
      KnownApart(t);
      RefAdd(list.Entries(), Entry(t, func, arg, now, ms));
      list.Add(t, ms, func, arg, now);
      added := added + multiset{RefOf(t)};
    }

    /** schedue_first_task_delay, said of the entry to be dispatched. */
    method Delay() returns (delt: int)
      requires Valid()
      ensures delt >= -1 && (delt == -1 <==> list.Nodes == [])
      ensures list.Nodes != [] ==> now + delt == Max(now, list.Entries()[First(list.Entries())].Due())
    {
      hide First, TaskList.Entries;
      delt := list.FirstTaskDelay(now);
      if list.Nodes != [] {
        assert list.Entries()[First(list.Entries())] in list.Entries();
      }
    }

    /** timer_set with the delay of the first task, which replaces what was set. */
    method Arm()
      requires Valid() && list.Nodes != []
      modifies `timer
      ensures Valid() && View() == old(View()).(timer := Armed(old(View()).sched))
    {
      hide First, TaskList.Entries;
      RefFirst(list.Entries());
      var delt := Delay();
      timer := Some(now + delt);
    }

    /** afly_init: the gateway's own task and the timer. */
    method Init()
      requires Valid() && !crashed
      modifies this, list, list.Nodes, gwTask
      ensures Valid() && View() == RelockSpec.Step(old(View()), Start)
    {
      hide Armed;
      AddTask(gwTask, 1000, GwInfoFunc, 0);
      Arm();
    }

    method SetLock(i: nat, status: int)
      requires Valid() && i < |devs|
      modifies devs[i]
      ensures Valid() && View() == old(View()).(lock := old(View()).lock[i := status])
    {
      devs[i].lockStatus := status;
      assert Locks() == old(Locks())[i := status];
    }

    /** The door-open branches of afly_nxp_rpt_event; posting LockState takes postMs. */
    method OpenDoor(i: nat, postMs: nat)
      requires Valid() && !crashed && i < |devs|
      modifies this, list, list.Nodes, devs[i], devs[i].task
      ensures Valid() && View() == RelockSpec.Step(old(View()), Open(i, postMs))
    {
      hide Add, Valid, Armed;
      assert RefOf(devs[i].task) == Dev(i) && Known(devs[i].task) && |lastOpen| == |devs| by { ValidParts(i); }
      SetLock(i, 1);
      Post(i, postMs);
      AddTask(devs[i].task, RELOCK_MS, SubdevTimeoutFunc, i);
      Arm();
    }

    lemma ValidParts(i: nat)
      requires Valid() && i < |devs|
      ensures RefOf(devs[i].task) == Dev(i) && Known(devs[i].task) && |lastOpen| == |devs| == |View().lock|
      ensures View().crashed == crashed
    {
    }

    /** The blocking post of the property: time passes. */
    method Post(i: nat, postMs: nat)
      requires Valid() && i < |lastOpen|
      modifies `now, `lastOpen
      ensures Valid() && now == old(now) + postMs
      ensures View() == old(View()).(sched := old(View()).sched.(now := now), lastOpen := old(lastOpen)[i := old(now)])
    {
      lastOpen := lastOpen[i := now];
      now := now + postMs;
    }

    method ZeroTask(t: Task)
      requires Valid() && Known(t)
      modifies t, list`Nodes
      ensures Valid()
      ensures View() == old(View()).(sched := old(View()).sched.(q := Zeroed(old(View()).sched.q, RefOf(t))))
    {
      hide Zeroed;
      KnownApart(t);
      RefZeroed(list.Entries(), t);
      list.ZeroNode(t);
    }

    /** product_sub_free of record i: the memset covers lock_status and the timer node. */
    method Free(i: nat)
      requires Valid() && !crashed && i < |devs|
      modifies devs[i], devs[i].task, list`Nodes
      ensures Valid() && View() == RelockSpec.Step(old(View()), Delete(i))
    {
      hide Zeroed, Add, Del, Valid, View, Locks;
      ValidParts(i);
      SetLock(i, 0);
      ZeroTask(devs[i].task);
    }

    /** schedue_del of the task chosen, on the list and on its view. */
    method TakeFirst() returns (task: Task)
      requires Valid() && list.Nodes != []
      requires list.Entries()[First(list.Entries())].Due() <= now
      modifies list, list.Nodes, `ran
      ensures Valid()
      ensures old(View()).sched.q != []
      ensures RefEntry(task.Entry()) == old(View()).sched.q[First(old(View()).sched.q)]
      ensures View() == old(View()).(sched := ScheduleSpec.Step(old(View()).sched, Dispatch))
      ensures forall n :: n in list.Nodes ==> n in old(list.Nodes)
      ensures |View().sched.ran| == |old(View()).sched.ran| + 1
      ensures View().sched.ran[|old(View()).sched.ran|].entry == RefEntry(task.Entry())
    {
      hide Del, First, ScheduleSpec.Step, RefEntry;
      var t := list.FirstTaskToExec();
      task := t;
      Chosen(task);
      ran := ran + [Ran(RefEntry(task.Entry()), now, Refs(list.Entries()))];
      list.Del(task);
    }

    /** What a dispatch is on the view when task is the one chosen. */
    lemma Chosen(task: Task)
      requires Valid() && list.Nodes != [] && task == list.Nodes[First(list.Entries())]
      requires task.Entry().Due() <= now
      ensures View().sched.q != [] && RefEntry(task.Entry()) == View().sched.q[First(View().sched.q)]
      ensures ScheduleSpec.Step(View().sched, Dispatch) == View().sched.(q := Refs(ScheduleSpec.Del(list.Entries(), task)),
        ran := ran + [Ran(RefEntry(task.Entry()), now, Refs(list.Entries()))])
    {
      hide ScheduleSpec.Del, First;
      RefFirst(list.Entries());
      assert task in list.Nodes;
      KnownApart(task);
      RefDel(list.Entries(), task);
    }

    /** The call through task->func. */
    method Call(task: Task, infoOk: bool)
      requires Valid() && !crashed
      modifies this, list, list.Nodes, devs, gwTask
      ensures Valid() && View() == Callback(old(View()), old(RefEntry(task.Entry())), infoOk)
    {
      hide Armed;
      match task.func {
        case SubdevTimeoutFunc =>
          if 0 <= task.arg < |devs| {
            SetLock(task.arg, 0);
          }
        case GwInfoFunc =>
          AddTask(gwTask, if infoOk then 20 * 60 * 1000 else 1000, GwInfoFunc, 0);
          Arm();
        case NoFunc =>
          crashed := true;
      }
    }

    /** The delt == 0 branch of afly_handler_task_run. */
    method RunDue(infoOk: bool)
      requires Valid() && !crashed && list.Nodes != []
      requires list.Entries()[First(list.Entries())].Due() <= now
      modifies this, list, list.Nodes, devs, gwTask
      ensures Valid() && View() == Called(old(View()), infoOk) && View().crashed == crashed
    {
      hide ScheduleSpec.Step, Callback, Valid, First;
      var task := TakeFirst();
      assert forall i :: 0 <= i < |list.Nodes| ==> list.Nodes[i] in old(list.Nodes);
      Call(task, infoOk);
    }

    /** With nothing due nothing is called, and an empty list gives no time to set. */
    lemma IdleWithoutDue(infoOk: bool)
      requires Valid()
      ensures list.Nodes == [] || list.Entries()[First(list.Entries())].Due() > now ==> Called(View(), infoOk) == View()
      ensures list.Nodes == [] ==> View().sched.q == [] && Armed(View().sched) == None
      ensures View().crashed == crashed
    {
      hide First;
      if list.Nodes != [] {
        RefFirst(list.Entries());
      }
    }

    /** First half of afly_handler_task_run, up to the callback's return. */
    method RunIfDue(infoOk: bool) returns (pending: bool)
      requires Valid() && !crashed
      modifies this, list, list.Nodes, devs, gwTask
      ensures Valid() && View() == Called(old(View()), infoOk) && View().crashed == crashed
      ensures !pending ==> list.Nodes == []
    {
      hide Called, First, Valid, View, Locks;
      IdleWithoutDue(infoOk);
      var delt := Delay();
      pending := delt >= 0;
      if delt == 0 {
        RunDue(infoOk);
      }
    }

    method Disarm()
      requires Valid()
      modifies `timer
      ensures Valid() && View() == old(View()).(timer := None) && crashed == old(crashed)
    {
      timer := None;
    }

    /** afly_handler_task_run, called by timer_advance, which has unset the timer. */
    method HandlerTaskRun(infoOk: bool)
      requires Valid() && !crashed
      modifies this, list, list.Nodes, devs, gwTask
      ensures Valid() && View() == RelockSpec.Step(old(View()), TaskRun(infoOk))
    {
      hide Called, First, Valid, Locks, Armed;
      assert View().crashed == crashed;
      Disarm();
      EmptyLeavesTimer(View(), infoOk);
      var pending := RunIfDue(infoOk);
      if crashed {
        return;
      }
      IdleWithoutDue(infoOk);
      if !pending {
        return;
      }
      var delt := Delay();
      if delt < 0 {
        return;
      }
      Arm();
    }
  }
}
