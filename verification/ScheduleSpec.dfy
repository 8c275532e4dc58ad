/** What the timer list of schedule.c means: a sequence of entries, oldest add first. */
module ScheduleSpec {
  /** The two callbacks the gateway schedules, and the null of a zeroed record. */
  datatype Func = NoFunc | GwInfoFunc | SubdevTimeoutFunc

  datatype Entry<T> = Entry(task: T, func: Func, arg: int, start: int, delt: int) {
    function Due(): int { start + delt }
  }

  type Queue<T> = seq<Entry<T>>

  /** No task is in the queue twice. */
  ghost predicate Distinct<T>(q: Queue<T>) {
    forall i, j :: 0 <= i < j < |q| ==> q[i].task != q[j].task
  }

  ghost predicate Pending<T>(q: Queue<T>, t: T) {
    exists i :: 0 <= i < |q| && q[i].task == t
  }

  /** Position of a task, or the length of the queue. */
  function IndexOf<T(==)>(q: Queue<T>, t: T): (i: nat)
    ensures i <= |q|
    ensures i < |q| ==> q[i].task == t
    ensures forall j :: 0 <= j < i ==> q[j].task != t
  {
    if q == [] then 0 else if q[0].task == t then 0 else 1 + IndexOf(q[1..], t)
  }

  /** schedue_add: an absent task goes to the end, a present one only gets a new deadline. */
  function Add<T(==)>(q: Queue<T>, e: Entry<T>): Queue<T> {
    var i := IndexOf(q, e.task);
    if i < |q| then q[i := e] else q + [e]
  }

  /** schedue_del. */
  function Del<T(==)>(q: Queue<T>, t: T): Queue<T> {
    var i := IndexOf(q, t);
    if i < |q| then q[..i] + q[i + 1..] else q
  }

  /** The list as found from its head once the node of task t has been zeroed, its
      next field included: the zeroed node ends it. */
  function Zeroed<T(==)>(q: Queue<T>, t: T): Queue<T> {
    var k := IndexOf(q, t);
    if k < |q| then q[..k] + [Entry(t, NoFunc, 0, 0, 0)] else q
  }

  /** Index of the last entry of least deadline. */
  ghost predicate IsFirst<T>(q: Queue<T>, k: int) {
    0 <= k < |q| &&
    (forall j :: 0 <= j < |q| ==> q[k].Due() <= q[j].Due()) &&
    (forall j :: k < j < |q| ==> q[k].Due() < q[j].Due())
  }

  function First<T>(q: Queue<T>): (k: nat)
    requires q != []
    ensures IsFirst(q, k)
  {
    if |q| == 1 then 0
    else
      var k := First(q[..|q| - 1]);
      assert forall j :: 0 <= j < |q| - 1 ==> q[..|q| - 1][j] == q[j];
      if q[|q| - 1].Due() <= q[k].Due() then |q| - 1 else k
  }

  lemma FirstIsUnique<T>(q: Queue<T>, k: int, k': int)
    requires IsFirst(q, k) && IsFirst(q, k')
    ensures k == k'
  {
    assert q[k].Due() <= q[k'].Due() && q[k'].Due() <= q[k].Due();
  }

  lemma AddKeeps<T>(q: Queue<T>, e: Entry<T>)
    requires Distinct(q)
    ensures Distinct(Add(q, e)) && Pending(Add(q, e), e.task)
    ensures forall x :: x in Add(q, e) <==> x == e || (x in q && x.task != e.task)
    ensures forall t :: t != e.task ==> (Pending(Add(q, e), t) <==> Pending(q, t))
  {
    var r, i := Add(q, e), IndexOf(q, e.task);
    assert r[i] == e;
    forall x | x in q && x.task != e.task ensures x in r {
      var j :| 0 <= j < |q| && q[j] == x;
      assert r[j] == x;
    }
    forall t | t != e.task ensures Pending(r, t) <==> Pending(q, t) {
      if Pending(q, t) {
        var j :| 0 <= j < |q| && q[j].task == t;
        assert r[j].task == t;
      }
    }
  }

  /** Where entry j of q ends up when entry i is taken out. */
  function Shifted(i: nat, j: nat): nat
    requires j != i
  {
    if j < i then j else j - 1
  }

  lemma DelMembers<T>(q: Queue<T>, t: T)
    requires Distinct(q)
    ensures Distinct(Del(q, t))
    ensures forall x :: x in Del(q, t) <==> x in q && x.task != t
  {
    var r, i := Del(q, t), IndexOf(q, t);
    forall x | x in q && x.task != t ensures x in r {
      var j :| 0 <= j < |q| && q[j] == x;
      assert r[if i < |q| then Shifted(i, j) else j] == x;
    }
  }

  lemma PendingIsMembership<T>(q: Queue<T>, t: T)
    ensures Pending(q, t) <==> exists x :: x in q && x.task == t
  {
    if Pending(q, t) {
      var i :| 0 <= i < |q| && q[i].task == t;
      assert q[i] in q;
    }
  }

  lemma DelKeeps<T>(q: Queue<T>, t: T)
    requires Distinct(q)
    ensures Distinct(Del(q, t)) && !Pending(Del(q, t), t)
    ensures forall x :: x in Del(q, t) <==> x in q && x.task != t
    ensures forall u :: u != t ==> (Pending(Del(q, t), u) <==> Pending(q, u))
  {
    hide Del, Pending;
    DelMembers(q, t);
    PendingIsMembership(Del(q, t), t);
    forall u | u != t ensures Pending(Del(q, t), u) <==> Pending(q, u) {
      PendingIsMembership(q, u);
      PendingIsMembership(Del(q, t), u);
    }
  }

  /** Deleting what was just appended restores the queue. */
  lemma DelUndoesAdd<T>(q: Queue<T>, e: Entry<T>)
    requires !Pending(q, e.task)
    ensures Del(Add(q, e), e.task) == q
  {
    assert IndexOf(q, e.task) == |q|;
    var r := q + [e];
    assert r[|q|].task == e.task;
    assert IndexOf(r, e.task) == |q|;
  }

  // ---- runs --------------------------------------------------------------

  /** One call of a callback: what was run, when, and the queue it was chosen from. */
  datatype Ran<T> = Ran(entry: Entry<T>, at: int, among: Queue<T>)

  /** The list, the monotone clock, the calls so far and the adds so far. */
  datatype Sched<T> = Sched(q: Queue<T>, now: int, ran: seq<Ran<T>>, added: multiset<T>)

  /** What can happen; whatever a callback does to the list comes as the next operations. */
  datatype Op<T> =
    | AddOp(task: T, func: Func, arg: int, ms: int)
    | DelOp(task: T)
    | Tick(d: nat)
    | Dispatch

  function Step<T(==)>(s: Sched<T>, op: Op<T>): Sched<T> {
    match op
    case AddOp(t, f, a, ms) => s.(q := Add(s.q, Entry(t, f, a, s.now, ms)), added := s.added + multiset{t})
    case DelOp(t) => s.(q := Del(s.q, t))
    case Tick(d) => s.(now := s.now + d)
    case Dispatch =>
      if s.q == [] || s.q[First(s.q)].Due() > s.now then s
      else
        var e := s.q[First(s.q)];
        s.(q := Del(s.q, e.task), ran := s.ran + [Ran(e, s.now, s.q)])
  }

  function Run<T(==)>(s: Sched<T>, ops: seq<Op<T>>): Sched<T> {
    if ops == [] then s else Step(Run(s, ops[..|ops| - 1]), ops[|ops| - 1])
  }

  function TimesRan<T(==)>(ran: seq<Ran<T>>, t: T): nat {
    if ran == [] then 0
    else TimesRan(ran[..|ran| - 1], t) + (if ran[|ran| - 1].entry.task == t then 1 else 0)
  }

  /** Not early, and nothing pending was due before it. */
  ghost predicate RanWell<T>(r: Ran<T>) {
    r.entry.Due() <= r.at && r.entry in r.among &&
    forall e :: e in r.among ==> r.entry.Due() <= e.Due()
  }

  ghost predicate Good<T(!new)>(s: Sched<T>) {
    Distinct(s.q) &&
    (forall i :: 0 <= i < |s.ran| ==> RanWell(s.ran[i])) &&
    (forall t :: TimesRan(s.ran, t) + (if Pending(s.q, t) then 1 else 0) <= s.added[t])
  }

  lemma StepKeepsGood<T(!new)>(s: Sched<T>, op: Op<T>)
    requires Good(s)
    ensures Good(Step(s, op))
  {
    match op
    case AddOp(t, f, a, ms) => AddKeeps(s.q, Entry(t, f, a, s.now, ms));
    case DelOp(t) => DelKeeps(s.q, t);
    case Tick(d) =>
    case Dispatch =>
      if s.q != [] && s.q[First(s.q)].Due() <= s.now {
        var e := s.q[First(s.q)];
        DelKeeps(s.q, e.task);
        var r := Ran(e, s.now, s.q);
        assert RanWell(r);
        assert Pending(s.q, e.task);
        var s' := Step(s, op);
        assert s'.ran[..|s'.ran| - 1] == s.ran;
      }
  }

  /** In every run from the empty list: no callback is early, each had the least
      deadline among those pending, and no task is called more often than added. */
  lemma {:induction false} EveryRunIsGood<T(!new)>(start: int, ops: seq<Op<T>>)
    ensures Good(Run(Sched([], start, [], multiset{}), ops))
  {
    if ops != [] {
      EveryRunIsGood(start, ops[..|ops| - 1]);
      StepKeepsGood(Run(Sched([], start, [], multiset{}), ops[..|ops| - 1]), ops[|ops| - 1]);
    }
  }

  /** A dispatch does nothing exactly when nothing is due. */
  lemma DispatchRunsSomethingDue<T>(s: Sched<T>)
    ensures |Step(s, Dispatch).ran| == |s.ran| + 1 <==> exists e :: e in s.q && e.Due() <= s.now
  {
    if s.q != [] && s.q[First(s.q)].Due() <= s.now {
      assert s.q[First(s.q)] in s.q;
    }
  }

  // ---- the operations entry by entry -------------------------------------

  /** An absent task goes to the end, and a present one keeps its place; its entry then has
      the function and argument given and is due ms from now. */
  lemma AddPlaces<T>(s: Sched<T>, t: T, func: Func, arg: int, ms: int)
    ensures var q' := Step(s, AddOp(t, func, arg, ms)).q; var i := IndexOf(s.q, t);
      |q'| == (if i < |s.q| then |s.q| else |s.q| + 1) && q'[i].task == t && q'[i].func == func && q'[i].arg == arg &&
      q'[i].start + q'[i].delt == s.now + ms && (forall j :: 0 <= j < |s.q| && j != i ==> q'[j] == s.q[j])
    ensures !Pending(s.q, t) ==> IndexOf(s.q, t) == |s.q|
  {
    hide IndexOf;
  }

  /** A deleted task's entry is gone, and the entries behind it move up by one. */
  lemma DelPlaces<T>(q: Queue<T>, t: T, i: nat)
    requires Distinct(q) && i < |q| && q[i].task == t
    ensures |Del(q, t)| == |q| - 1
    ensures forall j :: 0 <= j < i ==> Del(q, t)[j] == q[j]
    ensures forall j :: i <= j < |q| - 1 ==> Del(q, t)[j] == q[j + 1]
  {
    assert IndexOf(q, t) == i;
    hide IndexOf;
  }

  /** A dispatch with something due takes out the last entry with the least start plus
      delt and calls it now; what is due is what has start plus delt past. */
  lemma DispatchPlaces<T>(s: Sched<T>, k: nat)
    requires Distinct(s.q) && k < |s.q| && s.q[k].start + s.q[k].delt <= s.now
    requires forall j :: 0 <= j < |s.q| ==> s.q[k].start + s.q[k].delt <= s.q[j].start + s.q[j].delt
    requires forall j :: k < j < |s.q| ==> s.q[k].start + s.q[k].delt < s.q[j].start + s.q[j].delt
    ensures Step(s, Dispatch) == s.(q := s.q[..k] + s.q[k + 1..], ran := s.ran + [Ran(s.q[k], s.now, s.q)])
  {
    hide First;
    FirstIsUnique(s.q, k, First(s.q));
    assert IndexOf(s.q, s.q[k].task) == k;
  }

  /** A zeroed node stays where it is with all fields zero, and ends the list. */
  lemma ZeroedPlaces<T>(q: Queue<T>, t: T, i: nat)
    requires Distinct(q) && i < |q| && q[i].task == t
    ensures |Zeroed(q, t)| == i + 1 && Zeroed(q, t)[i] == Entry(t, NoFunc, 0, 0, 0)
    ensures forall j :: 0 <= j < i ==> Zeroed(q, t)[j] == q[j]
  {
    assert IndexOf(q, t) == i;
    hide IndexOf;
  }
}
