/** The intrusive singly linked timer list of schedule.c. */
module Schedule {
  import opened ScheduleSpec

  /** stSchduleTask_t. */
  class Task {
    var func: Func
    var arg: int
    var start: int
    var delt: int
    var next: Task?

    /** Which static node this is; ghost, since the C structure does not know. */
    ghost const id: nat

    constructor (ghost id: nat)
      ensures this.id == id
    {
      this.id := id;
      func, arg, start, delt, next := NoFunc, 0, 0, 0, null;
    }

    ghost function Entry(): Entry<Task>
      reads this
    {
      ScheduleSpec.Entry.Entry(this, func, arg, start, delt)
    }
  }

  class TaskList {
    /** The file's static task_list. */
    var head: Task?

    /** The nodes reached from head, in order. */
    ghost var Nodes: seq<Task>

    constructor ()
      ensures Valid() && Nodes == []
    {
      head := null;
      Nodes := [];
    }

    ghost function Link(i: nat): Task?
      reads this
    {
      if i < |Nodes| then Nodes[i] else null
    }

    /** Following next from head visits Nodes once each and stops: the list is acyclic. */
    ghost predicate Valid()
      reads this, Nodes
    {
      head == Link(0) &&
      (forall i {:trigger Nodes[i].next} :: 0 <= i < |Nodes| ==> Nodes[i].next == Link(i + 1)) &&
      (forall i, j :: 0 <= i < j < |Nodes| ==> Nodes[i] != Nodes[j])
    }

    /** The list as a queue of entries. */
    ghost function Entries(): (q: Queue<Task>)
      reads this, Nodes
      ensures |q| == |Nodes| && forall i :: 0 <= i < |q| ==> q[i] == Nodes[i].Entry()
    {
      seq(|Nodes|, i requires 0 <= i < |Nodes| reads this, Nodes => Nodes[i].Entry())
    }

    /** schedue_search. */
    method Search(at: Task) returns (curr: Task?)
      requires Valid()
      ensures curr == (if at in Nodes then at else null)
    {
      curr := head;
      ghost var i := 0;
      while curr != null
        invariant 0 <= i <= |Nodes| && curr == Link(i) && at !in Nodes[..i]
        decreases |Nodes| - i
      {
        if curr == at {
          break;
        }
        curr := curr.next;
        i := i + 1;
      }
    }

    /** _schedue_add. */
    method Append(at: Task)
      requires Valid() && at !in Nodes
      modifies this, Nodes`next, at`next
      ensures Valid() && Nodes == old(Nodes) + [at]
      ensures Entries() == old(Entries()) + [old(at.Entry())]
    {
      var prev := head;
      ghost var i := 0;
      while prev != null && prev.next != null
        invariant prev == Link(i) && (Nodes != [] ==> i < |Nodes|)
        decreases |Nodes| - i
      {
        prev := prev.next;
        i := i + 1;
      }
      if prev == null {
        head := at;
      } else {
        prev.next := at;
      }
      at.next := null;
      Nodes := Nodes + [at];
    }

    /** The four stores of schedue_add. */
    method Fill(at: Task, ms: int, func: Func, arg: int, now: int, ghost i: nat)
      requires Valid() && i < |Nodes| && Nodes[i] == at
      modifies at`func, at`arg, at`start, at`delt
      ensures Valid() && Entries() == old(Entries())[i := ScheduleSpec.Entry.Entry(at, func, arg, now, ms)]
    {
      at.func := func;
      at.arg := arg;
      at.start := now;
      at.delt := ms;
    }

    /** schedue_add at clock reading now. */
    method Add(at: Task, ms: int, func: Func, arg: int, now: int)
      requires Valid()
      modifies this, Nodes, at
      ensures Valid() && Nodes == old(if at in Nodes then Nodes else Nodes + [at])
      ensures Entries() == ScheduleSpec.Add(old(Entries()), ScheduleSpec.Entry.Entry(at, func, arg, now, ms))
    {
      hide IndexOf, Entries;
      ghost var q, i: nat := Entries(), |Nodes|;
      var s := Search(at);
      if s == null {
        IndexOfNode(at, i);
        Append(at);
        assert Entries()[..|q|] == q;
      } else {
        i :| 0 <= i < |Nodes| && Nodes[i] == at;
        IndexOfNode(at, i);
      }
      Fill(at, ms, func, arg, now, i);
    }

    /** schedue_first_task_to_exec. */
    method FirstTaskToExec() returns (min: Task?)
      requires Valid()
      ensures min == if Nodes == [] then null else Nodes[First(Entries())]
    {
      hide First, Entries;
      var curr := head;
      min := curr;
      ghost var q := Entries();
      ghost var i, k := 0, 0;
      while curr != null
        invariant 0 <= i <= |Nodes| && curr == Link(i)
        invariant Nodes != [] ==> k < |Nodes| && min == Nodes[k] && (i == 0 ==> k == 0) && (i > 0 ==> k < i)
        invariant Nodes == [] ==> min == null
        invariant forall j :: 0 <= j < i ==> q[k].Due() <= q[j].Due()
        invariant forall j :: k < j < i ==> q[k].Due() < q[j].Due()
        decreases |Nodes| - i
      {
        assert q[i] == curr.Entry() && q[k] == min.Entry();
        if curr.start + curr.delt <= min.start + min.delt {
          min := curr;
          k := i;
        }
        curr := curr.next;
        i := i + 1;
      }
      if Nodes != [] {
        FirstIsUnique(q, k, First(q));
      }
    }

    /** schedue_first_task_delay at clock reading now. */
    method FirstTaskDelay(now: int) returns (ret: int)
      requires Valid()
      ensures ret == -1 <==> Nodes == []
      ensures ret == 0 <==> exists e :: e in Entries() && e.Due() <= now
      ensures Nodes != [] ==> ret >= 0 && forall e :: e in Entries() ==> now + ret <= (if e.Due() < now then now else e.Due())
      ensures ret > 0 ==> exists e :: e in Entries() && e.Due() == now + ret
    {
      var min := FirstTaskToExec();
      if min == null {
        return -1;
      }
      ghost var e := Entries()[First(Entries())];
      assert e in Entries() && e.Due() == min.start + min.delt;
      ret := min.start + min.delt - now;
      if ret < 0 {
        ret := 0;
      }
    }

    /** The loop of schedue_del. */
    method Locate(at: Task) returns (prev: Task?, curr: Task?, ghost i: nat)
      requires Valid()
      ensures i <= |Nodes| && curr == Link(i) && i == IndexOf(Entries(), at)
      ensures i < |Nodes| ==> curr == at
      ensures prev == if i == 0 then null else Nodes[i - 1]
    {
      prev, curr, i := null, head, 0;
      while curr != null
        invariant 0 <= i <= |Nodes| && curr == Link(i) && at !in Nodes[..i]
        invariant prev == if i == 0 then null else Nodes[i - 1]
        decreases |Nodes| - i
      {
        if curr == at {
          break;
        }
        prev := curr;
        curr := curr.next;
        i := i + 1;
      }
      IndexOfNode(at, i);
    }

    /** schedue_del. */
    method Del(at: Task)
      requires Valid()
      modifies this, Nodes`next
      ensures Valid()
      ensures Entries() == ScheduleSpec.Del(old(Entries()), at)
      ensures forall n :: n in Nodes ==> n in old(Nodes)
    {
      ghost var i: nat;
      var prev, curr;
      prev, curr, i := Locate(at);
      hide IndexOf;
      if curr == at && curr != null {
        Unlink(prev, curr, i);
        RemoveAt(i);
      }
    }

    /** Entry i is no longer on the chain; everything else is. */
    ghost predicate Bypassed(i: nat)
      reads this, Nodes
    {
      i < |Nodes| &&
      head == (if i == 0 then Link(1) else Link(0)) &&
      (forall k {:trigger Nodes[k].next} :: 0 <= k < |Nodes| ==> Nodes[k].next == if k + 1 == i then Link(i + 1) else Link(k + 1)) &&
      (forall j, k :: 0 <= j < k < |Nodes| ==> Nodes[j] != Nodes[k])
    }

    /** The pointer store of schedue_del. */
    method Unlink(prev: Task?, curr: Task, ghost i: nat)
      requires Valid() && i < |Nodes| && curr == Nodes[i] && prev == if i == 0 then null else Nodes[i - 1]
      modifies `head, Nodes`next
      ensures Bypassed(i) && Entries() == old(Entries())
    {
      if prev == null {
        head := curr.next;
      } else {
        prev.next := curr.next;
      }
    }

    /** Bookkeeping: once entry i is bypassed, Nodes without it is the list again. */
    ghost method RemoveAt(i: nat)
      requires Bypassed(i)
      modifies `Nodes
      ensures Valid() && Nodes == old(Nodes[..i] + Nodes[i + 1..])
      ensures Entries() == old(Entries()[..i] + Entries()[i + 1..])
    {
      ghost var all, q := Nodes, Entries();
      Nodes := Nodes[..i] + Nodes[i + 1..];
      assert forall k :: 0 <= k < |Nodes| ==> Nodes[k] == all[if k < i then k else k + 1];
      assert forall k :: 0 <= k < |Nodes| ==> Entries()[k] == q[if k < i then k else k + 1];
    }

    /** memset over a node, wherever it is: if it is on the list, the list now ends there. */
    method ZeroNode(at: Task)
      requires Valid()
      modifies `Nodes, at
      ensures Valid()
      ensures forall n :: n in Nodes ==> n in old(Nodes)
      ensures Entries() == Zeroed(old(Entries()), at)
    {
      hide IndexOf, Entries;
      ghost var k: nat := |Nodes|;
      if at in Nodes {
        k :| 0 <= k < |Nodes| && Nodes[k] == at;
      }
      IndexOfNode(at, k);
      at.func, at.arg, at.start, at.delt, at.next := NoFunc, 0, 0, 0, null;
      if k < |Nodes| {
        Nodes := Nodes[..k + 1];
      }
    }

    lemma IndexOfNode(at: Task, i: nat)
      requires i <= |Nodes| && at !in Nodes[..i] && (i < |Nodes| ==> Nodes[i] == at)
      ensures IndexOf(Entries(), at) == i
    {
      assert forall j :: 0 <= j < i ==> Nodes[..i][j] != at;
    }
  }
}
