/** Deleting a device whose timer node is in the list: when the dispatcher then calls a
    null function, and what becomes of the other doors. */
module RelockDeletion {
  import opened Wrappers
  import opened ScheduleSpec
  import opened RelockSpec

  /** A zeroed node is in the list. */
  ghost predicate Dangling(q: Queue<TaskRef>) { exists e :: e in q && e.func == NoFunc }

  ghost predicate EntrySane(e: Entry<TaskRef>) { if e.func == NoFunc then e.Due() == 0 else e.Due() > 0 }

  /** What holds of every reachable gateway, whatever has been deleted: a zeroed node has
      deadline 0, every other one a later deadline. */
  ghost predicate Sane(g: Gateway) {
    Shaped(g) && g.sched.now >= 0 && forall e :: e in g.sched.q ==> EntrySane(e)
  }

  lemma AddKeepsSane(q: Queue<TaskRef>, e: Entry<TaskRef>)
    requires EntrySane(e) && forall x :: x in q ==> EntrySane(x)
    ensures forall x :: x in Add(q, e) ==> EntrySane(x)
  {
    AddChangesFrom(q, e);
  }

  lemma DispatcherKeepsSane(g: Gateway, infoOk: bool)
    requires Sane(g)
    ensures Sane(Dispatcher(g, infoOk))
  {
    hide Add, Del, First, Armed;
    var q := g.sched.q;
    if q != [] && q[First(q)].Due() <= g.sched.now {
      var rest := Del(q, q[First(q)].task);
      DelChangesFrom(q, q[First(q)].task);
      AddKeepsSane(rest, Entry(GwInfo, GwInfoFunc, 0, g.sched.now, if infoOk then INFO_MS else RETRY_MS));
    }
  }

  lemma StepKeepsSane(g: Gateway, e: Event)
    requires Sane(g) && Allowed(g, e)
    ensures Sane(RelockSpec.Step(g, e))
  {
    hide Add, Zeroed, Dispatcher, Armed;
    match e
    case Start => AddKeepsSane(g.sched.q, Entry(GwInfo, GwInfoFunc, 0, g.sched.now, RETRY_MS));
    case Open(i, postMs) =>
      AddKeepsSane(g.sched.q, Entry(Dev(i), SubdevTimeoutFunc, i, g.sched.now + postMs, RELOCK_MS));
    case Wait(ms) =>
    case TaskRun(infoOk) => DispatcherKeepsSane(g, infoOk);
    case Delete(i) => ZeroedChangesFrom(g.sched.q, Dev(i));
  }

  lemma {:induction false} RunKeepsSane(g: Gateway, run: seq<Event>)
    requires Sane(g) && Possible(g, run)
    ensures Sane(After(g, run))
    decreases |run|
  {
    if run != [] {
      StepKeepsSane(g, run[0]);
      RunKeepsSane(RelockSpec.Step(g, run[0]), run[1..]);
    }
  }

  // ---- the null call -----------------------------------------------------

  /** The dispatcher calls null exactly when a zeroed node is in the list: its deadline
      comes before all others and is always past. */
  lemma NullCallExactlyWhen(g: Gateway, infoOk: bool)
    requires Sane(g) && !g.crashed
    ensures RelockSpec.Step(g, TaskRun(infoOk)).crashed <==> Dangling(g.sched.q)
  {
    var q := g.sched.q;
    if q != [] {
      var e := q[First(q)];
      assert e in q;
      if x :| x in q && x.func == NoFunc {
        assert e.Due() <= x.Due();
      }
    }
  }

  /** In some firing of the timer the list holds a zeroed node. */
  ghost predicate FiresOnZeroed(g: Gateway, run: seq<Event>)
    requires Possible(g, run)
    decreases |run|
  {
    run != [] && ((run[0].TaskRun? && Dangling(g.sched.q)) || FiresOnZeroed(RelockSpec.Step(g, run[0]), run[1..]))
  }

  lemma {:induction false} CrashesExactlyWhen(g: Gateway, run: seq<Event>)
    requires Sane(g) && !g.crashed && Possible(g, run)
    ensures After(g, run).crashed <==> FiresOnZeroed(g, run)
    decreases |run|
  {
    if run != [] {
      var g1 := RelockSpec.Step(g, run[0]);
      StepKeepsSane(g, run[0]);
      if run[0].TaskRun? {
        NullCallExactlyWhen(g, run[0].infoOk);
      }
      if g1.crashed {
        CrashStays(g1, run[1..]);
      } else {
        CrashesExactlyWhen(g1, run[1..]);
      }
    }
  }

  /** In every run from all doors closed, the program calls null exactly when the timer
      fires while a zeroed node is in the list, and never if all deletions are clean. */
  lemma RunCrashesExactlyWhen(n: nat, now: nat, run: seq<Event>)
    requires Possible(Closed(n, now), run)
    ensures After(Closed(n, now), run).crashed <==> FiresOnZeroed(Closed(n, now), run)
    ensures AllClean(Closed(n, now), run) ==> !After(Closed(n, now), run).crashed
  {
    CrashesExactlyWhen(Closed(n, now), run);
    if AllClean(Closed(n, now), run) {
      RunKeepsInv(Closed(n, now), run);
    }
  }

  // ---- after an unclean deletion -----------------------------------------

  /** The node of record i is zeroed and in the list, and no other one is. */
  ghost predicate Hanging(g: Gateway, i: nat) {
    Sane(g) && !g.crashed && Distinct(g.sched.q) && Dangling(g.sched.q) &&
    forall e :: e in g.sched.q && e.func == NoFunc ==> e.task == Dev(i)
  }

  ghost predicate Healed(g: Gateway) { Sane(g) && !g.crashed && Distinct(g.sched.q) && !Dangling(g.sched.q) }

  /** Neither a firing of the timer nor a further deletion. */
  ghost predicate Calm(e: Event) { !e.TaskRun? && !e.Delete? }

  ghost predicate Reopened(run: seq<Event>, i: nat) { exists k :: 0 <= k < |run| && run[k].Open? && run[k].i == i }

  lemma UncleanDeletionHangs(g: Gateway, i: nat)
    requires Inv(g) && Sane(g) && i < |g.lock| && Pending(g.sched.q, Dev(i))
    ensures Hanging(RelockSpec.Step(g, Delete(i)), i)
  {
    StepKeepsSane(g, Delete(i));
    GoodIsDistinct(g.sched);
    var q, k := g.sched.q, IndexOf(g.sched.q, Dev(i));
    var q' := Zeroed(q, Dev(i));
    assert q'[k] in q';
    forall e | e in q' && e.func == NoFunc ensures e.task == Dev(i) {
      var m :| 0 <= m < |q'| && q'[m] == e;
      if m < k {
        InvEntry(g, q[m]);
      }
    }
  }

  /** What an add makes of a zeroed node in the list. */
  lemma AddTo(g: Gateway, g': Gateway, e: Entry<TaskRef>, i: nat)
    requires g'.sched.q == Add(g.sched.q, e) && e.func != NoFunc && Sane(g') && !g'.crashed
    ensures Hanging(g, i) && e.task != Dev(i) ==> Hanging(g', i)
    ensures (Hanging(g, i) && e.task == Dev(i)) || Healed(g) ==> Healed(g')
  {
    hide Add, Sane;
    if Hanging(g, i) || Healed(g) {
      AddKeeps(g.sched.q, e);
    }
    if Hanging(g, i) && e.task != Dev(i) {
      var x :| x in g.sched.q && x.func == NoFunc;
      assert x in g'.sched.q;
    }
  }

  lemma CalmStep(g: Gateway, e: Event, i: nat)
    requires Allowed(g, e) && Calm(e) && (Hanging(g, i) || Healed(g))
    ensures Hanging(g, i) && !(e.Open? && e.i == i) ==> Hanging(RelockSpec.Step(g, e), i)
    ensures (Hanging(g, i) && e.Open? && e.i == i) || Healed(g) ==> Healed(RelockSpec.Step(g, e))
  {
    hide Dispatcher, Zeroed, First, IndexOf;
    StepKeepsSane(g, e);
    assert !g.crashed && Shaped(g);
    var g' := RelockSpec.Step(g, e);
    if e.Wait? {
      hide Sane, Distinct, Dangling;
    } else {
      hide Add, Armed, Sane, Hanging, Healed;
      if e.Start? {
        AddTo(g, g', Entry(GwInfo, GwInfoFunc, 0, g.sched.now, RETRY_MS), i);
      } else {
        AddTo(g, g', Entry(Dev(e.i), SubdevTimeoutFunc, e.i, g.sched.now + e.postMs, RELOCK_MS), i);
      }
    }
  }

  lemma {:induction false} CalmRun(g: Gateway, run: seq<Event>, i: nat)
    requires Possible(g, run) && (forall k :: 0 <= k < |run| ==> Calm(run[k])) && (Hanging(g, i) || Healed(g))
    ensures Hanging(g, i) && !Reopened(run, i) ==> Hanging(After(g, run), i)
    ensures (Hanging(g, i) && Reopened(run, i)) || Healed(g) ==> Healed(After(g, run))
    decreases |run|
  {
    if run != [] {
      hide Hanging, Healed;
      CalmStep(g, run[0], i);
      CalmRun(RelockSpec.Step(g, run[0]), run[1..], i);
      ReopenedFirst(run, i);
    }
  }

  lemma ReopenedFirst(run: seq<Event>, i: nat)
    requires run != []
    ensures Reopened(run, i) <==> (run[0].Open? && run[0].i == i) || Reopened(run[1..], i)
  {
    if k :| 0 <= k < |run| && run[k].Open? && run[k].i == i && k > 0 {
      assert run[1..][k - 1] == run[k];
    }
    if k :| 0 <= k < |run[1..]| && run[1..][k].Open? && run[1..][k].i == i {
      assert run[k + 1] == run[1..][k];
    }
  }

  /** After the deletion of a device whose task is pending, the next firing of the timer
      calls null exactly unless the same record has reported an open door in between. */
  lemma UncleanDeletionCrashesExactlyUnlessReopened(g: Gateway, i: nat, calm: seq<Event>, infoOk: bool)
    requires Inv(g) && Sane(g) && i < |g.lock| && Pending(g.sched.q, Dev(i))
    requires Possible(RelockSpec.Step(g, Delete(i)), calm) && forall k :: 0 <= k < |calm| ==> Calm(calm[k])
    ensures Shaped(After(RelockSpec.Step(g, Delete(i)), calm))
    ensures RelockSpec.Step(After(RelockSpec.Step(g, Delete(i)), calm), TaskRun(infoOk)).crashed <==> !Reopened(calm, i)
  {
    UncleanDeletionHangs(g, i);
    var g1 := RelockSpec.Step(g, Delete(i));
    CalmRun(g1, calm, i);
    NullCallExactlyWhen(After(g1, calm), infoOk);
  }

  // ---- it happens --------------------------------------------------------

  lemma TwoOpened(n: nat, now: nat)
    requires n >= 2
    ensures var g := RelockSpec.Step(RelockSpec.Step(Closed(n, now), Open(0, 0)), Open(1, 0));
      !g.crashed && g.sched.now == now && g.lock == Closed(n, now).lock[0 := 1][1 := 1] &&
      g.sched.q == [Entry(Dev(0), SubdevTimeoutFunc, 0, now, RELOCK_MS), Entry(Dev(1), SubdevTimeoutFunc, 1, now, RELOCK_MS)]
  {
    hide Armed;
    var g1 := RelockSpec.Step(Closed(n, now), Open(0, 0));
    assert g1.sched.q == [Entry(Dev(0), SubdevTimeoutFunc, 0, now, RELOCK_MS)];
    assert IndexOf(g1.sched.q, Dev(1)) == 1;
  }

  /** Two doors opened and the first device deleted. The next firing calls null; if the
      first record reports an open door before that, the program goes on and the second
      door stays open without a task. */
  lemma OpenOpenDelete(n: nat, now: nat)
    requires n >= 2
    ensures var g := RelockSpec.Step(RelockSpec.Step(RelockSpec.Step(Closed(n, now), Open(0, 0)), Open(1, 0)), Delete(0));
      RelockSpec.Step(g, TaskRun(true)).crashed &&
      var g1 := RelockSpec.Step(g, Open(0, 0));
      !g1.crashed && g1.lock[1] == 1 && NoTimeoutFor(g1.sched.q, 1) && !RelockSpec.Step(RelockSpec.Step(g1, Wait(RELOCK_MS)), TaskRun(true)).crashed
  {
    hide Armed;
    TwoOpened(n, now);
    var g := RelockSpec.Step(RelockSpec.Step(RelockSpec.Step(Closed(n, now), Open(0, 0)), Open(1, 0)), Delete(0));
    assert g.sched.q == [Entry(Dev(0), NoFunc, 0, 0, 0)];
    assert First(g.sched.q) == 0;
    var g1 := RelockSpec.Step(g, Open(0, 0));
    assert g1.sched.q == [Entry(Dev(0), SubdevTimeoutFunc, 0, now, RELOCK_MS)];
  }
}
