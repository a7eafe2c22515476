/** What waiting on the pool and shutting it down guarantee, over whole runs of `ThreadPool`. */
module ThreadPoolTheorems {
  import opened ThreadPool

  // ---------------------------------------------------------------------------------------
  // tp_wait

  lemma {:induction false} TimesBound<Task(!new)>(ws: seq<Worker<Task>>, t: Task)
    ensures Times(ws, t) <= Count(ws, IsRunning)
  {
    if ws == [] {
    } else {
      TimesBound(ws[1..], t);
    }
  }

  lemma {:induction false} RunsSomething<Task(!new)>(ws: seq<Worker<Task>>) returns (t: Task)
    requires Count(ws, IsRunning) > 0
    ensures Times(ws, t) > 0
  {
    if ws[0].Running? {
      t := ws[0].task;
    } else {
      t := RunsSomething(ws[1..]);
    }
  }

  /** Nothing is outstanding exactly when every submitted task has finished, once per submission. */
  lemma OutstandingMeans<Task(!new)>(s: Pool<Task>)
    requires Inv(s)
    ensures !Outstanding(s) <==> multiset(s.finished) == multiset(s.submitted)
    ensures !Outstanding(s) ==> s.started == s.submitted
  {
    assert multiset(s.started + s.queue) == multiset(s.started) + multiset(s.queue);
    if !Outstanding(s) {
      assert s.started + [] == s.started;
      forall t ensures multiset(s.started)[t] == multiset(s.finished)[t] {
        TimesBound(s.workers, t);
      }
      assert multiset(s.finished) == multiset(s.started);
    } else if s.queue != [] {
      var t := s.queue[0];
      assert multiset(s.queue)[t] > 0;
      assert multiset(s.submitted)[t] > multiset(s.finished)[t];
    } else {
      var t := RunsSomething(s.workers);
      assert multiset(s.submitted)[t] > multiset(s.finished)[t];
    }
  }

  /** In every reachable state `tp_wait` returns exactly when all tasks added so far are finished. */
  lemma WaitReturnsExactly<Task(!new)>(n: nat, m: nat, run: seq<Action<Task>>, k: nat)
    requires Runs(Init<Task>(n, m), run)
    requires Enabled(Exec(Init<Task>(n, m), run), TestWait(k))
    ensures var s := Exec(Init<Task>(n, m), run);
            Apply(s, TestWait(k)).waiters[k].Returned? <==> multiset(s.finished) == multiset(Added(run))
  {
    InitInv<Task>(n, m);
    SubmittedIsAdded(Init<Task>(n, m), run);
    RunKeeps(Init<Task>(n, m), run);
    OutstandingMeans(Exec(Init<Task>(n, m), run));
  }

  /** Nothing else makes it return: no signal and no spurious wake-up gets a caller out of `tp_wait` while a task
      added so far is unfinished. */
  lemma ReturnsOnlyWhenDone<Task(!new)>(n: nat, m: nat, run: seq<Action<Task>>, a: Action<Task>, k: nat)
    requires Runs(Init<Task>(n, m), run) && Enabled(Exec(Init<Task>(n, m), run), a)
    requires k < |Exec(Init<Task>(n, m), run).waiters| && !Exec(Init<Task>(n, m), run).waiters[k].Returned?
    ensures var s := Exec(Init<Task>(n, m), run);
            k < |Apply(s, a).waiters|
            && (Apply(s, a).waiters[k].Returned? ==> multiset(s.finished) == multiset(Added(run)))
  {
    hide Runs, Exec, Added;
    InitInv<Task>(n, m);
    RunKeeps(Init<Task>(n, m), run);
    SubmittedIsAdded(Init<Task>(n, m), run);
    OutstandingMeans(Exec(Init<Task>(n, m), run));
  }

  /** Whoever is woken, by a signal, a broadcast or for no reason, tests its condition again. */
  lemma WokenTestAgain<Task(!new)>(s: Pool<Task>, a: Action<Task>, i: nat)
    requires Enabled(s, a)
    ensures i < |s.workers| && s.workers[i].Sleeping? ==>
              a == Wake(i) || a.Stop? || (a.Add? && i in a.woken) ==> Enabled(Apply(s, a), Enter(i))
    ensures i < |s.waiters| && s.waiters[i].Blocked? ==>
              a == WakeWaiter(i) || (a.Finish? && i in a.signalled) ==> Enabled(Apply(s, a), TestWait(i))
  {}

  /** Nothing but its own state holds a thread up, and a signal may go to any one sleeper: adding and stopping are
      always possible, and so is the next step of every thread that does not sleep. */
  lemma NobodyIsHeldUp<Task(!new)>(s: Pool<Task>, t: Task, i: nat)
    ensures if exists j :: 0 <= j < |s.workers| && s.workers[j].Sleeping?
            then i < |s.workers| && s.workers[i].Sleeping? ==> Enabled(s, Add(t, {i}))
            else Enabled(s, Add(t, {}))
    ensures i < |s.workers| && s.workers[i].Ready? ==> Enabled(s, Enter(i))
    ensures forall w: nat :: w < |s.workers| && s.workers[w].Running? ==>
              if exists j :: 0 <= j < |s.waiters| && s.waiters[j].Blocked?
              then i < |s.waiters| && s.waiters[i].Blocked? ==> Enabled(s, Finish(w, {i}))
              else Enabled(s, Finish(w, {}))
    ensures !s.stop ==> Enabled(s, Stop)
    ensures i < |s.waiters| && s.waiters[i].Checking? ==> Enabled(s, TestWait(i))
    ensures i < |s.waiters| && (s.waiters[i].Outside? || s.waiters[i].Returned?) ==> Enabled(s, CallWait(i))
  {
    var me: set<nat> := {i};
    assert i in me;
  }

  /** Every blocked waiter still has something to wait for. */
  ghost predicate NoLostWakeup<Task(!new)>(s: Pool<Task>) {
    forall k :: 0 <= k < |s.waiters| && s.waiters[k].Blocked? ==> Outstanding(s)
  }

  /** A finish that leaves nothing outstanding and some blocked caller without a signal. */
  ghost predicate LosesWakeup<Task(!new)>(s: Pool<Task>, a: Action<Task>)
    requires Enabled(s, a)
  {
    a.Finish? && !Outstanding(Apply(s, a))
    && exists k :: 0 <= k < |s.waiters| && s.waiters[k].Blocked? && k !in a.signalled
  }

  /** That is the only step that loses a wake-up. */
  lemma LostExactlyHere<Task(!new)>(s: Pool<Task>, a: Action<Task>)
    requires Inv(s) && Enabled(s, a) && NoLostWakeup(s)
    ensures NoLostWakeup(Apply(s, a)) <==> !LosesWakeup(s, a)
  {
    var r := Apply(s, a);
    if LosesWakeup(s, a) {
      var k :| 0 <= k < |s.waiters| && s.waiters[k].Blocked? && k !in a.signalled;
      assert r.waiters[k].Blocked?;
    }
  }

  /** Inside `tp_wait`: about to test, or blocked. */
  predicate Waits(w: Waiter) { w.Checking? || w.Blocked? }

  /** At most one thread is inside `tp_wait`. */
  ghost predicate OneAtATime<Task(!new)>(s: Pool<Task>) {
    forall j, k :: 0 <= j < k < |s.waiters| ==> !Waits(s.waiters[j]) || !Waits(s.waiters[k])
  }

  /** ... in every state the run goes through. */
  ghost predicate Disciplined<Task(!new)>(s: Pool<Task>, run: seq<Action<Task>>)
    requires Runs(s, run)
    decreases |run|
  {
    OneAtATime(s) && (run != [] ==> Disciplined(Apply(s, run[0]), run[1..]))
  }

  lemma AloneIsSignalled<Task(!new)>(s: Pool<Task>, a: Action<Task>)
    requires Enabled(s, a) && OneAtATime(s)
    ensures !LosesWakeup(s, a)
  {
    if a.Finish? && exists k :: 0 <= k < |s.waiters| && s.waiters[k].Blocked? && k !in a.signalled {
      var k :| 0 <= k < |s.waiters| && s.waiters[k].Blocked? && k !in a.signalled;
      var i :| 0 <= i < |s.waiters| && i in a.signalled && s.waiters[i].Blocked?;
      assert Waits(s.waiters[i]) && Waits(s.waiters[k]);
      assert false;
    }
  }

  lemma {:induction false} DisciplinedRun<Task(!new)>(s: Pool<Task>, run: seq<Action<Task>>)
    requires Inv(s) && NoLostWakeup(s) && Runs(s, run) && Disciplined(s, run)
    ensures NoLostWakeup(Exec(s, run))
    decreases |run|
  {
    if run == [] {
    } else {
      StepKeeps(s, run[0]);
      AloneIsSignalled(s, run[0]);
      LostExactlyHere(s, run[0]);
      DisciplinedRun(Apply(s, run[0]), run[1..]);
    }
  }

  /** No lost wake-up on a pool that is filled and waited for again and again, by any number of threads,
      as long as only one of them is inside `tp_wait` at a time. */
  lemma SoleWaiterIsWoken<Task(!new)>(n: nat, m: nat, run: seq<Action<Task>>)
    requires Runs(Init<Task>(n, m), run) && Disciplined(Init<Task>(n, m), run)
    ensures NoLostWakeup(Exec(Init<Task>(n, m), run))
  {
    InitInv<Task>(n, m);
    DisciplinedRun(Init<Task>(n, m), run);
  }

  lemma {:induction false} OneThreadIsDisciplined<Task(!new)>(s: Pool<Task>, run: seq<Action<Task>>)
    requires Runs(s, run) && |s.waiters| <= 1
    ensures Disciplined(s, run)
    decreases |run|
  {
    if run == [] {
    } else {
      OneThreadIsDisciplined(Apply(s, run[0]), run[1..]);
    }
  }

  lemma RunsCons<Task(!new)>(s: Pool<Task>, a: Action<Task>, rest: seq<Action<Task>>)
    requires Enabled(s, a) && Runs(Apply(s, a), rest)
    ensures Runs(s, [a] + rest) && Exec(s, [a] + rest) == Exec(Apply(s, a), rest)
  {}

  lemma RunsNothing<Task(!new)>(s: Pool<Task>)
    ensures Runs(s, []) && Exec(s, []) == s
  {}

  /** The head of the losing run: two callers are blocked while the one task runs. */
  lemma TwoBlocked<Task(!new)>(n: nat, m: nat, t: Task) returns (run: seq<Action<Task>>)
    requires n >= 1 && m >= 2
    ensures Runs(Init<Task>(n, m), run) && Exec(Init<Task>(n, m), run) == BothBlocked(n, m, t)
  {
    hide Runs, Exec;
    var s0 := Init<Task>(n, m);
    var s1 := Apply(s0, Add(t, {}));
    assert s1.workers == s0.workers;
    var s2 := Apply(s1, CallWait(0));
    var s3 := Apply(s2, CallWait(1));
    var s4 := Apply(s3, TestWait(0));
    var s5 := Apply(s4, TestWait(1));
    var s := Apply(s5, Enter(0));
    assert s5.queue == [t] && s == BothBlocked(n, m, t);
    RunsNothing(s);
    run := ThenRun(s5, Enter(0), []);
    run := ThenRun(s4, TestWait(1), run);
    run := ThenRun(s3, TestWait(0), run);
    run := ThenRun(s2, CallWait(1), run);
    run := ThenRun(s1, CallWait(0), run);
    run := ThenRun(s0, Add(t, {}), run);
  }

  function BothBlocked<Task>(n: nat, m: nat, t: Task): Pool<Task>
    requires n >= 1 && m >= 2
  {
    Pool([], 1, false, Init<Task>(n, m).workers[0 := Running(t)],
         Init<Task>(n, m).waiters[0 := Blocked][1 := Blocked], [t], [t], [])
  }

  lemma ThenRun<Task(!new)>(s: Pool<Task>, a: Action<Task>, rest: seq<Action<Task>>) returns (run: seq<Action<Task>>)
    requires Enabled(s, a) && Runs(Apply(s, a), rest)
    ensures run == [a] + rest && Runs(s, run) && Exec(s, run) == Exec(Apply(s, a), rest)
  {
    RunsCons(s, a, rest);
    run := [a] + rest;
  }

  lemma {:induction false} RunsAppend<Task(!new)>(s: Pool<Task>, a: seq<Action<Task>>, b: seq<Action<Task>>)
    requires Runs(s, a) && Runs(Exec(s, a), b)
    ensures Runs(s, a + b) && Exec(s, a + b) == Exec(Exec(s, a), b)
    decreases |a|
  {
    if a == [] {
      assert a + b == b;
    } else {
      assert (a + b)[1..] == a[1..] + b;
      RunsAppend(Apply(s, a[0]), a[1..], b);
    }
  }

  /** No task is added, and waiter `k` does not wake up by itself. */
  ghost predicate Quiet<Task(!new)>(run: seq<Action<Task>>, k: nat) {
    forall a <- run :: !a.Add? && a != WakeWaiter(k)
  }

  /** A waiter whose wake-up is lost sleeps on: only a new task, or a spurious wake-up of its own, can help it. */
  lemma {:induction false} StaysBlocked<Task(!new)>(s: Pool<Task>, run: seq<Action<Task>>, k: nat)
    requires Inv(s) && k < |s.waiters| && s.waiters[k].Blocked? && !Outstanding(s)
    requires Runs(s, run) && Quiet(run, k)
    ensures var e := Exec(s, run); k < |e.waiters| && e.waiters[k].Blocked? && !Outstanding(e)
    decreases |run|
  {
    if run == [] {
    } else {
      var a := run[0];
      assert a in run;
      StepKeeps(s, a);
      CountSome(s.workers, IsRunning);
      StaysBlocked(Apply(s, a), run[1..], k);
    }
  }

  /** `signal` wakes one of two blocked callers; the other stays blocked with nothing left to do, in every quiet
      continuation. */
  lemma SecondWaiterIsLost<Task(!new)>(n: nat, m: nat, t: Task) returns (run: seq<Action<Task>>)
    requires n >= 1 && m >= 2
    ensures Runs(Init<Task>(n, m), run)
    ensures var e := Exec(Init<Task>(n, m), run);
            && |e.waiters| == m && e.waiters[1].Blocked? && !Outstanding(e)
            && (forall more: seq<Action<Task>> :: Runs(e, more) && Quiet(more, 1) ==>
                  |Exec(e, more).waiters| > 1 && Exec(e, more).waiters[1].Blocked?)
  {
    var s := BothBlocked(n, m, t);
    var head := TwoBlocked(n, m, t);
    var last: seq<Action<Task>> := [Finish(0, {0})];
    assert s.waiters[0].Blocked? && 0 in {0 as nat};
    RunsCons(s, last[0], []);
    assert [last[0]] + [] == last;
    RunsAppend(Init<Task>(n, m), head, last);
    run := head + last;
    var e := Apply(s, last[0]);
    assert Exec(s, last) == e;
    InitInv<Task>(n, m);
    RunKeeps(Init<Task>(n, m), run);
    forall more: seq<Action<Task>> | Runs(e, more) && Quiet(more, 1)
      ensures |Exec(e, more).waiters| > 1 && Exec(e, more).waiters[1].Blocked?
    {
      StaysBlocked(e, more, 1);
    }
  }

  /** Over all runs: wake-ups are never lost exactly when at most one thread ever calls `tp_wait`, however
      often. With more threads it depends on the run: see `SoleWaiterIsWoken`. */
  lemma NoLostWakeupExactly<Task(!new)>(n: nat, m: nat, t: Task)
    requires n >= 1
    ensures (forall run: seq<Action<Task>> :: Runs(Init<Task>(n, m), run) ==> NoLostWakeup(Exec(Init<Task>(n, m), run)))
            <==> m <= 1
  {
    if m <= 1 {
      forall run: seq<Action<Task>> | Runs(Init<Task>(n, m), run)
        ensures NoLostWakeup(Exec(Init<Task>(n, m), run))
      {
        OneThreadIsDisciplined(Init<Task>(n, m), run);
        SoleWaiterIsWoken(n, m, run);
      }
    } else {
      var run := SecondWaiterIsLost(n, m, t);
      assert !NoLostWakeup(Exec(Init<Task>(n, m), run));
    }
  }

  // ---------------------------------------------------------------------------------------
  // tp_dispose

  /** The work left for the threads: every queued task costs three steps, and so on. */
  function Work<Task(!new)>(s: Pool<Task>): nat {
    3 * |s.queue| + 2 * Count(s.workers, IsRunning) + Count(s.workers, IsReady)
  }

  predicate IsWorkerStep<Task(!new)>(a: Action<Task>) { a.Enter? || a.Finish? || a.Wake? }

  function WorkerSteps<Task(!new)>(run: seq<Action<Task>>): nat {
    if run == [] then 0 else One(IsWorkerStep(run[0])) + WorkerSteps(run[1..])
  }

  ghost predicate NoAdds<Task(!new)>(run: seq<Action<Task>>) { forall a <- run :: !a.Add? }

  /** After stop, a worker has left only when the queue had run empty. */
  ghost predicate LeftEmpty<Task(!new)>(s: Pool<Task>) {
    s.stop && (Count(s.workers, IsExited) > 0 ==> s.queue == [])
  }

  lemma StopStep<Task(!new)>(s: Pool<Task>, a: Action<Task>)
    requires Inv(s) && LeftEmpty(s) && Enabled(s, a) && !a.Add?
    ensures LeftEmpty(Apply(s, a))
    ensures One(IsWorkerStep(a)) + Work(Apply(s, a)) <= Work(s)
    ensures Apply(s, a).submitted == s.submitted && |Apply(s, a).workers| == |s.workers|
  {
    hide Count;
    match a
    case Enter(w) => CountsUpdate(s.workers, w, EnterStep(s, w).workers[w]);
    case Finish(w, _) => CountsUpdate(s.workers, w, Ready);
    case Wake(w) => CountSome(s.workers, IsSleeping);
    case _ =>
  }

  /** Every thread step after stop uses up some of the work left at stop. */
  lemma {:induction false} StopRun<Task(!new)>(s: Pool<Task>, run: seq<Action<Task>>)
    requires Inv(s) && LeftEmpty(s) && Runs(s, run) && NoAdds(run)
    ensures Inv(Exec(s, run)) && LeftEmpty(Exec(s, run))
    ensures WorkerSteps(run) + Work(Exec(s, run)) <= Work(s)
    ensures Exec(s, run).submitted == s.submitted && |Exec(s, run).workers| == |s.workers|
    decreases |run|
  {
    if run == [] {
    } else {
      assert run[0] in run;
      StepKeeps(s, run[0]);
      StopStep(s, run[0]);
      StopRun(Apply(s, run[0]), run[1..]);
    }
  }

  /** No deadlock: until all threads have returned, one of them can move. */
  lemma StopProgress<Task(!new)>(s: Pool<Task>) returns (a: Action<Task>)
    requires Inv(s) && s.stop && Count(s.workers, IsExited) < |s.workers|
    ensures Enabled(s, a) && IsWorkerStep(a)
  {
    CountSum(s.workers);
    if Count(s.workers, IsReady) > 0 {
      CountSome(s.workers, IsReady);
      var w :| 0 <= w < |s.workers| && KindOf(s.workers[w]) == IsReady;
      a := Enter(w);
    } else {
      CountSome(s.workers, IsRunning);
      var w :| 0 <= w < |s.workers| && KindOf(s.workers[w]) == IsRunning;
      var who: set<nat> := set k: nat | k < |s.waiters| && s.waiters[k].Blocked?;
      a := Finish(w, who);
    }
  }

  /** From stop on, the threads can always be brought to return. */
  lemma {:induction false} ShutdownCompletes<Task(!new)>(s: Pool<Task>) returns (run: seq<Action<Task>>)
    requires Inv(s) && LeftEmpty(s)
    ensures Runs(s, run) && NoAdds(run) && Count(Exec(s, run).workers, IsExited) == |s.workers|
    decreases Work(s)
  {
    CountSum(s.workers);
    if Count(s.workers, IsExited) == |s.workers| {
      run := [];
    } else {
      var a := StopProgress(s);
      StepKeeps(s, a);
      StopStep(s, a);
      var rest := ShutdownCompletes(Apply(s, a));
      RunsCons(s, a, rest);
      run := [a] + rest;
    }
  }

  lemma {:induction false} SameThreads<Task(!new)>(s: Pool<Task>, run: seq<Action<Task>>)
    requires Runs(s, run)
    ensures |Exec(s, run).workers| == |s.workers|
    decreases |run|
  {
    if run == [] {
    } else {
      SameThreads(Apply(s, run[0]), run[1..]);
    }
  }

  /** Shutdown: with no adds after `tp_dispose` was called, the threads take at most as many steps as
      the work left at that moment, and when all have returned every task added before has run. */
  lemma ShutdownDrains<Task(!new)>(n: nat, m: nat, before: seq<Action<Task>>, after: seq<Action<Task>>)
    requires n >= 1 && Runs(Init<Task>(n, m), before)
    requires var s := Exec(Init<Task>(n, m), before); !s.stop && Runs(Apply(s, Stop), after) && NoAdds(after)
    ensures var s := Apply(Exec(Init<Task>(n, m), before), Stop);
            var e := Exec(s, after);
            && WorkerSteps(after) <= Work(s)
            && (Count(e.workers, IsExited) == n ==>
                  e.queue == [] && e.started == Added(before) && multiset(e.finished) == multiset(Added(before)))
  {
    hide Runs, Exec, Added, Count, NoAdds;
    InitInv<Task>(n, m);
    SubmittedIsAdded(Init<Task>(n, m), before);
    RunKeeps(Init<Task>(n, m), before);
    var r := Exec(Init<Task>(n, m), before);
    assert r.submitted == Added(before);
    StepKeeps(r, Stop);
    var s := Apply(r, Stop);
    CountWoken(r.workers, s.workers);
    StopRun(s, after);
    var e := Exec(s, after);
    CountSum(e.workers);
    SameThreads(Init<Task>(n, m), before);
    if Count(e.workers, IsExited) == n {
      OutstandingMeans(e);
    }
  }
}
