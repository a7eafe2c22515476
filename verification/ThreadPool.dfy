/** modules/src/thread_pool.c as a transition system. Every critical section is one atomic step;
    the mutex, the two condition variables and the scheduler are the choice of the next step.
    A signal wakes at least one sleeper, and any sleeper may wake spuriously. */
module ThreadPool {

  /** Where a worker thread is: about to take the lock, waiting on `task_added`, outside the lock
      with a task, or returned from `tp_worker`. */
  datatype Worker<Task> = Ready | Sleeping | Running(task: Task) | Exited

  /** A thread that calls `tp_wait`, any number of times: never inside so far, about to test the
      condition, waiting on `task_finished`, or returned from its latest call. */
  datatype Waiter = Outside | Checking | Blocked | Returned

  datatype Pool<Task> = Pool(
    queue: seq<Task>,
    active: int,
    stop: bool,
    workers: seq<Worker<Task>>,
    waiters: seq<Waiter>,
    submitted: seq<Task>,
    started: seq<Task>,
    finished: seq<Task>)

  datatype Action<Task> =
    | Add(task: Task, woken: set<nat>)          // tp_task_add, `woken` sleepers notified
    | Enter(worker: nat)                        // tp_worker: lock, test, sleep / exit / dequeue
    | Finish(worker: nat, signalled: set<nat>)  // tp_worker: lock, active_tasks--, signal
    | Wake(worker: nat)                         // spurious wake-up of a worker
    | Stop                                      // tp_dispose: stop = true, broadcast
    | CallWait(waiter: nat)                     // tp_wait is entered
    | TestWait(waiter: nat)                     // tp_wait: lock, test, sleep / return
    | WakeWaiter(waiter: nat)                   // spurious wake-up of a waiter

  function Woken<Task>(ws: seq<Worker<Task>>, who: set<nat>): (r: seq<Worker<Task>>)
    ensures |r| == |ws|
    ensures forall i :: 0 <= i < |ws| ==> r[i] == if i in who && ws[i].Sleeping? then Ready else ws[i]
  {
    seq(|ws|, i requires 0 <= i < |ws| => if i in who && ws[i].Sleeping? then Ready else ws[i])
  }

  function Signalled(ws: seq<Waiter>, who: set<nat>): (r: seq<Waiter>)
    ensures |r| == |ws|
    ensures forall i :: 0 <= i < |ws| ==> r[i] == if i in who && ws[i].Blocked? then Checking else ws[i]
  {
    seq(|ws|, i requires 0 <= i < |ws| => if i in who && ws[i].Blocked? then Checking else ws[i])
  }

  /** `pthread_cond_broadcast` */
  function AllWoken<Task>(ws: seq<Worker<Task>>): (r: seq<Worker<Task>>)
    ensures |r| == |ws|
    ensures forall i :: 0 <= i < |ws| ==> r[i] == if ws[i].Sleeping? then Ready else ws[i]
  {
    seq(|ws|, i requires 0 <= i < |ws| => if ws[i].Sleeping? then Ready else ws[i])
  }

  /** `pthread_cond_signal` wakes at least one thread when one waits. */
  ghost predicate SignalsOne<Task(!new)>(ws: seq<Worker<Task>>, who: set<nat>) {
    (exists i :: 0 <= i < |ws| && ws[i].Sleeping?) ==> exists i :: 0 <= i < |ws| && i in who && ws[i].Sleeping?
  }

  ghost predicate SignalsOneWaiter(ws: seq<Waiter>, who: set<nat>) {
    (exists i :: 0 <= i < |ws| && ws[i].Blocked?) ==> exists i :: 0 <= i < |ws| && i in who && ws[i].Blocked?
  }

  ghost predicate Enabled<Task(!new)>(s: Pool<Task>, a: Action<Task>) {
    match a
    case Add(_, woken) => SignalsOne(s.workers, woken)
    case Enter(w) => w < |s.workers| && s.workers[w].Ready?
    case Finish(w, who) => w < |s.workers| && s.workers[w].Running? && SignalsOneWaiter(s.waiters, who)
    case Wake(w) => w < |s.workers| && s.workers[w].Sleeping?
    case Stop => !s.stop
    case CallWait(k) => k < |s.waiters| && (s.waiters[k].Outside? || s.waiters[k].Returned?)
    case TestWait(k) => k < |s.waiters| && s.waiters[k].Checking?
    case WakeWaiter(k) => k < |s.waiters| && s.waiters[k].Blocked?
  }

  /** The test at the top of the worker loop. */
  function EnterStep<Task>(s: Pool<Task>, w: nat): Pool<Task>
    requires w < |s.workers|
  {
    if s.queue == [] then
      s.(workers := s.workers[w := if s.stop then Exited else Sleeping])
    else
      s.(queue := s.queue[1..],
         active := s.active + 1,
         workers := s.workers[w := Running(s.queue[0])],
         started := s.started + [s.queue[0]])
  }

  function FinishStep<Task>(s: Pool<Task>, w: nat, who: set<nat>): Pool<Task>
    requires w < |s.workers| && s.workers[w].Running?
  {
    s.(active := s.active - 1,
       workers := s.workers[w := Ready],
       waiters := Signalled(s.waiters, who),
       finished := s.finished + [s.workers[w].task])
  }

  /** `active_tasks > 0 || queue->count > 0` */
  predicate Outstanding<Task(!new)>(s: Pool<Task>) { s.active > 0 || |s.queue| > 0 }

  function Apply<Task(!new)>(s: Pool<Task>, a: Action<Task>): Pool<Task>
    requires Enabled(s, a)
  {
    match a
    case Add(t, woken) =>
      s.(queue := s.queue + [t], submitted := s.submitted + [t], workers := Woken(s.workers, woken))
    case Enter(w) => EnterStep(s, w)
    case Finish(w, who) => FinishStep(s, w, who)
    case Wake(w) => s.(workers := s.workers[w := Ready])
    case Stop => s.(stop := true, workers := AllWoken(s.workers))
    case CallWait(k) => s.(waiters := s.waiters[k := Checking])
    case TestWait(k) => s.(waiters := s.waiters[k := if Outstanding(s) then Blocked else Returned])
    case WakeWaiter(k) => s.(waiters := s.waiters[k := Checking])
  }

  /** `tp_init`: all threads started, nothing queued; `waiters` threads may call `tp_wait` later. */
  function Init<Task>(workers: nat, waiters: nat): Pool<Task> {
    Pool([], 0, false, seq(workers, _ => Ready), seq(waiters, _ => Outside), [], [], [])
  }

  /** `run` can be executed from `s`, step by step. */
  ghost predicate Runs<Task(!new)>(s: Pool<Task>, run: seq<Action<Task>>)
    decreases |run|
  {
    run == [] || (Enabled(s, run[0]) && Runs(Apply(s, run[0]), run[1..]))
  }

  ghost function Exec<Task(!new)>(s: Pool<Task>, run: seq<Action<Task>>): Pool<Task>
    requires Runs(s, run)
    decreases |run|
  {
    if run == [] then s else Exec(Apply(s, run[0]), run[1..])
  }

  /** The tasks of the calls of `tp_task_add` in a run, in order. */
  function Added<Task>(run: seq<Action<Task>>): seq<Task> {
    if run == [] then [] else AddedBy(run[0]) + Added(run[1..])
  }

  function AddedBy<Task>(a: Action<Task>): seq<Task> { if a.Add? then [a.task] else [] }

  lemma StepSubmits<Task(!new)>(s: Pool<Task>, a: Action<Task>)
    requires Enabled(s, a)
    ensures Apply(s, a).submitted == s.submitted + AddedBy(a)
  {}

  /** Every call submits its task, and nothing else does. */
  lemma {:induction false} SubmittedIsAdded<Task(!new)>(s: Pool<Task>, run: seq<Action<Task>>)
    requires Runs(s, run)
    ensures Exec(s, run).submitted == s.submitted + Added(run)
    decreases |run|
  {
    hide Apply, Enabled, AddedBy;
    if run == [] {
    } else {
      StepSubmits(s, run[0]);
      SubmittedIsAdded(Apply(s, run[0]), run[1..]);
    }
  }

  // ---------------------------------------------------------------------------------------
  // Counting workers

  datatype Kind = IsReady | IsSleeping | IsRunning | IsExited

  function KindOf<Task>(w: Worker<Task>): Kind {
    match w case Ready => IsReady case Sleeping => IsSleeping case Running(_) => IsRunning case Exited => IsExited
  }

  function Count<Task>(ws: seq<Worker<Task>>, k: Kind): nat {
    if ws == [] then 0 else (if KindOf(ws[0]) == k then 1 else 0) + Count(ws[1..], k)
  }

  /** How many workers are running task `t`. */
  function Times<Task(==)>(ws: seq<Worker<Task>>, t: Task): nat {
    if ws == [] then 0 else One(ws[0] == Running(t)) + Times(ws[1..], t)
  }

  function One(b: bool): nat { if b then 1 else 0 }

  lemma {:induction false} CountUpdate<Task(!new)>(ws: seq<Worker<Task>>, i: nat, w: Worker<Task>, k: Kind)
    requires i < |ws|
    ensures Count(ws[i := w], k) + One(KindOf(ws[i]) == k) == Count(ws, k) + One(KindOf(w) == k)
  {
    if i == 0 {
      assert ws[0 := w][1..] == ws[1..];
    } else {
      assert ws[i := w][1..] == ws[1..][i - 1 := w];
      CountUpdate(ws[1..], i - 1, w, k);
    }
  }

  lemma {:induction false} TimesUpdate<Task(!new)>(ws: seq<Worker<Task>>, i: nat, w: Worker<Task>, t: Task)
    requires i < |ws|
    ensures Times(ws[i := w], t) + One(ws[i] == Running(t)) == Times(ws, t) + One(w == Running(t))
  {
    if i == 0 {
      assert ws[0 := w][1..] == ws[1..];
    } else {
      assert ws[i := w][1..] == ws[1..][i - 1 := w];
      TimesUpdate(ws[1..], i - 1, w, t);
    }
  }

  lemma {:induction false} CountSome<Task(!new)>(ws: seq<Worker<Task>>, k: Kind)
    ensures Count(ws, k) > 0 <==> exists i :: 0 <= i < |ws| && KindOf(ws[i]) == k
  {
    if ws == [] {
    } else {
      CountSome(ws[1..], k);
      assert forall i :: 0 < i < |ws| ==> ws[i] == ws[1..][i - 1];
      if exists i :: 0 <= i < |ws[1..]| && KindOf(ws[1..][i]) == k {
        var i :| 0 <= i < |ws[1..]| && KindOf(ws[1..][i]) == k;
        assert KindOf(ws[i + 1]) == k;
      }
    }
  }

  lemma {:induction false} CountSum<Task(!new)>(ws: seq<Worker<Task>>)
    ensures Count(ws, IsReady) + Count(ws, IsSleeping) + Count(ws, IsRunning) + Count(ws, IsExited) == |ws|
  {
    if ws == [] {
    } else {
      CountSum(ws[1..]);
    }
  }

  /** Waking moves sleepers to ready and touches nobody else. */
  lemma {:induction false} CountWoken<Task(!new)>(ws: seq<Worker<Task>>, rs: seq<Worker<Task>>)
    requires |rs| == |ws|
    requires forall i :: 0 <= i < |ws| ==> rs[i] == ws[i] || (ws[i].Sleeping? && rs[i].Ready?)
    ensures Count(rs, IsRunning) == Count(ws, IsRunning) && Count(rs, IsExited) == Count(ws, IsExited)
    ensures Count(rs, IsReady) >= Count(ws, IsReady)
    ensures (exists i :: 0 <= i < |ws| && rs[i] != ws[i]) ==> Count(rs, IsReady) > Count(ws, IsReady)
    ensures forall t :: Times(rs, t) == Times(ws, t)
  {
    if ws == [] {
    } else {
      assert forall i :: 0 < i < |ws| ==> ws[i] == ws[1..][i - 1] && rs[i] == rs[1..][i - 1];
      CountWoken(ws[1..], rs[1..]);
    }
  }

  // ---------------------------------------------------------------------------------------
  // The invariant

  /** Exactly-once FIFO dispatch. */
  ghost predicate Fifo<Task(!new)>(s: Pool<Task>) {
    && s.started + s.queue == s.submitted
    && s.active == Count(s.workers, IsRunning)
    && (forall t :: multiset(s.started)[t] == multiset(s.finished)[t] + Times(s.workers, t))
  }

  /** Work conservation: while a worker sleeps, every queued task has an awake worker to take it. */
  ghost predicate Conserves<Task(!new)>(s: Pool<Task>) {
    Count(s.workers, IsSleeping) == 0 || |s.queue| <= Count(s.workers, IsReady)
  }

  /** Nobody sleeps or leaves on the wrong side of `stop`. */
  ghost predicate StopOrder<Task(!new)>(s: Pool<Task>) {
    if s.stop then Count(s.workers, IsSleeping) == 0 else Count(s.workers, IsExited) == 0
  }

  /** What every step keeps: dispatch in order and once, work conservation, and the stop order. */
  ghost predicate Inv<Task(!new)>(s: Pool<Task>) { Fifo(s) && Conserves(s) && StopOrder(s) }

  lemma InitInv<Task(!new)>(n: nat, m: nat)
    ensures Inv(Init<Task>(n, m))
  {
    AllReady(Init<Task>(n, m).workers);
  }

  lemma {:induction false} AllReady<Task(!new)>(ws: seq<Worker<Task>>)
    requires forall i :: 0 <= i < |ws| ==> ws[i].Ready?
    ensures Count(ws, IsRunning) == Count(ws, IsSleeping) == Count(ws, IsExited) == 0
    ensures forall t :: Times(ws, t) == 0
  {
    if ws == [] {
    } else {
      AllReady(ws[1..]);
    }
  }

  lemma AddKeeps<Task(!new)>(s: Pool<Task>, t: Task, woken: set<nat>)
    requires Inv(s) && Enabled(s, Add(t, woken))
    ensures Inv(Apply(s, Add(t, woken)))
  {
    var r := Apply(s, Add(t, woken));
    CountWoken(s.workers, r.workers);
    CountSum(s.workers);
    CountSum(r.workers);
    CountSome(s.workers, IsSleeping);
    assert s.started + r.queue == s.started + s.queue + [t];
    if Count(r.workers, IsSleeping) > 0 {
      var i :| 0 <= i < |s.workers| && i in woken && s.workers[i].Sleeping?;
      assert r.workers[i] != s.workers[i];
    }
  }

  /** Changing one worker, in all four counts. */
  lemma CountsUpdate<Task(!new)>(ws: seq<Worker<Task>>, i: nat, w: Worker<Task>)
    requires i < |ws|
    ensures Count(ws[i := w], IsReady) + One(ws[i].Ready?) == Count(ws, IsReady) + One(w.Ready?)
    ensures Count(ws[i := w], IsSleeping) + One(ws[i].Sleeping?) == Count(ws, IsSleeping) + One(w.Sleeping?)
    ensures Count(ws[i := w], IsRunning) + One(ws[i].Running?) == Count(ws, IsRunning) + One(w.Running?)
    ensures Count(ws[i := w], IsExited) + One(ws[i].Exited?) == Count(ws, IsExited) + One(w.Exited?)
  {
    CountUpdate(ws, i, w, IsReady);
    CountUpdate(ws, i, w, IsSleeping);
    CountUpdate(ws, i, w, IsRunning);
    CountUpdate(ws, i, w, IsExited);
  }

  lemma EnterKeeps<Task(!new)>(s: Pool<Task>, w: nat)
    requires Inv(s) && Enabled(s, Enter(w))
    ensures Inv(Apply(s, Enter(w)))
  {
    hide Count, Times;
    var r := EnterStep(s, w);
    CountsUpdate(s.workers, w, r.workers[w]);
    if s.queue != [] {
      assert s.queue == [s.queue[0]] + r.queue;
      assert r.started + r.queue == s.started + s.queue;
    }
    forall t ensures multiset(r.started)[t] == multiset(r.finished)[t] + Times(r.workers, t) {
      TimesUpdate(s.workers, w, r.workers[w], t);
    }
  }

  lemma FinishKeeps<Task(!new)>(s: Pool<Task>, w: nat, who: set<nat>)
    requires Inv(s) && Enabled(s, Finish(w, who))
    ensures Inv(Apply(s, Finish(w, who)))
  {
    hide Count, Times;
    var r := FinishStep(s, w, who);
    CountsUpdate(s.workers, w, Ready);
    forall t ensures multiset(r.started)[t] == multiset(r.finished)[t] + Times(r.workers, t) {
      TimesUpdate(s.workers, w, Ready, t);
    }
  }

  lemma WakeKeeps<Task(!new)>(s: Pool<Task>, rs: seq<Worker<Task>>)
    requires Inv(s) && |rs| == |s.workers|
    requires forall i :: 0 <= i < |rs| ==> rs[i] == s.workers[i] || (s.workers[i].Sleeping? && rs[i].Ready?)
    ensures Inv(s.(workers := rs))
    ensures (forall i :: 0 <= i < |rs| ==> !rs[i].Sleeping?) ==> Count(rs, IsSleeping) == 0
  {
    CountWoken(s.workers, rs);
    CountSum(s.workers);
    CountSum(rs);
    CountSome(rs, IsSleeping);
  }

  lemma StepKeeps<Task(!new)>(s: Pool<Task>, a: Action<Task>)
    requires Inv(s) && Enabled(s, a)
    ensures Inv(Apply(s, a))
  {
    match a
    case Add(t, woken) => AddKeeps(s, t, woken);
    case Enter(w) => EnterKeeps(s, w);
    case Finish(w, who) => FinishKeeps(s, w, who);
    case Wake(w) => WakeKeeps(s, s.workers[w := Ready]);
    case Stop => WakeKeeps(s, AllWoken(s.workers));
    case _ =>
  }

  lemma {:induction false} RunKeeps<Task(!new)>(s: Pool<Task>, run: seq<Action<Task>>)
    requires Inv(s) && Runs(s, run)
    ensures Inv(Exec(s, run))
    decreases |run|
  {
    if run == [] {
    } else {
      StepKeeps(s, run[0]);
      RunKeeps(Apply(s, run[0]), run[1..]);
    }
  }

  /** In every state the pool can reach, under any interleaving and any spurious wake-ups: started tasks
      followed by the queue are the added tasks in order, each started task is running or finished exactly
      once, `active_tasks` counts the running workers, and no worker sleeps while a queued task lacks an awake
      worker. */
  lemma EveryReachableState<Task(!new)>(n: nat, m: nat, run: seq<Action<Task>>)
    requires Runs(Init<Task>(n, m), run)
    ensures var s := Exec(Init<Task>(n, m), run);
            && s.started + s.queue == Added(run)
            && (forall t :: multiset(Added(run))[t]
                            == multiset(s.finished)[t] + Times(s.workers, t) + multiset(s.queue)[t])
            && s.active == Count(s.workers, IsRunning)
            && (Count(s.workers, IsSleeping) == 0 || |s.queue| <= Count(s.workers, IsReady))
  {
    InitInv<Task>(n, m);
    RunKeeps(Init<Task>(n, m), run);
    SubmittedIsAdded(Init<Task>(n, m), run);
    var s := Exec(Init<Task>(n, m), run);
    assert multiset(s.started + s.queue) == multiset(s.started) + multiset(s.queue);
  }
}
