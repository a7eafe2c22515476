/** The shared record of modules/src/thread_pool.c, with its queue on the heap as a linked list.
    Each method is one critical section and performs exactly one step of `ThreadPool`. */
module ThreadPoolObject {
  import opened LinkedLists
  import opened ThreadPool

  /** What a worker does after its critical section at the top of the loop. */
  datatype Next<Task> = Wait | Leave | Execute(task: Task)

  class ThreadPoolRecord<Task(!new)> {
    const queue: LinkedList<Task>
    var activeTasks: int
    var stop: bool
    // The threads' control state and the history, which the C program does not store.
    ghost var workers: seq<Worker<Task>>
    ghost var waiters: seq<Waiter>
    ghost var submitted: seq<Task>
    ghost var started: seq<Task>
    ghost var finished: seq<Task>

    ghost predicate Valid()
      reads this, queue, queue.nodes
    {
      queue.Valid()
    }

    ghost function View(): Pool<Task>
      reads this, queue, queue.nodes
    {
      Pool(queue.Items(), activeTasks, stop, workers, waiters, submitted, started, finished)
    }

    /** `tp_init` */
    constructor (maxThreads: int, ghost callers: nat)
      ensures Valid() && View() == Init(if maxThreads <= 0 then 2 else maxThreads, callers)
      ensures fresh(queue) && fresh(queue.nodes)
    {
      queue := new LinkedList<Task>();
      activeTasks, stop := 0, false;
      workers := seq(if maxThreads <= 0 then 2 else maxThreads, _ => Ready);
      waiters := seq(callers, _ => Outside);
      submitted, started, finished := [], [], [];
    }

    /** `tp_task_add` between lock and unlock. */
    method TaskAdd(task: Task, ghost woken: set<nat>)
      requires Valid() && Enabled(View(), Add(task, woken))
      modifies this, queue, queue.nodes
      ensures Valid() && View() == Apply(old(View()), Add(task, woken))
      ensures queue.Items() == old(queue.Items()) + [task]
      ensures forall x <- queue.nodes :: x in old(queue.nodes) || fresh(x)
    {
      var _ := queue.ItemAdd(task);
      submitted := submitted + [task];
      workers := Woken(workers, woken);
    }

    /** `tp_worker` from lock to wait, unlock-and-break, or unlock-and-run. */
    method WorkerEnter(ghost w: nat) returns (next: Next<Task>)
      requires Valid() && Enabled(View(), Enter(w))
      modifies this, queue, queue.nodes
      ensures Valid() && View() == Apply(old(View()), Enter(w))
      ensures workers[w] == match next case Wait => Sleeping case Leave => Exited case Execute(t) => Running(t)
      ensures if old(queue.Items()) == [] then next == if stop then Leave else Wait
              else next == Execute(old(queue.Items())[0]) && queue.Items() == old(queue.Items())[1..]
      ensures forall x <- queue.nodes :: x in old(queue.nodes)
    {
      if queue.count == 0 && !stop {
        workers := workers[w := Sleeping];
        return Wait;
      }
      if queue.count == 0 && stop {
        workers := workers[w := Exited];
        return Leave;
      }
      var task := queue.head.item;
      assert task == queue.Items()[0];
      queue.ItemRemove(queue.head, 0);
      assert queue.Items() == old(queue.Items())[1..];
      activeTasks := activeTasks + 1;
      workers := workers[w := Running(task)];
      started := started + [task];
      return Execute(task);
    }

    /** `tp_worker` after the task has run. */
    method WorkerFinish(ghost w: nat, ghost signalled: set<nat>)
      requires Valid() && Enabled(View(), Finish(w, signalled))
      modifies this
      ensures Valid() && View() == Apply(old(View()), Finish(w, signalled))
    {
      activeTasks := activeTasks - 1;
      finished := finished + [workers[w].task];
      workers := workers[w := Ready];
      waiters := Signalled(waiters, signalled);
    }

    /** `tp_wait`: one evaluation of its loop condition under the lock. */
    method WaitTest(ghost k: nat) returns (again: bool)
      requires Valid() && Enabled(View(), TestWait(k))
      modifies this
      ensures Valid() && View() == Apply(old(View()), TestWait(k))
      ensures again <==> waiters[k].Blocked?
    {
      again := activeTasks > 0 || queue.count > 0;
      waiters := waiters[k := if again then Blocked else Returned];
    }

    /** `tp_dispose` up to the joins: nothing happens on a pool that is already stopping. */
    method BeginDispose() returns (first: bool)
      requires Valid()
      modifies this
      ensures Valid() && first == !old(stop)
      ensures View() == if first then Apply(old(View()), Stop) else old(View())
    {
      if stop { return false; }
      stop := true;
      workers := AllWoken(workers);
      return true;
    }
  }
}
