/** modules/src/scheduler.c: a fixed table of task slots, swept in order while the callbacks it calls
    may create and destroy tasks. */
module Schedulers {
  import opened CText

  /** A slot holds two pointers; None is NULL. */
  datatype Slot = Slot(context: Option<nat>, callback: Option<nat>)

  const EMPTY := Slot(None, None)

  /** The first slot with both pointers NULL, or the table size. */
  function FirstFree(t: seq<Slot>): (i: nat)
    ensures i <= |t|
    ensures forall j :: 0 <= j < i ==> t[j] != EMPTY
    ensures i < |t| ==> t[i] == EMPTY
  {
    if t == [] || t[0] == EMPTY then 0 else 1 + FirstFree(t[1..])
  }

  function Created(t: seq<Slot>, s: Slot): seq<Slot> {
    if FirstFree(t) < |t| then t[FirstFree(t) := s] else t
  }

  function Destroyed(t: seq<Slot>, i: nat): seq<Slot> {
    if i < |t| then t[i := EMPTY] else t
  }

  function TaskCount(t: seq<Slot>): nat {
    if t == [] then 0 else TaskCount(t[..|t| - 1]) + if t[|t| - 1].callback.Some? then 1 else 0
  }

  /** The effect of calling the callback of slot `i`: anything it does to the world `W` around the
      table and, by creating and destroying tasks, to the table. */
  type Behaviour<!W> = (W, nat, seq<Slot>) -> (W, seq<Slot>)

  ghost predicate KeepsSize<W(!new)>(act: Behaviour<W>) {
    forall w, i, t :: |act(w, i, t).1| == |t|
  }

  /** What a sweep leaves behind: world, table, and the slots it called, in order. */
  datatype Swept<W> = Swept(world: W, table: seq<Slot>, calls: seq<nat>)

  /** The sweep from slot `i` on. */
  function Sweep<W(!new)>(act: Behaviour<W>, w: W, t: seq<Slot>, i: nat): Swept<W>
    requires KeepsSize(act)
    decreases |t| - i
  {
    if i >= |t| then Swept(w, t, [])
    else if t[i].callback.None? then Sweep(act, w, t, i + 1)
    else
      var r := act(w, i, t);
      var s := Sweep(act, r.0, r.1, i + 1);
      s.(calls := [i] + s.calls)
  }

  /** World and table at the moment the sweep that stands at slot `i` looks at slot `k`. */
  function Moment<W(!new)>(act: Behaviour<W>, w: W, t: seq<Slot>, i: nat, k: nat): (r: (W, seq<Slot>))
    requires KeepsSize(act) && i <= k <= |t|
    ensures |r.1| == |t|
    decreases k - i
  {
    if i == k then (w, t)
    else if t[i].callback.None? then Moment(act, w, t, i + 1, k)
    else var r := act(w, i, t); Moment(act, r.0, r.1, i + 1, k)
  }

  class Scheduler {
    const tasks: array<Slot>

    /** `scheduler_init` */
    constructor (size: nat)
      ensures fresh(tasks) && tasks.Length == size && forall i :: 0 <= i < size ==> tasks[i] == EMPTY
    {
      tasks := new Slot[size](_ => EMPTY);
    }

    /** `scheduler_create_task` */
    method CreateTask(s: Slot) returns (r: Option<nat>)
      modifies tasks
      ensures tasks[..] == Created(old(tasks[..]), s)
      ensures r == if FirstFree(old(tasks[..])) < tasks.Length then Some(FirstFree(old(tasks[..]))) else None
    {
      var i := 0;
      while i < tasks.Length
        invariant 0 <= i <= tasks.Length && tasks[..] == old(tasks[..])
        invariant forall j :: 0 <= j < i ==> tasks[j] != EMPTY
      {
        if tasks[i] == EMPTY {
          assert FirstFree(tasks[..]) == i;
          tasks[i] := s;
          return Some(i);
        }
        i := i + 1;
      }
      return None;
    }

    /** `scheduler_destroy_task` */
    method DestroyTask(task: nat)
      modifies tasks
      ensures tasks[..] == Destroyed(old(tasks[..]), task)
    {
      if task < tasks.Length {
        tasks[task] := EMPTY;
      }
    }

    /** `scheduler_get_task_count` */
    method GetTaskCount() returns (counter: nat)
      ensures counter == TaskCount(tasks[..])
    {
      counter := 0;
      var i := 0;
      while i < tasks.Length
        invariant 0 <= i <= tasks.Length && counter == TaskCount(tasks[..i])
      {
        assert tasks[..i + 1][..i] == tasks[..i];
        if tasks[i].callback.Some? { counter := counter + 1; }
        i := i + 1;
      }
      assert tasks[..tasks.Length] == tasks[..];
    }

    /** `scheduler_work`: the table each callback leaves behind is the one the loop goes on with. */
    method Work<W(!new)>(act: Behaviour<W>, world: W) returns (after: W, calls: seq<nat>)
      requires KeepsSize(act)
      modifies tasks
      ensures Swept(after, tasks[..], calls) == Sweep(act, world, old(tasks[..]), 0)
    {
      after, calls := world, [];
      var i := 0;
      ghost var whole := Sweep(act, world, tasks[..], 0);
      while i < tasks.Length
        invariant 0 <= i <= tasks.Length
        invariant var s := Sweep(act, after, tasks[..], i); whole == s.(calls := calls + s.calls)
      {
        if tasks[i].callback.Some? {
          var r := act(after, i, tasks[..]);
          ghost var s := Sweep(act, r.0, r.1, i + 1);
          assert calls + ([i] + s.calls) == calls + [i] + s.calls;
          Overwrite(tasks, r.1);
          after, calls := r.0, calls + [i];
        }
        i := i + 1;
      }
      assert calls + [] == calls;
    }
  }

  /** The table as a callback left it. */
  method Overwrite(tasks: array<Slot>, table: seq<Slot>)
    requires |table| == tasks.Length
    modifies tasks
    ensures tasks[..] == table
  {
    forall i | 0 <= i < tasks.Length { tasks[i] := table[i]; }
  }

  // ---------------------------------------------------------------------------------------
  // What one sweep calls

  /** Strictly increasing slot numbers from `lo` up to below `hi`. */
  predicate Ascending(calls: seq<nat>, lo: nat, hi: nat) {
    && (forall a :: 0 <= a < |calls| ==> lo <= calls[a] < hi)
    && (forall a, b :: 0 <= a < b < |calls| ==> calls[a] < calls[b])
  }

  lemma AscendingCons(i: nat, calls: seq<nat>, hi: nat)
    requires Ascending(calls, i + 1, hi)
    ensures Ascending(calls, i, hi) && (i < hi ==> Ascending([i] + calls, i, hi))
  {}

  /** A sweep goes through the table once, in order. */
  lemma {:induction false} CallsInOrder<W(!new)>(act: Behaviour<W>, w: W, t: seq<Slot>, i: nat)
    requires KeepsSize(act)
    ensures Ascending(Sweep(act, w, t, i).calls, i, |t|)
    decreases |t| - i
  {
    if i < |t| {
      if t[i].callback.None? {
        CallsInOrder(act, w, t, i + 1);
        AscendingCons(i, Sweep(act, w, t, i + 1).calls, |t|);
      } else {
        var r := act(w, i, t);
        CallsInOrder(act, r.0, r.1, i + 1);
        AscendingCons(i, Sweep(act, r.0, r.1, i + 1).calls, |t|);
      }
    }
  }

  /** A slot is called exactly when it holds a callback at the moment the sweep reaches it. */
  lemma {:induction false} CalledIffOccupied<W(!new)>(act: Behaviour<W>, w: W, t: seq<Slot>, i: nat, k: nat)
    requires KeepsSize(act) && i <= k < |t|
    ensures k in Sweep(act, w, t, i).calls <==> Moment(act, w, t, i, k).1[k].callback.Some?
    decreases |t| - i
  {
    if t[i].callback.None? {
      assert Sweep(act, w, t, i) == Sweep(act, w, t, i + 1);
      if i == k {
        CallsInOrder(act, w, t, i + 1);
      } else {
        CalledIffOccupied(act, w, t, i + 1, k);
      }
    } else if i < k {
      var r := act(w, i, t);
      CalledIffOccupied(act, r.0, r.1, i + 1, k);
    }
  }

  lemma {:induction false} OrderedOnce(calls: seq<nat>, lo: nat, hi: nat, k: nat)
    requires Ascending(calls, lo, hi)
    ensures multiset(calls)[k] == if k in calls then 1 else 0
  {
    if calls == [] {
    } else {
      var front, last := calls[..|calls| - 1], calls[|calls| - 1];
      assert calls == front + [last];
      OrderedOnce(front, lo, hi, k);
      assert last !in front;
    }
  }

  /** In each sweep, whatever the callbacks do: no slot is called twice, and a task that stays in its
      slot for the whole sweep is called exactly once. */
  lemma LiveTaskCalledOnce<W(!new)>(act: Behaviour<W>, w: W, t: seq<Slot>, k: nat)
    requires KeepsSize(act) && k < |t|
    ensures multiset(Sweep(act, w, t, 0).calls)[k] <= 1
    ensures t[k].callback.Some? && (forall j :: 0 <= j <= |t| ==> Moment(act, w, t, 0, j).1[k] == t[k]) ==>
              multiset(Sweep(act, w, t, 0).calls)[k] == 1
  {
    CallsInOrder(act, w, t, 0);
    CalledIffOccupied(act, w, t, 0, k);
    OrderedOnce(Sweep(act, w, t, 0).calls, 0, |t|, k);
  }

  /** Creating stores context and callback in the first empty slot and touches no other; a full table stays. */
  lemma CreatedExactly(t: seq<Slot>, s: Slot, i: nat)
    requires i < |t|
    ensures |Created(t, s)| == |t|
    ensures Created(t, s)[i] == if t[i] == EMPTY && (forall j :: 0 <= j < i ==> t[j] != EMPTY) then s else t[i]
  {}

  function Occupied(t: seq<Slot>): set<nat> { set i: nat | i < |t| && t[i].callback.Some? }

  /** The count is the number of occupied slots. */
  lemma {:induction false} CountExactly(t: seq<Slot>)
    ensures TaskCount(t) == |Occupied(t)|
  {
    if t == [] {
      assert Occupied(t) == {};
    } else {
      var n := |t| - 1;
      CountExactly(t[..n]);
      assert Occupied(t) == Occupied(t[..n]) + if t[n].callback.Some? then {n} else {};
    }
  }

  lemma {:induction false} CountUpdate(t: seq<Slot>, i: nat, s: Slot)
    requires i < |t|
    ensures TaskCount(t[i := s]) + (if t[i].callback.Some? then 1 else 0)
            == TaskCount(t) + (if s.callback.Some? then 1 else 0)
  {
    var n := |t| - 1;
    if i == n {
      assert t[i := s][..n] == t[..n];
    } else {
      assert t[i := s][..n] == t[..n][i := s];
      CountUpdate(t[..n], i, s);
    }
  }

  /** On a table with room, creating a task is undone by destroying it, and counts one. */
  lemma CreateThenDestroy(t: seq<Slot>, s: Slot)
    requires FirstFree(t) < |t|
    ensures Destroyed(Created(t, s), FirstFree(t)) == t
    ensures TaskCount(Created(t, s)) == TaskCount(t) + if s.callback.Some? then 1 else 0
  {
    assert t[FirstFree(t) := s][FirstFree(t) := EMPTY] == t;
    CountUpdate(t, FirstFree(t), s);
  }
}
