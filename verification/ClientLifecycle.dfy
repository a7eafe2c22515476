/** HTTP clients as scheduler tasks: modules/src/http_client.c (`http_client_taskwork`,
    `http_client_dispose`) driven by the sweeps of modules/src/scheduler.c. */
module ClientLifecycle {
  import opened CText
  import opened ResponseMachine
  import opened Sending
  import opened Schedulers

  /** One client: its state, its slot while it has a task, whether `on_success` is set, how often that was
      called, whether the client has ever been in state Error, and whether the program took its task away. */
  datatype Life = Life(state: State, slot: Option<nat>, hasCallback: bool, fired: nat, failed: bool, dropped: bool)

  /** All clients ever initiated, and how many callbacks have run. */
  datatype World = World(clients: seq<Life>, calls: nat)

  /** What the program can do to clients at any time: `http_client_initiate`, with or without `on_success`, and
      `http_client_dispose` of any client, finished or not. */
  datatype Deed = Initiate(hasCallback: bool) | Dispose(id: nat)

  /** What the outside decides in one call: the next state of a work task, and what the callback does. */
  datatype Choice = Choice(next: State, deeds: seq<Deed>)

  type Oracle = nat -> Choice

  /** The address of `http_client_taskwork`. */
  const TASKWORK: nat := 1

  /** The state changes the work tasks can make. */
  predicate Follows(s: State, n: State) {
    match s
    case Connecting => n in {Connecting, WaitingConnect, BuildingRequest, Error}
    case WaitingConnect => n in {WaitingConnect, BuildingRequest, Error}
    case BuildingRequest => n in {SendingRequest, Error}
    case SendingRequest => n in {SendingRequest, ReadingFirstline, Error}
    case ReadingFirstline => n in {ReadingFirstline, ReadingHeaders, Error}
    case ReadingHeaders => n in {ReadingHeaders, DecipherChonkiness, ReadingBody, Returning, Error}
    case DecipherChonkiness => n in {DecipherChonkiness, ReadingBodyChunked, Returning, Error, Undefined}
    case ReadingBodyChunked => n in {ReadingBodyChunked, DecipherChonkiness, Error, Undefined}
    case ReadingBody => n in {ReadingBody, Returning, Error}
    case _ => false
  }

  /** The receive machine and the sender make no other state changes. */
  lemma StepFollows(ok: string -> bool, c: Client)
    requires Receiving(c.state)
    ensures Follows(c.state, Step(ok, c).state)
  {}

  lemma SendFollows(s: Sender)
    requires InRange(s) && s.state == SendingRequest
    ensures Follows(s.state, SendStep(s).state)
  {}

  /** One `http_client_taskwork` call as far as the life of the client goes. */
  function LifeStep(l: Life, ch: Choice): Life {
    match l.state
    case Returning =>
      if l.hasCallback then l.(state := Disposing, fired := l.fired + 1) else l.(state := Error, failed := true)
    case Error => l.(state := Disposing)
    case Disposing => l.(slot := None)
    case _ => if Follows(l.state, ch.next) then l.(state := ch.next, failed := l.failed || ch.next == Error) else l
  }

  /** What makes a call one life step. */
  lemma IsLifeStep(l: Life, r: Life)
    requires r.hasCallback == l.hasCallback && r.dropped == l.dropped && r.failed == (l.failed || r.state == Error)
    requires r.fired == l.fired + if l.state == Returning && l.hasCallback then 1 else 0
    requires r.slot == if l.state == Disposing then None else l.slot
    requires match l.state
             case Returning => r.state == if l.hasCallback then Disposing else Error
             case Error => r.state == Disposing
             case _ => r.state == l.state || Follows(l.state, r.state)
    ensures r == LifeStep(l, Choice(r.state, []))
  {}

  /** `http_client_dispose`: a client that has a task loses it; one without is left alone. */
  function Drop(l: Life): Life { if l.slot == None then l else l.(slot := None, dropped := true) }

  function Fresh(slot: nat, hasCallback: bool): Life { Life(Connecting, Some(slot), hasCallback, 0, false, false) }

  /** One deed. Initiating needs a free slot (ERR_BUSY otherwise). */
  function Perform(clients: seq<Life>, t: seq<Slot>, deed: Deed): (r: (seq<Life>, seq<Slot>))
    ensures |r.1| == |t|
  {
    match deed
    case Initiate(hasCallback) =>
      var f := FirstFree(t);
      if f == |t| then (clients, t)
      else (clients + [Fresh(f, hasCallback)], t[f := Slot(Some(|clients|), Some(TASKWORK))])
    case Dispose(id) =>
      if id >= |clients| || clients[id].slot == None then (clients, t)
      else (clients[id := Drop(clients[id])], Destroyed(t, clients[id].slot.value))
  }

  function PerformAll(clients: seq<Life>, t: seq<Slot>, deeds: seq<Deed>): (r: (seq<Life>, seq<Slot>))
    ensures |r.1| == |t|
    decreases |deeds|
  {
    if deeds == [] then (clients, t)
    else
      var r := Perform(clients, t, deeds[0]);
      PerformAll(r.0, r.1, deeds[1..])
  }

  /** The callback of slot `i`. */
  function Call(oracle: Oracle, w: World, i: nat, t: seq<Slot>): (r: (World, seq<Slot>))
    ensures |r.1| == |t|
  {
    if i >= |t| || t[i].context.None? || t[i].context.value >= |w.clients| then (w.(calls := w.calls + 1), t)
    else
      var id := t[i].context.value;
      var l := w.clients[id];
      var table := if l.state == Disposing then Destroyed(t, i) else t;
      var r := PerformAll(w.clients[id := LifeStep(l, oracle(w.calls))], table, oracle(w.calls).deeds);
      (World(r.0, w.calls + 1), r.1)
  }

  function Taskworks(oracle: Oracle): Behaviour<World> {
    (w: World, i: nat, t: seq<Slot>) => Call(oracle, w, i, t)
  }

  lemma TaskworksKeepSize(oracle: Oracle)
    ensures KeepsSize(Taskworks(oracle))
  {}

  // ---------------------------------------------------------------------------------------
  // The invariant

  /** `on_success` at most once, and only on clients that never fail. */
  predicate LifeOk(l: Life) {
    && (l.slot == None ==> l.state == Disposing || l.dropped)
    && match l.state
       case Error => l.failed && l.fired == 0
       case Disposing => l.fired == if l.failed then 0 else 1
       case _ => !l.failed && l.fired == 0
  }

  /** Table and clients point at each other. */
  predicate Linked(clients: seq<Life>, t: seq<Slot>) {
    && (forall id :: 0 <= id < |clients| && clients[id].slot.Some? ==>
          clients[id].slot.value < |t| && t[clients[id].slot.value] == Slot(Some(id), Some(TASKWORK)))
    && (forall i :: 0 <= i < |t| && t[i] != EMPTY ==>
          && t[i].context.Some? && t[i].callback == Some(TASKWORK)
          && t[i].context.value < |clients| && clients[t[i].context.value].slot == Some(i))
  }

  predicate WellKept(clients: seq<Life>, t: seq<Slot>) {
    Linked(clients, t) && forall id :: 0 <= id < |clients| ==> LifeOk(clients[id])
  }

  /** `r` is `l`, unless the program has disposed of it since. */
  predicate Since(l: Life, r: Life) { r == l || r == Drop(l) }

  /** Everyone but `id`, and none lost. */
  predicate OthersSince(before: seq<Life>, after: seq<Life>, id: int) {
    |before| <= |after| && forall k :: 0 <= k < |before| && k != id ==> Since(before[k], after[k])
  }

  /** One `http_client_initiate` into a free slot. */
  lemma InitiateKeeps(clients: seq<Life>, t: seq<Slot>, f: nat, hasCallback: bool)
    requires WellKept(clients, t) && f < |t| && t[f] == EMPTY
    ensures WellKept(clients + [Fresh(f, hasCallback)], t[f := Slot(Some(|clients|), Some(TASKWORK))])
  {}

  lemma PerformKeeps(clients: seq<Life>, t: seq<Slot>, deed: Deed)
    requires WellKept(clients, t)
    ensures var r := Perform(clients, t, deed);
            WellKept(r.0, r.1) && OthersSince(clients, r.0, -1)
  {
    match deed
    case Initiate(hasCallback) =>
      hide Linked;
      if FirstFree(t) < |t| {
        InitiateKeeps(clients, t, FirstFree(t), hasCallback);
      }
    case Dispose(id) =>
      if id < |clients| && clients[id].slot.Some? {
        UnlinkKeeps(clients, t, clients[id].slot.value, id, Drop(clients[id]));
      }
  }

  lemma {:induction false} PerformAllKeeps(clients: seq<Life>, t: seq<Slot>, deeds: seq<Deed>)
    requires WellKept(clients, t)
    ensures var r := PerformAll(clients, t, deeds);
            WellKept(r.0, r.1) && OthersSince(clients, r.0, -1)
    decreases |deeds|
  {
    hide WellKept, Perform;
    if deeds == [] {
    } else {
      PerformKeeps(clients, t, deeds[0]);
      var r := Perform(clients, t, deeds[0]);
      PerformAllKeeps(r.0, r.1, deeds[1..]);
    }
  }

  /** What the links say about one slot and one client. */
  lemma LinkFacts(clients: seq<Life>, t: seq<Slot>, j: nat, id: nat)
    requires WellKept(clients, t) && j < |t| && id < |clients|
    ensures t[j].callback.None? ==> clients[id].slot != Some(j)
    ensures t[j].callback.Some? ==>
              && t[j].context.Some? && t[j].context.value < |clients|
              && (t[j].context.value == id <==> clients[id].slot == Some(j))
    ensures clients[id].slot.Some? ==> clients[id].slot.value < |t|
    ensures LifeOk(clients[id])
  {}

  /** A callback changes its own client by one life step, disposes of some clients, and adds new ones. */
  lemma CallKeeps(oracle: Oracle, w: World, i: nat, t: seq<Slot>)
    requires WellKept(w.clients, t) && i < |t| && t[i].callback.Some?
    ensures var r := Call(oracle, w, i, t);
            var id := t[i].context.value;
            && WellKept(r.0.clients, r.1) && OthersSince(w.clients, r.0.clients, id)
            && Since(LifeStep(w.clients[id], oracle(w.calls)), r.0.clients[id])
  {
    var id := t[i].context.value;
    var l := w.clients[id];
    var clients := w.clients[id := LifeStep(l, oracle(w.calls))];
    var table := if l.state == Disposing then Destroyed(t, i) else t;
    StepKeepsLinks(w.clients, t, i, id, oracle(w.calls));
    PerformAllKeeps(clients, table, oracle(w.calls).deeds);
  }

  lemma StepKeepsLinks(clients: seq<Life>, t: seq<Slot>, i: nat, id: nat, ch: Choice)
    requires WellKept(clients, t) && i < |t| && t[i].callback.Some? && t[i].context == Some(id)
    ensures id < |clients|
    ensures WellKept(clients[id := LifeStep(clients[id], ch)],
                     if clients[id].state == Disposing then Destroyed(t, i) else t)
  {
    var l := LifeStep(clients[id], ch);
    LifeStepOk(clients[id], ch);
    if clients[id].state == Disposing {
      UnlinkKeeps(clients, t, i, id, l);
    } else {
      RelinkKeeps(clients, t, id, l);
    }
    hide LifeStep, Linked;
    var updated := clients[id := l];
    assert forall k :: 0 <= k < |updated| ==> LifeOk(updated[k]);
  }

  lemma LifeStepOk(l: Life, ch: Choice)
    requires LifeOk(l) && l.slot.Some?
    ensures LifeOk(LifeStep(l, ch))
    ensures LifeStep(l, ch).slot == if l.state == Disposing then None else l.slot
  {}

  lemma UnlinkKeeps(clients: seq<Life>, t: seq<Slot>, i: nat, id: nat, l: Life)
    requires Linked(clients, t) && i < |t| && id < |clients| && clients[id].slot == Some(i) && l.slot == None
    ensures Linked(clients[id := l], Destroyed(t, i))
  {}

  lemma RelinkKeeps(clients: seq<Life>, t: seq<Slot>, id: nat, l: Life)
    requires Linked(clients, t) && id < |clients| && l.slot == clients[id].slot
    ensures Linked(clients[id := l], t)
  {}

  /** One sweep from slot `j`: a client whose slot is still ahead makes exactly one life step, with the returned
      choice, unless it is disposed of before its turn; every other client keeps its life. Callbacks called
      later may dispose of both. */
  lemma {:induction false} SweepClient(oracle: Oracle, w: World, t: seq<Slot>, j: nat, id: nat) returns (c: nat)
    requires WellKept(w.clients, t) && id < |w.clients| && KeepsSize(Taskworks(oracle))
    ensures var s := Sweep(Taskworks(oracle), w, t, j);
            var l := w.clients[id];
            && WellKept(s.world.clients, s.table) && |s.world.clients| >= |w.clients| && |s.table| == |t|
            && var r := s.world.clients[id];
               if l.slot.Some? && l.slot.value >= j then Since(LifeStep(l, oracle(c)), r) || r == Drop(l)
               else Since(l, r)
    decreases |t| - j
  {
    hide WellKept, Call, FirstFree, LifeOk, KeepsSize;
    c := 0;
    if j < |t| {
      LinkFacts(w.clients, t, j, id);
      if t[j].callback.None? {
        c := SweepClient(oracle, w, t, j + 1, id);
      } else {
        var r := Taskworks(oracle)(w, j, t);
        assert r == Call(oracle, w, j, t);
        CallKeeps(oracle, w, j, t);
        c := SweepClient(oracle, r.0, r.1, j + 1, id);
        if t[j].context.value == id {
          LifeStepSlot(w.clients[id], oracle(w.calls));
          c := w.calls;
        }
      }
    } else if |t| > 0 {
      LinkFacts(w.clients, t, 0, id);
    } else {
      EmptyTable(w.clients, t, id);
    }
  }

  lemma EmptyTable(clients: seq<Life>, t: seq<Slot>, id: nat)
    requires WellKept(clients, t) && |t| == 0 && id < |clients|
    ensures clients[id].slot == None
  {}

  lemma LifeStepSlot(l: Life, ch: Choice)
    ensures LifeStep(l, ch).slot == l.slot || LifeStep(l, ch).slot == None
  {}

  // ---------------------------------------------------------------------------------------
  // Whole runs

  /** What the program does: call `scheduler_work`, or initiate or dispose of a client between two calls. */
  datatype Event = Work | Between(deed: Deed)

  datatype Stage = Stage(world: World, table: seq<Slot>)

  ghost predicate Kept(s: Stage) { WellKept(s.world.clients, s.table) }

  /** `scheduler_init`: an empty table of any size, no clients. */
  function Boot(size: nat): Stage { Stage(World([], 0), seq(size, _ => EMPTY)) }

  function Happen(oracle: Oracle, s: Stage, e: Event): Stage {
    match e
    case Work =>
      TaskworksKeepSize(oracle);
      var r := Sweep(Taskworks(oracle), s.world, s.table, 0);
      Stage(r.world, r.table)
    case Between(deed) =>
      var r := Perform(s.world.clients, s.table, deed);
      Stage(s.world.(clients := r.0), r.1)
  }

  function After(oracle: Oracle, s: Stage, run: seq<Event>): Stage
    decreases |run|
  {
    if run == [] then s else After(oracle, Happen(oracle, s, run[0]), run[1..])
  }

  function SweepCount(run: seq<Event>): nat {
    if run == [] then 0 else (if run[0].Work? then 1 else 0) + SweepCount(run[1..])
  }

  lemma {:induction false} SweepKeeps(oracle: Oracle, w: World, t: seq<Slot>, j: nat)
    requires WellKept(w.clients, t) && KeepsSize(Taskworks(oracle))
    ensures var s := Sweep(Taskworks(oracle), w, t, j);
            WellKept(s.world.clients, s.table) && |s.world.clients| >= |w.clients|
    decreases |t| - j
  {
    hide WellKept, Call, KeepsSize;
    if j >= |t| {
    } else if t[j].callback.None? {
      SweepKeeps(oracle, w, t, j + 1);
    } else {
      var r := Taskworks(oracle)(w, j, t);
      assert r == Call(oracle, w, j, t);
      OccupiedHasClient(w.clients, t, j);
      CallKeeps(oracle, w, j, t);
      SweepKeeps(oracle, r.0, r.1, j + 1);
    }
  }

  lemma OccupiedHasClient(clients: seq<Life>, t: seq<Slot>, j: nat)
    requires WellKept(clients, t) && j < |t| && t[j].callback.Some?
    ensures t[j].context.Some? && t[j].context.value < |clients|
  {}

  lemma HappenKeeps(oracle: Oracle, s: Stage, e: Event)
    requires Kept(s)
    ensures Kept(Happen(oracle, s, e)) && |Happen(oracle, s, e).world.clients| >= |s.world.clients|
  {
    hide WellKept, Sweep;
    match e
    case Work =>
      TaskworksKeepSize(oracle);
      SweepKeeps(oracle, s.world, s.table, 0);
    case Between(deed) =>
      PerformKeeps(s.world.clients, s.table, deed);
  }

  lemma {:induction false} RunKeeps(oracle: Oracle, s: Stage, run: seq<Event>)
    requires Kept(s)
    ensures Kept(After(oracle, s, run)) && |After(oracle, s, run).world.clients| >= |s.world.clients|
    decreases |run|
  {
    hide Kept, Happen;
    if run == [] {
    } else {
      HappenKeeps(oracle, s, run[0]);
      RunKeeps(oracle, Happen(oracle, s, run[0]), run[1..]);
    }
  }

  lemma BootKept(size: nat)
    ensures Kept(Boot(size))
  {}

  /** Whatever the network, the clock and the callbacks do: at every point of every run of the program,
      `on_success` has been called at most once per client, never on a client that was ever in state Error,
      and exactly once on every other client that has left the table of its own accord. */
  lemma FiresAtMostOnce(oracle: Oracle, size: nat, run: seq<Event>, id: nat)
    requires id < |After(oracle, Boot(size), run).world.clients|
    ensures var l := After(oracle, Boot(size), run).world.clients[id];
            l.fired <= 1 && (l.failed ==> l.fired == 0) && (l.slot == None && !l.failed && !l.dropped ==> l.fired == 1)
  {
    BootKept(size);
    RunKeeps(oracle, Boot(size), run);
    assert LifeOk(After(oracle, Boot(size), run).world.clients[id]);
  }

  /** Out of the table for good. */
  predicate Gone(s: Stage, id: nat) {
    && id < |s.world.clients| && s.world.clients[id].slot == None
    && forall i :: 0 <= i < |s.table| ==> s.table[i].context != Some(id)
  }

  lemma NoSlotNoTask(s: Stage, id: nat)
    requires Kept(s) && id < |s.world.clients| && s.world.clients[id].slot == None
    ensures Gone(s, id)
  {}

  /** An initiation puts a new client in the first free slot and leaves everyone else alone; without a free slot
      it does nothing. */
  lemma InitiateExactly(s: Stage, oracle: Oracle, hasCallback: bool)
    requires Kept(s)
    ensures var r := Happen(oracle, s, Between(Initiate(hasCallback)));
            var f := FirstFree(s.table);
            if f == |s.table| then r == s
            else
              && r.table == s.table[f := Slot(Some(|s.world.clients|), Some(TASKWORK))]
              && r.world.clients == s.world.clients + [Life(Connecting, Some(f), hasCallback, 0, false, false)]
              && r.world.calls == s.world.calls
  {}

  /** A disposal takes the client's task away at once, and nothing else from anyone. */
  lemma DisposeExactly(s: Stage, oracle: Oracle, id: nat)
    requires Kept(s) && id < |s.world.clients|
    ensures var r := Happen(oracle, s, Between(Dispose(id)));
            var l := s.world.clients[id];
            && Gone(r, id) && |r.world.clients| == |s.world.clients| && r.world.calls == s.world.calls
            && r.world.clients[id] == (if l.slot == None then l
                                       else Life(l.state, None, l.hasCallback, l.fired, l.failed, true))
            && (forall k :: 0 <= k < |s.world.clients| && k != id ==> r.world.clients[k] == s.world.clients[k])
            && (forall i :: 0 <= i < |s.table| && l.slot != Some(i) ==> r.table[i] == s.table[i])
  {
    PerformKeeps(s.world.clients, s.table, Dispose(id));
    NoSlotNoTask(Happen(oracle, s, Between(Dispose(id))), id);
  }

  function Events(deeds: seq<Deed>): seq<Event> {
    if deeds == [] then [] else [Between(deeds[0])] + Events(deeds[1..])
  }

  lemma {:induction false} DeedsAreEvents(oracle: Oracle, s: Stage, deeds: seq<Deed>)
    ensures var r := PerformAll(s.world.clients, s.table, deeds);
            After(oracle, s, Events(deeds)) == Stage(World(r.0, s.world.calls), r.1)
    decreases |deeds|
  {
    hide Perform;
    if deeds == [] {
    } else {
      DeedsAreEvents(oracle, Happen(oracle, s, Between(deeds[0])), deeds[1..]);
    }
  }

  /** A call is one life step of its own client, and then whatever the program does in the callback, done as it
      would be between two sweeps. */
  lemma CallIsStepThenDeeds(oracle: Oracle, s: Stage, i: nat)
    requires Kept(s) && i < |s.table| && s.table[i].callback.Some?
    ensures var id := s.table[i].context.value;
            var l := s.world.clients[id];
            var stepped := Stage(World(s.world.clients[id := LifeStep(l, oracle(s.world.calls))], s.world.calls + 1),
                                 if l.state == Disposing then s.table[i := EMPTY] else s.table);
            var r := Call(oracle, s.world, i, s.table);
            Stage(r.0, r.1) == After(oracle, stepped, Events(oracle(s.world.calls).deeds))
  {
    hide PerformAll, LifeStep, Happen;
    OccupiedHasClient(s.world.clients, s.table, i);
    var id := s.table[i].context.value;
    var l := s.world.clients[id];
    var stepped := Stage(World(s.world.clients[id := LifeStep(l, oracle(s.world.calls))], s.world.calls + 1),
                         if l.state == Disposing then s.table[i := EMPTY] else s.table);
    DeedsAreEvents(oracle, stepped, oracle(s.world.calls).deeds);
  }

  /** At most `k` sweeps away from being disposed of. */
  predicate Leaving(l: Life, k: nat) {
    l.slot == None || (l.state == Disposing && k >= 1) || (l.state == Error && k >= 2)
  }

  /** Each sweep brings a leaving client one step closer, what the program does none away; a client without a
      slot is not touched any more. */
  lemma HappenLeaves(oracle: Oracle, s: Stage, e: Event, id: nat, k: nat)
    requires Kept(s) && id < |s.world.clients| && Leaving(s.world.clients[id], k)
    ensures var r := Happen(oracle, s, e);
            && id < |r.world.clients|
            && Leaving(r.world.clients[id], if e.Work? && k > 0 then k - 1 else k)
            && (s.world.clients[id].slot == None ==> r.world.clients[id] == s.world.clients[id])
  {
    hide WellKept, Sweep;
    match e
    case Work =>
      TaskworksKeepSize(oracle);
      var _ := SweepClient(oracle, s.world, s.table, 0, id);
    case Between(deed) =>
      PerformKeeps(s.world.clients, s.table, deed);
  }

  lemma {:induction false} RunLeaves(oracle: Oracle, s: Stage, run: seq<Event>, id: nat, k: nat)
    requires Kept(s) && id < |s.world.clients| && Leaving(s.world.clients[id], k) && SweepCount(run) >= k
    ensures Kept(After(oracle, s, run)) && id < |After(oracle, s, run).world.clients|
    ensures After(oracle, s, run).world.clients[id].slot == None
    decreases |run|
  {
    hide Kept, Happen;
    if run == [] {
    } else {
      HappenKeeps(oracle, s, run[0]);
      HappenLeaves(oracle, s, run[0], id, k);
      RunLeaves(oracle, Happen(oracle, s, run[0]), run[1..], id, if run[0].Work? && k > 0 then k - 1 else k);
    }
  }

  /** A client found in state Disposing is gone after one more sweep and one found in Error after two, whatever
      is initiated or disposed of before, between and after them. */
  lemma FreedWithinTwoSweeps(oracle: Oracle, s: Stage, run: seq<Event>, id: nat)
    requires Kept(s) && id < |s.world.clients|
    requires s.world.clients[id].state in {Disposing, Error}
    requires SweepCount(run) >= if s.world.clients[id].state == Error then 2 else 1
    ensures Gone(After(oracle, s, run), id)
  {
    hide WellKept;
    RunLeaves(oracle, s, run, id, if s.world.clients[id].state == Error then 2 else 1);
    NoSlotNoTask(After(oracle, s, run), id);
  }

  /** A client that is gone stays gone, and its life is over. */
  lemma {:induction false} StaysGone(oracle: Oracle, s: Stage, run: seq<Event>, id: nat)
    requires Kept(s) && Gone(s, id)
    ensures Gone(After(oracle, s, run), id) && After(oracle, s, run).world.clients[id] == s.world.clients[id]
    decreases |run|
  {
    hide WellKept, Happen;
    if run == [] {
    } else {
      var r := Happen(oracle, s, run[0]);
      HappenKeeps(oracle, s, run[0]);
      HappenLeaves(oracle, s, run[0], id, 0);
      NoSlotNoTask(r, id);
      StaysGone(oracle, r, run[1..], id);
    }
  }
}
