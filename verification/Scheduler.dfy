/** The cooperative scheduler: priority round-robin over a queue that also holds blocked tasks. */
module Scheduler {
  import opened Results

  datatype BlockReason = IpcReply | Sleep | Io | PageFault | Other

  datatype TaskState = Created | Ready | Running | Blocked(reason: BlockReason) | Dead

  type Priority = p: int | 0 <= p < 256

  datatype Task = Task(id: nat, state: TaskState, priority: Priority)

  /** The saved context that a switch writes to or reads from. */
  datatype Slot = IdleSlot | TaskSlot(id: nat)

  /** The debug assertion of `mark_ready` is its precondition. */
  function MarkReady(t: Task): Task
    requires !t.state.Running? && !t.state.Dead?
  {
    t.(state := Ready)
  }

  predicate IsRunnable(t: Task) { t.state == Ready }

  // ---------------------------------------------------------------------------------------
  // Choosing a task
  // ---------------------------------------------------------------------------------------

  predicate Eligible(t: Task) { IsRunnable(t) && t.priority > 0 }

  /** Task `i` is the first of the highest-priority ready tasks. */
  ghost predicate IsBest(q: seq<Task>, i: nat)
  {
    && i < |q| && Eligible(q[i])
    && (forall j :: 0 <= j < |q| && IsRunnable(q[j]) ==> q[j].priority <= q[i].priority)
    && (forall j :: 0 <= j < i && IsRunnable(q[j]) ==> q[j].priority < q[i].priority)
  }

  /** At most one task is best. */
  lemma BestIsUnique(q: seq<Task>, i: nat, j: nat)
    requires IsBest(q, i) && IsBest(q, j)
    ensures i == j
  {}

  /** The best task, if any task is eligible. */
  ghost function Best(q: seq<Task>): (r: Option<nat>)
    ensures r.Some? ==> IsBest(q, r.value)
    ensures r.None? ==> forall j :: 0 <= j < |q| ==> !Eligible(q[j])
  {
    if exists i :: IsBest(q, i) then
      var i :| IsBest(q, i); Some(i)
    else
      NoBestMeansNoneEligible(q); None
  }

  lemma NoBestMeansNoneEligible(q: seq<Task>)
    requires forall i :: !IsBest(q, i)
    ensures forall j :: 0 <= j < |q| ==> !Eligible(q[j])
  {
    forall j | 0 <= j < |q| ensures !Eligible(q[j]) {
      if Eligible(q[j]) {
        assert q[..|q|] == q;
        var i := BestOf(q, |q|, j);
      }
    }
  }

  /** Among the first `n` tasks one is best as soon as one is eligible. */
  lemma {:induction false} BestOf(q: seq<Task>, n: nat, j: nat) returns (i: nat)
    requires j < n <= |q| && Eligible(q[j])
    ensures IsBest(q[..n], i)
    decreases n
  {
    var front := q[..n - 1];
    if exists h :: 0 <= h < n - 1 && Eligible(q[h]) {
      var h :| 0 <= h < n - 1 && Eligible(q[h]);
      i := BestOf(q, n - 1, h);
      assert front[i] == q[i];
      assert forall x :: 0 <= x < n - 1 ==> q[x] == front[x];
      if Eligible(q[n - 1]) && q[n - 1].priority > q[i].priority {
        i := n - 1;
      }
    } else {
      i := j;
      assert j == n - 1;
      assert forall x :: 0 <= x < n - 1 && IsRunnable(q[x]) ==> !Eligible(q[x]) && q[x].priority == 0;
    }
  }

  function RemoveAt(q: seq<Task>, i: nat): seq<Task>
    requires i < |q|
  {
    q[..i] + q[i + 1..]
  }

  // ---------------------------------------------------------------------------------------
  // The state and its steps
  // ---------------------------------------------------------------------------------------

  datatype State = State(queue: seq<Task>, current: Option<Task>, idle: Task, dead: seq<Task>, nextId: nat)

  /** The queue once the current task has been put back on it. */
  ghost function Requeued(s: State, reason: Option<BlockReason>): seq<Task>
  {
    match s.current
    case None => s.queue
    case Some(t) => s.queue + [t.(state := if reason.Some? then Blocked(reason.value) else Ready)]
  }

  /** `schedule`: reap, put the current task back, pick the best. */
  ghost function Scheduled(s: State, reason: Option<BlockReason>): State
  {
    var q := Requeued(s, reason);
    var best := Best(q);
    if best.Some? then
      State(RemoveAt(q, best.value), Some(q[best.value].(state := Running)), s.idle, [], s.nextId)
    else
      State(q, None, s.idle.(state := Running), [], s.nextId)
  }

  ghost function Spawned(s: State, p: Priority): State
  {
    s.(queue := s.queue + [Task(s.nextId, Ready, p)], nextId := s.nextId + 1)
  }

  /** `exit`: the current task leaves, the next one is chosen. */
  ghost function Exited(s: State): State
  {
    Scheduled(s.(current := None), None)
  }

  ghost predicate IsCurrent(s: State, id: nat) { s.current.Some? && s.current.value.id == id }

  /** The queue position of a task. */
  ghost predicate QueuedAt(s: State, id: nat, i: int) { 0 <= i < |s.queue| && s.queue[i].id == id }

  /** `unblock` of a task found on the queue at `i`. */
  ghost function Unblocked(s: State, i: int): State
    requires 0 <= i < |s.queue|
  {
    s.(queue := s.queue[i := s.queue[i].(state := Ready)])
  }

  /** Queued tasks are ready or blocked, the current one runs, every task is in one place, and
      identifiers are used once. */
  ghost predicate SchedInv(s: State)
  {
    && (forall i :: 0 <= i < |s.queue| ==> s.queue[i].state.Ready? || s.queue[i].state.Blocked?)
    && (s.current.Some? ==> s.current.value.state.Running? && s.current.value.priority > 0)
    && (forall i, j :: 0 <= i < j < |s.queue| ==> s.queue[i].id != s.queue[j].id)
    && (forall i :: 0 <= i < |s.queue| ==> s.queue[i].id < s.nextId)
    && (s.current.Some? ==> s.current.value.id < s.nextId && forall i :: 0 <= i < |s.queue| ==> s.queue[i].id != s.current.value.id)
    && s.dead == []
  }

  /** The waiting tasks together with the one just chosen, which was ready. */
  ghost function Pool(s: State): multiset<Task>
  {
    multiset(s.queue) + (if s.current.Some? then multiset{s.current.value.(state := Ready)} else multiset{})
  }

  /** The tasks to choose from: those waiting, and the one that ran, ready again or blocked. */
  ghost function PoolAfter(s: State, reason: Option<BlockReason>): multiset<Task>
  {
    multiset(s.queue)
    + (match s.current
       case None => multiset{}
       case Some(t) => multiset{Task(t.id, if reason.Some? then Blocked(reason.value) else Ready, t.priority)})
  }

  /** No ready task has a higher priority than the chosen one; with none chosen no ready task has a
      positive priority, and the idle task runs. */
  ghost predicate ChoiceIsBest(s: State)
  {
    match s.current
    case Some(c) =>
      && c.state == Running && c.priority > 0
      && forall i :: 0 <= i < |s.queue| && s.queue[i].state == Ready ==> s.queue[i].priority <= c.priority
    case None => s.idle.state == Running && forall i :: 0 <= i < |s.queue| && s.queue[i].state == Ready ==> s.queue[i].priority == 0
  }

  /** The task waits on the queue, blocked for the reason, and does not run. */
  ghost predicate IsBlocked(s: State, t: Task, reason: BlockReason)
  {
    && (exists i :: QueuedAt(s, t.id, i) && s.queue[i] == Task(t.id, Blocked(reason), t.priority))
    && !IsCurrent(s, t.id)
  }

  lemma RemovedOne(q: seq<Task>, i: nat)
    requires i < |q|
    ensures multiset(RemoveAt(q, i)) + multiset{q[i]} == multiset(q)
  {
    assert q == q[..i] + [q[i]] + q[i + 1..];
  }

  /** Rescheduling moves tasks and loses none, and its choice is the best. */
  lemma ScheduleEffect(s: State, reason: Option<BlockReason>)
    ensures Pool(Scheduled(s, reason)) == PoolAfter(s, reason) && ChoiceIsBest(Scheduled(s, reason))
  {
    var q := Requeued(s, reason);
    assert multiset(q) == PoolAfter(s, reason);
    var best := Best(q);
    if best.Some? {
      var i := best.value;
      RemovedOne(q, i);
      var r := RemoveAt(q, i);
      assert forall j :: 0 <= j < |r| ==> r[j] == q[if j < i then j else j + 1];
      assert q[i].(state := Running).(state := Ready) == q[i];
    } else {
      forall j | 0 <= j < |q| && q[j].state == Ready ensures q[j].priority == 0 { assert !Eligible(q[j]); }
    }
  }

  /** A task that blocks is blocked. */
  lemma BlockEffect(s: State, t: Task, reason: BlockReason)
    requires SchedInv(s) && s.current == Some(t)
    ensures IsBlocked(Scheduled(s, Some(reason)), t, reason)
  {
    hide Best, IsBest;
    var q, s' := Requeued(s, Some(reason)), Scheduled(s, Some(reason));
    var k := |s.queue|;
    assert q[k] == Task(t.id, Blocked(reason), t.priority);
    var best := Best(q);
    if best.Some? {
      BestIsEligible(q, best.value);
      assert best.value < k && q[best.value] == s.queue[best.value];
      assert QueuedAt(s', t.id, k - 1) && s'.queue[k - 1] == q[k];
    } else {
      assert QueuedAt(s', t.id, k);
    }
  }

  class TaskScheduler {
    var runQueue: seq<Task>
    var current: Option<Task>
    var idle: Task
    var dead: seq<Task>
    /** The identifier counter. */
    var nextId: nat

    ghost function Now(): State
      reads this
    {
      State(runQueue, current, idle, dead, nextId)
    }

    constructor ()
      ensures SchedInv(Now()) && runQueue == [] && current == None && nextId == 2 && idle.id == 1
    {
      idle, nextId := Task(1, Created, 0), 2;
      runQueue, current, dead := [], None, [];
    }

    /** Removes and returns the best task of the queue. */
    method PickNext() returns (r: Option<Task>)
      modifies this`runQueue
      ensures r.None? <==> Best(old(runQueue)).None?
      ensures r.Some? <==> exists i :: 0 <= i < |old(runQueue)| && IsRunnable(old(runQueue)[i]) && old(runQueue)[i].priority > 0
      ensures r.None? ==> runQueue == old(runQueue)
      ensures r.Some? ==>
        var i := Best(old(runQueue)).value;
        r.value == old(runQueue)[i] && runQueue == RemoveAt(old(runQueue), i)
    {
      var bestIdx: Option<nat> := None;
      var bestPriority: int := 0;
      for i := 0 to |runQueue|
        invariant bestIdx.None? ==> bestPriority == 0 && forall j :: 0 <= j < i ==> !Eligible(runQueue[j])
        invariant bestIdx.Some? ==> IsBest(runQueue[..i], bestIdx.value) && bestPriority == runQueue[bestIdx.value].priority
      {
        var t := runQueue[i];
        assert runQueue[..i + 1] == runQueue[..i] + [t];
        if IsRunnable(t) && t.priority > bestPriority {
          assert forall j :: 0 <= j < i && IsRunnable(runQueue[j]) ==> runQueue[..i][j] == runQueue[j];
          bestPriority, bestIdx := t.priority, Some(i);
        }
      }
      assert runQueue[..|runQueue|] == runQueue;
      match bestIdx
      case None => r := None;
      case Some(i) =>
        BestIsUnique(runQueue, i, Best(runQueue).value);
        r := Some(runQueue[i]);
        runQueue := runQueue[..i] + runQueue[i + 1..];
    }

    /** Puts the current task back, picks the next one, and names the two contexts of the switch. */
    method Schedule(reason: Option<BlockReason>) returns (save: Slot, load: Slot)
      requires current.Some? ==> current.value.state.Running?
      modifies this
      ensures Now() == Scheduled(old(Now()), reason)
      ensures save == if old(current).Some? then TaskSlot(old(current).value.id) else IdleSlot
      ensures load == if current.Some? then TaskSlot(current.value.id) else IdleSlot
    {
      dead := [];
      match current {
        case Some(cur) =>
          runQueue := runQueue + [cur.(state := if reason.Some? then Blocked(reason.value) else Ready)];
          save := TaskSlot(cur.id);
        case None =>
          save := IdleSlot;
      }
      current := None;
      var next := PickNext();
      match next {
        case Some(t) =>
          current := Some(t.(state := Running));
          load := TaskSlot(t.id);
        case None =>
          idle := idle.(state := Running);
          load := IdleSlot;
      }
    }

    method Spawn(priority: Priority) returns (id: nat)
      requires SchedInv(Now())
      modifies this
      ensures id == old(nextId) && Now() == Spawned(old(Now()), priority) && SchedInv(Now())
      ensures runQueue == old(runQueue) + [Task(id, Ready, priority)] && current == old(current) && nextId > id
    {
      id := nextId;
      nextId := nextId + 1;
      runQueue := runQueue + [MarkReady(Task(id, Created, priority))];
    }

    /** `yield_now` and `block`. */
    method Yield(reason: Option<BlockReason>) returns (save: Slot, load: Slot)
      requires SchedInv(Now())
      modifies this
      ensures Now() == Scheduled(old(Now()), reason) && SchedInv(Now())
      ensures save == if old(current).Some? then TaskSlot(old(current).value.id) else IdleSlot
      ensures load == if current.Some? then TaskSlot(current.value.id) else IdleSlot
      ensures Pool(Now()) == PoolAfter(old(Now()), reason) && ChoiceIsBest(Now())
      ensures old(current).Some? && reason.Some? ==> IsBlocked(Now(), old(current).value, reason.value)
    {
      ScheduledKeeps(Now(), reason);
      ScheduleEffect(Now(), reason);
      if current.Some? && reason.Some? { BlockEffect(Now(), current.value, reason.value); }
      save, load := Schedule(reason);
    }

    /** Wakes a task on the queue; false is the panic on an unknown identifier. */
    method Unblock(id: nat) returns (ok: bool)
      requires SchedInv(Now())
      modifies this`runQueue
      ensures SchedInv(Now())
      ensures ok <==> exists i :: QueuedAt(old(Now()), id, i)
      ensures ok ==> exists i :: QueuedAt(old(Now()), id, i) && Now() == Unblocked(old(Now()), i)
      ensures !ok ==> Now() == old(Now())
      ensures ok ==> exists i :: QueuedAt(Now(), id, i) && runQueue[i] == old(runQueue)[i].(state := Ready)
                                 && runQueue == old(runQueue)[i := runQueue[i]]
    {
      for i := 0 to |runQueue|
        invariant Now() == old(Now())
        invariant forall j :: 0 <= j < i ==> runQueue[j].id != id
      {
        if runQueue[i].id == id {
          assert QueuedAt(old(Now()), id, i);
          assert QueuedAt(Now().(queue := runQueue[i := MarkReady(runQueue[i])]), id, i);
          runQueue := runQueue[i := MarkReady(runQueue[i])];
          return true;
        }
      }
      ok := false;
    }

    /** Kills the current task and schedules away. */
    method Exit() returns (save: Slot, load: Slot)
      requires SchedInv(Now())
      modifies this
      ensures Now() == Exited(old(Now())) && SchedInv(Now())
      ensures save == IdleSlot && load == if current.Some? then TaskSlot(current.value.id) else IdleSlot
      ensures Pool(Now()) == multiset(old(runQueue)) && ChoiceIsBest(Now())
    {
      hide Best, IsBest, ChoiceIsBest, Pool;
      ScheduleEffect(Now().(current := None), None);
      ScheduledKeeps(Now().(current := None), None);
      if current.Some? {
        dead := dead + [current.value.(state := Dead)];
        current := None;
      }
      save, load := Schedule(None);
    }
  }

  /** Every task of the queue is ready or blocked and identifiers are distinct and used. */
  ghost predicate QueueInv(q: seq<Task>, nextId: nat)
  {
    && (forall i :: 0 <= i < |q| ==> (q[i].state.Ready? || q[i].state.Blocked?) && q[i].id < nextId)
    && (forall i, j :: 0 <= i < j < |q| ==> q[i].id != q[j].id)
  }

  lemma RemoveKeepsQueue(q: seq<Task>, nextId: nat, i: nat)
    requires QueueInv(q, nextId) && i < |q|
    ensures QueueInv(RemoveAt(q, i), nextId)
    ensures forall j :: 0 <= j < |q| - 1 ==> RemoveAt(q, i)[j].id != q[i].id
  {
    var r := RemoveAt(q, i);
    assert forall j :: 0 <= j < |r| ==> r[j] == q[if j < i then j else j + 1];
  }

  lemma ScheduledKeeps(s: State, reason: Option<BlockReason>)
    requires SchedInv(s)
    ensures SchedInv(Scheduled(s, reason))
  {
    hide Best, IsBest;
    var q := Requeued(s, reason);
    assert QueueInv(q, s.nextId);
    var best := Best(q);
    if best.Some? {
      BestIsEligible(q, best.value);
      RemoveKeepsQueue(q, s.nextId, best.value);
    }
  }

  lemma BestIsEligible(q: seq<Task>, i: nat)
    requires IsBest(q, i)
    ensures i < |q| && Eligible(q[i])
  {}

  // ---------------------------------------------------------------------------------------
  // Runs
  // ---------------------------------------------------------------------------------------

  datatype Event = SpawnTask(priority: Priority) | YieldNow | Block(reason: BlockReason) | Unblock(id: nat) | ExitTask

  /** One completed call; a call that panics ends the run. */
  ghost predicate Step(s: State, e: Event, s': State)
  {
    match e
    case SpawnTask(p) => s' == Spawned(s, p)
    case YieldNow => s' == Scheduled(s, None)
    case Block(reason) => s' == Scheduled(s, Some(reason))
    case Unblock(id) => exists i :: QueuedAt(s, id, i) && s' == Unblocked(s, i)
    case ExitTask => s' == Exited(s)
  }

  ghost predicate IsRun(trace: seq<State>, events: seq<Event>)
  {
    && |trace| == |events| + 1
    && forall i :: 0 <= i < |events| ==> Step(trace[i], events[i], trace[i + 1])
  }

  lemma StepKeeps(s: State, e: Event, s': State)
    requires SchedInv(s) && Step(s, e, s')
    ensures SchedInv(s') && s.nextId <= s'.nextId
  {
    match e
    case SpawnTask(p) =>
    case YieldNow => ScheduledKeeps(s, None);
    case Block(reason) => ScheduledKeeps(s, Some(reason));
    case Unblock(id) =>
    case ExitTask => ScheduledKeeps(s.(current := None), None);
  }

  /** In every state of every run the scheduler's invariant holds. */
  lemma {:induction false} EveryRunKeepsInvariant(trace: seq<State>, events: seq<Event>, n: nat)
    requires IsRun(trace, events) && SchedInv(trace[0]) && n < |trace|
    ensures SchedInv(trace[n]) && trace[0].nextId <= trace[n].nextId
    decreases n
  {
    hide SchedInv, Step;
    if n > 0 {
      EveryRunKeepsInvariant(trace, events, n - 1);
      assert Step(trace[n - 1], events[n - 1], trace[n - 1 + 1]);
      StepKeeps(trace[n - 1], events[n - 1], trace[n]);
    }
  }

  /** The tasks the scheduler knows: on the queue or running. */
  ghost function Known(s: State): set<nat>
  {
    QueueIds(s.queue) + (if s.current.Some? then {s.current.value.id} else {})
  }

  ghost function QueueIds(q: seq<Task>): set<nat>
  {
    set i | 0 <= i < |q| :: q[i].id
  }

  lemma QueueIdsSnoc(q: seq<Task>, t: Task)
    ensures QueueIds(q + [t]) == QueueIds(q) + {t.id}
  {
    var r := q + [t];
    forall x ensures x in QueueIds(r) <==> x in QueueIds(q) || x == t.id {
      if x in QueueIds(q) {
        var i :| 0 <= i < |q| && q[i].id == x;
        assert r[i].id == x;
      }
      if x == t.id { assert r[|q|].id == x; }
    }
  }

  lemma QueueIdsRemove(q: seq<Task>, i: nat)
    requires i < |q|
    ensures QueueIds(RemoveAt(q, i)) + {q[i].id} == QueueIds(q)
  {
    var r := RemoveAt(q, i);
    forall x ensures x in QueueIds(q) <==> x in QueueIds(r) || x == q[i].id {
      if x in QueueIds(r) {
        var j :| 0 <= j < |r| && r[j].id == x;
        assert q[if j < i then j else j + 1].id == x;
      }
      if x in QueueIds(q) && x != q[i].id {
        var j :| 0 <= j < |q| && q[j].id == x;
        assert r[if j < i then j else j - 1].id == x;
      }
    }
  }

  /** Rescheduling loses and invents no task. */
  lemma ScheduledKnows(s: State, reason: Option<BlockReason>)
    ensures Known(Scheduled(s, reason)) == Known(s)
  {
    hide Best, IsBest, QueueIds;
    var q := Requeued(s, reason);
    if s.current.Some? { QueueIdsSnoc(s.queue, q[|q| - 1]); }
    var best := Best(q);
    if best.Some? {
      BestIsEligible(q, best.value);
      QueueIdsRemove(q, best.value);
    }
  }

  /** A step adds the task it spawns, removes the one that exits, and keeps all others. */
  lemma KnownAfterStep(s: State, e: Event, s': State)
    requires SchedInv(s) && Step(s, e, s')
    ensures Known(s') == match e
      case SpawnTask(_) => Known(s) + {s.nextId}
      case ExitTask => Known(s) - (if s.current.Some? then {s.current.value.id} else {})
      case _ => Known(s)
    ensures s'.nextId == if e.SpawnTask? then s.nextId + 1 else s.nextId
  {
    match e
    case SpawnTask(p) => QueueIdsSnoc(s.queue, Task(s.nextId, Ready, p));
    case YieldNow => ScheduledKnows(s, None);
    case Block(reason) => ScheduledKnows(s, Some(reason));
    case Unblock(id) =>
      var i :| QueuedAt(s, id, i) && s' == Unblocked(s, i);
      assert forall j :: 0 <= j < |s.queue| ==> s'.queue[j].id == s.queue[j].id;
      assert QueueIds(s'.queue) == QueueIds(s.queue);
    case ExitTask => ScheduledKnows(s.(current := None), None);
  }

  /** A task that has not exited is never lost: it stays queued or current at every later point. */
  lemma {:induction false} KnownUntilExit(trace: seq<State>, events: seq<Event>, m: nat, n: nat, id: nat)
    requires IsRun(trace, events) && SchedInv(trace[0]) && m <= n < |trace| && id in Known(trace[m])
    requires forall i :: m <= i < n && events[i].ExitTask? ==> !IsCurrent(trace[i], id)
    ensures id in Known(trace[n])
    decreases n
  {
    hide SchedInv, Step, Known;
    if m < n {
      KnownUntilExit(trace, events, m, n - 1, id);
      EveryRunKeepsInvariant(trace, events, n - 1);
      assert Step(trace[n - 1], events[n - 1], trace[n - 1 + 1]);
      KnownAfterStep(trace[n - 1], events[n - 1], trace[n]);
    }
  }

  /** Where a task can be. */
  datatype Place = IsRunning | IsQueued(i: nat)

  ghost predicate IsAt(s: State, id: nat, p: Place)
  {
    match p
    case IsRunning => IsCurrent(s, id)
    case IsQueued(i) => QueuedAt(s, id, i)
  }

  /** From its spawn to its exit a task is in exactly one place at every point of every run. */
  lemma LiveTaskInOnePlace(trace: seq<State>, events: seq<Event>, m: nat, n: nat, id: nat)
    requires IsRun(trace, events) && SchedInv(trace[0]) && m <= n < |trace| && id in Known(trace[m])
    requires forall i :: m <= i < n && events[i].ExitTask? ==> !IsCurrent(trace[i], id)
    ensures exists p :: IsAt(trace[n], id, p) && forall q :: IsAt(trace[n], id, q) ==> q == p
  {
    KnownUntilExit(trace, events, m, n, id);
    EveryRunKeepsInvariant(trace, events, n);
    KnownInOnePlace(trace[n], id);
  }

  lemma KnownInOnePlace(s: State, id: nat)
    requires SchedInv(s) && id in Known(s)
    ensures exists p :: IsAt(s, id, p) && forall q :: IsAt(s, id, q) ==> q == p
  {
    var p: Place;
    if IsCurrent(s, id) {
      p := IsRunning;
    } else {
      var i: nat :| i < |s.queue| && s.queue[i].id == id;
      p := IsQueued(i);
    }
    assert IsAt(s, id, p);
    forall q | IsAt(s, id, q) ensures q == p {}
  }

  /** A task that has left never comes back. */
  lemma {:induction false} ExitedNeverReturns(trace: seq<State>, events: seq<Event>, m: nat, n: nat, id: nat)
    requires IsRun(trace, events) && SchedInv(trace[0]) && m <= n < |trace|
    requires id < trace[m].nextId && id !in Known(trace[m])
    ensures id < trace[n].nextId && id !in Known(trace[n])
    decreases n
  {
    hide SchedInv, Step, Known;
    if m < n {
      ExitedNeverReturns(trace, events, m, n - 1, id);
      EveryRunKeepsInvariant(trace, events, n - 1);
      assert Step(trace[n - 1], events[n - 1], trace[n - 1 + 1]);
      KnownAfterStep(trace[n - 1], events[n - 1], trace[n]);
    }
  }

  /** The task waits on the queue in a blocked state. */
  ghost predicate Waiting(s: State, id: nat)
  {
    exists i :: QueuedAt(s, id, i) && s.queue[i].state.Blocked?
  }

  lemma ScheduledKeepsWaiting(s: State, reason: Option<BlockReason>, id: nat)
    requires Waiting(s, id)
    ensures Waiting(Scheduled(s, reason), id)
  {
    hide Best, IsBest;
    var i :| QueuedAt(s, id, i) && s.queue[i].state.Blocked?;
    var q, s' := Requeued(s, reason), Scheduled(s, reason);
    assert q[i] == s.queue[i];
    var best := Best(q);
    if best.Some? {
      BestIsEligible(q, best.value);
      assert QueuedAt(s', id, if i < best.value then i else i - 1);
    } else {
      assert QueuedAt(s', id, i);
    }
  }

  lemma StepKeepsWaiting(s: State, e: Event, s': State, id: nat)
    requires SchedInv(s) && Step(s, e, s') && Waiting(s, id) && e != Unblock(id)
    ensures Waiting(s', id)
  {
    var i :| QueuedAt(s, id, i) && s.queue[i].state.Blocked?;
    match e
    case SpawnTask(p) => assert QueuedAt(s', id, i);
    case YieldNow => ScheduledKeepsWaiting(s, None, id);
    case Block(reason) => ScheduledKeepsWaiting(s, Some(reason), id);
    case Unblock(other) =>
      assert QueuedAt(s', id, i);
    case ExitTask =>
      assert Waiting(s.(current := None), id) by { assert QueuedAt(s.(current := None), id, i); }
      ScheduledKeepsWaiting(s.(current := None), None, id);
  }

  /** A blocked task is not picked before it is unblocked. */
  lemma {:induction false} BlockedUntilUnblocked(trace: seq<State>, events: seq<Event>, m: nat, n: nat, id: nat)
    requires IsRun(trace, events) && SchedInv(trace[0]) && m <= n < |trace| && Waiting(trace[m], id)
    requires forall i :: m <= i < n ==> events[i] != Unblock(id)
    ensures Waiting(trace[n], id) && (trace[n].current.Some? ==> trace[n].current.value.id != id)
    decreases n
  {
    hide Step;
    EveryRunKeepsInvariant(trace, events, n);
    if m < n {
      BlockedUntilUnblocked(trace, events, m, n - 1, id);
      EveryRunKeepsInvariant(trace, events, n - 1);
      assert Step(trace[n - 1], events[n - 1], trace[n - 1 + 1]);
      StepKeepsWaiting(trace[n - 1], events[n - 1], trace[n], id);
    }
    WaitingIsNotCurrent(trace[n], id);
  }

  lemma WaitingIsNotCurrent(s: State, id: nat)
    requires SchedInv(s) && Waiting(s, id)
    ensures s.current.Some? ==> s.current.value.id != id
  {
    var i :| QueuedAt(s, id, i) && s.queue[i].state.Blocked?;
  }

  /** From the moment a task blocks it does not run until it is unblocked. */
  lemma BlocksUntilUnblocked(trace: seq<State>, events: seq<Event>, m: nat, n: nat, id: nat)
    requires IsRun(trace, events) && SchedInv(trace[0]) && m < n < |trace|
    requires events[m].Block? && IsCurrent(trace[m], id)
    requires forall i :: m < i < n ==> events[i] != Unblock(id)
    ensures !IsCurrent(trace[n], id) && Waiting(trace[n], id)
  {
    hide SchedInv, Scheduled;
    EveryRunKeepsInvariant(trace, events, m);
    assert Step(trace[m], events[m], trace[m + 1]);
    BlockEffect(trace[m], trace[m].current.value, events[m].reason);
    BlockedUntilUnblocked(trace, events, m + 1, n, id);
  }

  /** A task of this identifier and priority is known. */
  ghost predicate HasPriority(s: State, id: nat, p: Priority)
  {
    (s.current.Some? && s.current.value.id == id && s.current.value.priority == p)
    || exists i :: QueuedAt(s, id, i) && s.queue[i].priority == p
  }

  lemma ScheduledKeepsPriority(s: State, reason: Option<BlockReason>, id: nat, p: Priority)
    requires HasPriority(s, id, p)
    ensures HasPriority(Scheduled(s, reason), id, p)
  {
    hide Best, IsBest;
    var q, s' := Requeued(s, reason), Scheduled(s, reason);
    var i: nat :| i < |q| && q[i].id == id && q[i].priority == p by {
      if s.current.Some? && s.current.value.id == id && s.current.value.priority == p {
        assert q[|s.queue|].id == id;
      } else {
        var j :| QueuedAt(s, id, j) && s.queue[j].priority == p;
        assert q[j] == s.queue[j];
      }
    }
    var best := Best(q);
    if best.Some? {
      BestIsEligible(q, best.value);
      if i != best.value { assert QueuedAt(s', id, if i < best.value then i else i - 1); }
    } else {
      assert QueuedAt(s', id, i);
    }
  }

  lemma StepKeepsPriority(s: State, e: Event, s': State, id: nat, p: Priority)
    requires SchedInv(s) && Step(s, e, s') && HasPriority(s, id, p) && !(e.ExitTask? && IsCurrent(s, id))
    ensures HasPriority(s', id, p)
  {
    match e
    case SpawnTask(_) =>
      if !(IsCurrent(s, id) && s.current.value.priority == p) {
        var i :| QueuedAt(s, id, i) && s.queue[i].priority == p;
        assert QueuedAt(s', id, i);
      }
    case YieldNow => ScheduledKeepsPriority(s, None, id, p);
    case Block(reason) => ScheduledKeepsPriority(s, Some(reason), id, p);
    case Unblock(other) =>
      if !(IsCurrent(s, id) && s.current.value.priority == p) {
        var i :| QueuedAt(s, id, i) && s.queue[i].priority == p;
        assert QueuedAt(s', id, i);
      }
    case ExitTask =>
      var i :| QueuedAt(s, id, i) && s.queue[i].priority == p;
      assert QueuedAt(s.(current := None), id, i);
      ScheduledKeepsPriority(s.(current := None), None, id, p);
  }

  /** A task keeps the priority it was spawned with until it exits. */
  lemma {:induction false} PriorityIsKept(trace: seq<State>, events: seq<Event>, m: nat, n: nat)
    requires IsRun(trace, events) && SchedInv(trace[0]) && m < n < |trace| && events[m].SpawnTask?
    requires forall i :: m <= i < n && events[i].ExitTask? ==> !IsCurrent(trace[i], trace[m].nextId)
    ensures HasPriority(trace[n], trace[m].nextId, events[m].priority)
    decreases n
  {
    hide SchedInv;
    assert Step(trace[n - 1], events[n - 1], trace[n - 1 + 1]);
    if n == m + 1 {
      assert QueuedAt(trace[n], trace[m].nextId, |trace[m].queue|);
    } else {
      PriorityIsKept(trace, events, m, n - 1);
      EveryRunKeepsInvariant(trace, events, n - 1);
      StepKeepsPriority(trace[n - 1], events[n - 1], trace[n], trace[m].nextId, events[m].priority);
    }
  }
}
