/** Fairness: tasks of the top priority that only yield take turns. */
module RoundRobin {
  import opened Results
  import opened Scheduler

  predicate IsTopTask(t: Task, p: Priority) { IsRunnable(t) && t.priority == p }

  /** The ready tasks of priority `p`, in queue order. */
  ghost function TopTasks(q: seq<Task>, p: Priority): seq<nat>
  {
    if q == [] then []
    else TopTasks(q[..|q| - 1], p) + (if IsTopTask(q[|q| - 1], p) then [q[|q| - 1].id] else [])
  }

  lemma {:induction false} TopTasksConcat(a: seq<Task>, b: seq<Task>, p: Priority)
    ensures TopTasks(a + b, p) == TopTasks(a, p) + TopTasks(b, p)
    decreases |b|
  {
    if b == [] {
      assert a + b == a;
    } else {
      var n := |b| - 1;
      assert (a + b)[..|a + b| - 1] == a + b[..n];
      TopTasksConcat(a, b[..n], p);
    }
  }

  lemma {:induction false} NoTopTasks(q: seq<Task>, p: Priority)
    requires forall i :: 0 <= i < |q| ==> !IsTopTask(q[i], p)
    ensures TopTasks(q, p) == []
    decreases |q|
  {
    if q != [] { NoTopTasks(q[..|q| - 1], p); }
  }

  lemma {:induction false} TopTaskExists(q: seq<Task>, p: Priority) returns (i: nat)
    requires TopTasks(q, p) != []
    ensures i < |q| && IsTopTask(q[i], p)
    decreases |q|
  {
    if IsTopTask(q[|q| - 1], p) {
      i := |q| - 1;
    } else {
      i := TopTaskExists(q[..|q| - 1], p);
    }
  }

  /** No ready or running task has a priority above `p`. */
  ghost predicate IsTop(s: State, p: Priority)
  {
    && p > 0
    && (forall i :: 0 <= i < |s.queue| && IsRunnable(s.queue[i]) ==> s.queue[i].priority <= p)
    && (s.current.Some? ==> s.current.value.priority <= p)
  }

  predicate CurrentIsTop(s: State, p: Priority) { s.current.Some? && s.current.value.priority == p }

  /** The tasks that take turns, the running one first. */
  ghost function Ring(s: State, p: Priority): seq<nat>
  {
    (if CurrentIsTop(s, p) then [s.current.value.id] else []) + TopTasks(s.queue, p)
  }

  /** The best task is the first of the top tasks. */
  lemma BestIsFirstTop(q: seq<Task>, p: Priority, i: nat)
    requires IsBest(q, i) && q[i].priority == p
    ensures TopTasks(q, p) == [q[i].id] + TopTasks(RemoveAt(q, i), p)
  {
    NoTopTasks(q[..i], p);
    assert q == q[..i] + [q[i]] + q[i + 1..];
    TopTasksConcat(q[..i] + [q[i]], q[i + 1..], p);
    TopTasksConcat(q[..i], [q[i]], p);
    TopTasksConcat(q[..i], q[i + 1..], p);
    assert TopTasks([q[i]], p) == [q[i].id] by { assert [q[i]][..0] == []; }
  }

  function Rotate(r: seq<nat>): seq<nat>
    requires r != []
  {
    r[1..] + [r[0]]
  }

  /** The top tasks once the current task is back on the queue. */
  lemma RequeuedTopTasks(s: State, p: Priority)
    requires SchedInv(s) && IsTop(s, p) && Ring(s, p) != []
    ensures TopTasks(Requeued(s, None), p) == if CurrentIsTop(s, p) then Rotate(Ring(s, p)) else Ring(s, p)
    ensures forall i :: 0 <= i < |Requeued(s, None)| && IsRunnable(Requeued(s, None)[i]) ==> Requeued(s, None)[i].priority <= p
  {
    if s.current.Some? {
      var t := s.current.value.(state := Ready);
      TopTasksConcat(s.queue, [t], p);
      assert [t][..0] == [];
    }
  }

  /** One yield: the next of the ring runs, and the one that ran goes to its end. */
  lemma YieldRotates(s: State, p: Priority)
    requires SchedInv(s) && IsTop(s, p) && Ring(s, p) != []
    ensures var s' := Scheduled(s, None);
            && SchedInv(s') && IsTop(s', p) && CurrentIsTop(s', p)
            && Ring(s', p) == (if CurrentIsTop(s, p) then Rotate(Ring(s, p)) else Ring(s, p))
  {
    hide Best, SchedInv;
    ScheduledKeeps(s, None);
    var q := Requeued(s, None);
    RequeuedTopTasks(s, p);
    var i := TopTaskExists(q, p);
    var best := Best(q).value;
    assert IsBest(q, best) && q[best].priority == p;
    BestIsFirstTop(q, p, best);
    var r := RemoveAt(q, best);
    assert forall j :: 0 <= j < |r| ==> r[j] == q[if j < best then j else j + 1];
  }

  ghost function Running(s: State): nat { if s.current.Some? then s.current.value.id else 0 }

  /** The tasks that run after each of `n` yields. */
  ghost function Picks(s: State, n: nat): seq<nat>
    decreases n
  {
    if n == 0 then []
    else [Running(Scheduled(s, None))] + Picks(Scheduled(s, None), n - 1)
  }

  /** Reading a rotated ring is reading the ring one place on. */
  lemma RotationShifts(r: seq<nat>, n: nat)
    requires 0 < n <= |r|
    ensures var d := Rotate(r) + Rotate(r); [d[0]] + d[1..n] == (r + r)[1..n + 1]
  {
    var d, e := Rotate(r) + Rotate(r), r + r;
    var a, b := [d[0]] + d[1..n], e[1..n + 1];
    forall j | 0 <= j < n ensures a[j] == b[j] {
      assert a[j] == d[j] == Rotate(r)[j] && b[j] == e[j + 1];
    }
  }

  /** From a state in which a top task runs, `n` yields go once round the ring. */
  lemma {:induction false} PicksFollowRing(s: State, p: Priority, n: nat)
    requires SchedInv(s) && IsTop(s, p) && CurrentIsTop(s, p) && n <= |Ring(s, p)|
    ensures Picks(s, n) == (Ring(s, p) + Ring(s, p))[1..n + 1]
    decreases n
  {
    hide Scheduled, SchedInv, IsTop;
    if n > 0 {
      var r, s' := Ring(s, p), Scheduled(s, None);
      YieldRotates(s, p);
      PicksFollowRing(s', p, n - 1);
      RotationShifts(r, n);
    }
  }

  /** With `k` ready tasks at the top priority, any `k` consecutive schedules run each of them
      exactly once, in queue order. */
  lemma EachTopTaskRunsOnce(s: State, p: Priority)
    requires SchedInv(s) && IsTop(s, p) && Ring(s, p) != []
    ensures Picks(s, |Ring(s, p)|) == if CurrentIsTop(s, p) then Rotate(Ring(s, p)) else Ring(s, p)
    ensures forall i, j :: 0 <= i < j < |Ring(s, p)| ==> Ring(s, p)[i] != Ring(s, p)[j]
    ensures IsTop(Scheduled(s, None), p) && |Ring(Scheduled(s, None), p)| == |Ring(s, p)|
  {
    hide Scheduled, IsTop;
    YieldRotates(s, p);
    var r := Ring(s, p);
    var k := |r|;
    RingIsDistinct(s, p);
    if CurrentIsTop(s, p) {
      PicksFollowRing(s, p, k);
      assert (r + r)[1..k + 1] == Rotate(r);
    } else {
      PicksFollowRing(Scheduled(s, None), p, k - 1);
      assert [r[0]] + (r + r)[1..k] == r;
    }
  }

  /** The ring holds exactly the ready tasks of the top priority. */
  lemma {:induction false} TopTasksAre(q: seq<Task>, p: Priority, id: nat)
    ensures id in TopTasks(q, p) <==> exists i :: 0 <= i < |q| && IsTopTask(q[i], p) && q[i].id == id
    decreases |q|
  {
    if q != [] {
      var n := |q| - 1;
      TopTasksAre(q[..n], p, id);
      assert forall i :: 0 <= i < n ==> q[..n][i] == q[i];
    }
  }

  lemma TopTasksAreQueued(q: seq<Task>, p: Priority, id: nat)
    requires id in TopTasks(q, p)
    ensures exists i :: 0 <= i < |q| && q[i].id == id
  {
    TopTasksAre(q, p, id);
  }

  lemma {:induction false} TopTasksDistinct(q: seq<Task>, p: Priority)
    requires forall i, j :: 0 <= i < j < |q| ==> q[i].id != q[j].id
    ensures forall i, j :: 0 <= i < j < |TopTasks(q, p)| ==> TopTasks(q, p)[i] != TopTasks(q, p)[j]
    decreases |q|
  {
    if q != [] {
      var n := |q| - 1;
      var front := TopTasks(q[..n], p);
      TopTasksDistinct(q[..n], p);
      forall i | 0 <= i < |front| ensures front[i] != q[n].id {
        TopTasksAreQueued(q[..n], p, front[i]);
      }
    }
  }

  lemma RingIsDistinct(s: State, p: Priority)
    requires SchedInv(s)
    ensures forall i, j :: 0 <= i < j < |Ring(s, p)| ==> Ring(s, p)[i] != Ring(s, p)[j]
  {
    TopTasksDistinct(s.queue, p);
    var tops := TopTasks(s.queue, p);
    forall i | 0 <= i < |tops| ensures s.current.Some? ==> tops[i] != s.current.value.id {
      TopTasksAreQueued(s.queue, p, tops[i]);
    }
  }

  /** A ready task of priority 0 is never chosen, even when it is the only one. */
  lemma ReadyButNeverPicked(id: nat)
    ensures var q := [Task(id, Ready, 0)]; IsRunnable(q[0]) && Best(q).None?
  {}

  /** A task is chosen exactly when some ready task has a positive priority. */
  lemma PickedWhenEligible(q: seq<Task>)
    ensures Best(q).Some? <==> exists i :: 0 <= i < |q| && IsRunnable(q[i]) && q[i].priority > 0
  {
    if Best(q).Some? {
      assert Eligible(q[Best(q).value]);
    } else {
      forall i | 0 <= i < |q| ensures !(IsRunnable(q[i]) && q[i].priority > 0) { assert !Eligible(q[i]); }
    }
  }
}
