/**
 The scheduler's steps in the numbers and flags of kernel/sched_os.c, said without the functions
 that compute them.
 */
module SchedSteps {
  import opened SchedModel

  /** Only level L of the queues changed, to l. */
  ghost predicate OnlyLevel(q: Queues, q': Queues, L: nat, l: seq<nat>)
    requires Shaped(q)
  {
    |q'.queue| == MAX_PRIO && L < MAX_PRIO && q'.queue == q.queue[L := l]
  }

  /** What a slice is reloaded with (lines 78-83): from 2800 down to 420, then from 100 down to 5. */
  ghost predicate Reloaded(prio: nat, slice: int) {
    (prio < 120 ==> slice == 2800 - 20 * prio) && (120 <= prio < 140 ==> slice == 700 - 5 * prio)
  }

  /**
   The slice part of scheduler_tick (lines 274-299).  A real-time task that is not round-robin is
   left alone; any other loses one unit, or is moved to the end of its expired level with a new
   slice and a reschedule pending.
   */
  ghost predicate Ticked(s: SchedState, s': SchedState)
    requires Heads(s) && Shaped(s.expired)
  {
    var t := s.tasks[s.current];
    if t.prio < 100 && t.policy != RoundRobin then s' == s
    else if t.slice > 1 then s' == s.(tasks := s.tasks[s.current := t.(slice := t.slice - 1)])
    else
      && s'.current == s.current && s'.needResched
      && s'.tasks.Keys == s.tasks.Keys && (forall x :: x in s.tasks && x != s.current ==> s'.tasks[x] == s.tasks[x])
      && Reloaded(t.prio, s'.tasks[s.current].slice)
      && s'.tasks[s.current] == t.(slice := s'.tasks[s.current].slice, state := Running)
      && OnlyLevel(s.active, s'.active, t.prio, s.active.queue[t.prio][1..])
      && OnlyLevel(s.expired, s'.expired, t.prio, s.expired.queue[t.prio] + [s.current])
  }

  lemma TickIs(s: SchedState)
    requires Inv(s) && Heads(s)
    ensures Ticked(s, Tick(s))
  {
    assert TaskFits(s, s.current);
  }

  /** A smaller priority number always reloads strictly more, and at least 5. */
  lemma ReloadOrder(p: nat, q: nat, a: int, b: int)
    requires p < q < 140 && Reloaded(p, a) && Reloaded(q, b)
    ensures a > b >= 5
  {
  }

  ghost predicate NobodyActive(s: SchedState)
    requires Shaped(s.active)
  {
    forall L :: 0 <= L < MAX_PRIO ==> s.active.queue[L] == []
  }

  /**
   schedule (lines 306-350).  The arrays are exchanged exactly when nobody is active; the task at
   the head of the first level that is not empty runs; the flag is cleared exactly when that is
   another task than before.
   */
  ghost predicate Switched(s: SchedState, s': SchedState)
    requires Shaped(s.active)
  {
    && s'.tasks == s.tasks
    && (if NobodyActive(s) then s'.active == s.expired && s'.expired == s.active
        else s'.active == s.active && s'.expired == s.expired)
    && Shaped(s'.active) && s'.current in s.tasks && s.tasks[s'.current].prio < MAX_PRIO
    && (forall L :: 0 <= L < s.tasks[s'.current].prio ==> s'.active.queue[L] == [])
    && s'.active.queue[s.tasks[s'.current].prio] != [] && s'.active.queue[s.tasks[s'.current].prio][0] == s'.current
    && s'.needResched == (s'.current == s.current && s.needResched)
  }

  lemma ScheduleIs(s: SchedState)
    requires Inv(s) && Runnable(s)
    ensures Switched(s, Schedule(s))
  {
    TotalZero(s.active.queue, MAX_PRIO);
    var w := Swap(s);
    var L := FirstLevel(w.active.bitmap, 0);
    forall i | 0 <= i < L ensures w.active.queue[i] == [] { assert LevelCounted(w.active, i); }
    assert PlacedAt(w.active, s.tasks, L);
    assert w.active.queue[L][0] in w.active.queue[L];
  }

  /** A timer interrupt: a tick, and a switch if one is pending afterwards. */
  ghost predicate Interrupted(s: SchedState, s': SchedState)
    requires Heads(s) && Shaped(s.expired)
  {
    exists m :: Ticked(s, m) && Shaped(m.active) && if m.needResched then Switched(m, s') else s' == m
  }

  lemma TimerIs(s: SchedState)
    requires Inv(s) && Heads(s)
    ensures Interrupted(s, After(s, Timer))
    ensures After(s, Timer).current != s.current ==> !After(s, Timer).needResched
    ensures After(s, Timer).current == s.current ==>
      (After(s, Timer).needResched <==> s.needResched || (s.tasks[s.current].slice <= 1 && !Untimed(s.tasks[s.current])))
  {
    TickIs(s);
    TickKeeps(s);
    TickRunnable(s);
    var m := Tick(s);
    if m.needResched { ScheduleIs(m); }
    assert Ticked(s, m) && if m.needResched then Switched(m, After(s, Timer)) else After(s, Timer) == m;
  }

  /** set_nice, do_fork and sched_fork (kernel/sched_os.c:367-374, 389-394, kernel/fork.c:145-163). */
  ghost predicate Forked(s: SchedState, pid: nat, prio: nat, s': SchedState)
    requires Shaped(s.active) && s.current in s.tasks && prio < MAX_PRIO
  {
    && s'.tasks == s.tasks[pid := Task(prio, if prio < 100 then RoundRobin else Normal, s.tasks[s.current].slice, Running)]
    && OnlyLevel(s.active, s'.active, prio, s.active.queue[prio] + [pid]) && s'.expired == s.expired
    && s'.current == s.current && s'.needResched
  }

  lemma ForkIs(s: SchedState, pid: nat, prio: nat)
    requires Shaped(s.active) && s.current in s.tasks && prio < MAX_PRIO
    ensures Forked(s, pid, prio, Activate(s, pid, Child(s, prio)).(needResched := true))
  {
  }

  /** wake_up on one task (lines 199-207): it joins the end of its active level, no reschedule is asked for. */
  ghost predicate Woken(s: SchedState, pid: nat, s': SchedState)
    requires Shaped(s.active) && pid in s.tasks && s.tasks[pid].prio < MAX_PRIO
  {
    var t := s.tasks[pid];
    && s'.tasks == s.tasks[pid := t.(state := Running)]
    && OnlyLevel(s.active, s'.active, t.prio, s.active.queue[t.prio] + [pid]) && s'.expired == s.expired
    && s'.current == s.current && s'.needResched == s.needResched
  }

  lemma WakeIs(s: SchedState, pid: nat)
    requires Shaped(s.active) && pid in s.tasks && s.tasks[pid].prio < MAX_PRIO
    ensures Woken(s, pid, Activate(s, pid, s.tasks[pid]))
  {
  }

  /** do_pause and sched_exit (lines 383-385, 399-402): the head of the level goes, a reschedule is pending. */
  ghost predicate Left(s: SchedState, state: TaskState, s': SchedState)
    requires Heads(s)
  {
    var t := s.tasks[s.current];
    && s'.tasks == s.tasks[s.current := t.(state := state)]
    && OnlyLevel(s.active, s'.active, t.prio, s.active.queue[t.prio][1..]) && s'.expired == s.expired
    && s'.current == s.current && s'.needResched
  }

  lemma LeaveIs(s: SchedState, state: TaskState)
    requires Heads(s)
    ensures Left(s, state, Leave(s, state))
  {
  }

  /**
   After a timer interrupt that switched, a task of higher priority that is woken does not get the
   processor at the next interrupt while the running task has more than one unit left.
   */
  lemma SwitchThenWake(s: SchedState, pid: nat)
    requires Inv(s) && Heads(s)
    requires var s1 := After(s, Timer); s1.current != s.current && Heads(s1) && Shaped(s1.expired) && Enabled(s1, Wake(pid))
    requires After(s, Timer).tasks[After(s, Timer).current].slice > 1
    ensures var s2 := After(After(s, Timer), Wake(pid));
      Heads(s2) && Shaped(s2.expired) && After(s2, Timer).current == After(s, Timer).current
  {
    var s1 := After(s, Timer);
    AfterKeeps(s, Timer);
    TimerIs(s);
    AfterKeeps(s1, Wake(pid));
    WakeIs(s1, pid);
    TickIs(After(s1, Wake(pid)));
  }
}
