/**
 The run queues of kernel/sched_os.c as values: two arrays of 140 FIFO levels with
 counters and bitmaps, the steps on them, the invariant of every run and the exact
 order in which an active array drains.
 */
module SchedModel {
  import opened Lists

  const MAX_PRIO: nat := 140
  const MAX_RT_PRIO: nat := 100

  datatype Policy = Fifo | RoundRobin | Normal
  datatype TaskState = Running | Interruptible | Stopped
  datatype Task = Task(prio: nat, policy: Policy, slice: int, state: TaskState)

  /** struct runqueue: a level's queue is written from its head. */
  datatype Queues = Queues(nr: int, count: seq<int>, queue: seq<seq<nat>>, bitmap: seq<bool>)

  datatype SchedState = SchedState(tasks: map<nat, Task>, active: Queues, expired: Queues,
                                   current: nat, needResched: bool)

  /** task_timeslice (kernel/sched_os.c:78-83). */
  function Timeslice(prio: nat): int {
    if prio < 120 then (MAX_PRIO - prio) * 20 else (MAX_PRIO - prio) * 5
  }

  predicate Shaped(q: Queues) {
    |q.count| == MAX_PRIO && |q.queue| == MAX_PRIO && |q.bitmap| == MAX_PRIO
  }

  /** enqueue_task with the counter and bitmap updates of its callers (lines 116-167). */
  function Push(q: Queues, pid: nat, L: nat): Queues
    requires Shaped(q) && L < MAX_PRIO
  {
    Queues(q.nr + 1, q.count[L := q.count[L] + 1], q.queue[L := q.queue[L] + [pid]], q.bitmap[L := true])
  }

  /** dequeue_task: the head of the level leaves (lines 140-181). */
  function Pop(q: Queues, L: nat): Queues
    requires Shaped(q) && L < MAX_PRIO && q.queue[L] != []
  {
    Queues(q.nr - 1, q.count[L := q.count[L] - 1], q.queue[L := q.queue[L][1..]],
           if q.count[L] - 1 <= 0 then q.bitmap[L := false] else q.bitmap)
  }

  function Total(queue: seq<seq<nat>>, n: nat): nat
    requires n <= |queue|
  {
    if n == 0 then 0 else Total(queue, n - 1) + |queue[n - 1]|
  }

  lemma {:induction false} TotalUpdate(queue: seq<seq<nat>>, L: nat, l: seq<nat>, n: nat)
    requires L < |queue| && n <= |queue|
    ensures Total(queue[L := l], n) == Total(queue, n) + (if L < n then |l| - |queue[L]| else 0)
  {
    if n > 0 { TotalUpdate(queue, L, l, n - 1); }
  }

  lemma {:induction false} TotalZero(queue: seq<seq<nat>>, n: nat)
    requires n <= |queue|
    ensures Total(queue, n) == 0 <==> forall L :: 0 <= L < n ==> queue[L] == []
  {
    if n > 0 { TotalZero(queue, n - 1); }
  }

  /** What memset with byte c makes of the counters and the bitmap, whatever the heads then lead to. */
  function Filled(c: nat, queue: seq<seq<nat>>): Queues {
    Queues(c * 0x0101_0101, seq(MAX_PRIO, L => c * 0x0101_0101), queue, seq(MAX_PRIO, L => c != 0))
  }

  /** Two arrays cleared with zeros. */
  function EmptyQueues(): Queues {
    Filled(0, seq(MAX_PRIO, L => []))
  }

  lemma {:induction false} TotalEven(queue: seq<seq<nat>>, v: nat, n: nat)
    requires n <= |queue| && forall L :: 0 <= L < n ==> |queue[L]| == v
    ensures Total(queue, n) == n * v
  {
    if n > 0 { TotalEven(queue, v, n - 1); }
  }

  /**
   A fill gives counters that agree with the queues if and only if the byte is 0 and the queues
   are empty; with any other byte every level is marked and the arrays are not exchanged.
   */
  lemma FillExact(c: nat, queue: seq<seq<nat>>)
    requires |queue| == MAX_PRIO
    ensures Counted(Filled(c, queue)) <==> c == 0 && forall L :: 0 <= L < MAX_PRIO ==> queue[L] == []
    ensures c != 0 ==> Filled(c, queue).nr != 0 && FirstLevel(Filled(c, queue).bitmap, 0) == 0
  {
    var q := Filled(c, queue);
    if c == 0 && forall L :: 0 <= L < MAX_PRIO ==> queue[L] == [] {
      TotalZero(queue, MAX_PRIO);
      assert forall L :: LevelCounted(q, L);
    } else if Counted(q) {
      forall L | 0 <= L < MAX_PRIO ensures |queue[L]| == c * 0x0101_0101 {
        assert LevelCounted(q, L);
      }
      TotalEven(queue, c * 0x0101_0101, MAX_PRIO);
    }
  }

  /** Counters, bitmap and nr_running agree with the queue contents. */
  ghost predicate Counted(q: Queues) {
    && Shaped(q)
    && (forall L :: LevelCounted(q, L))
    && q.nr == Total(q.queue, MAX_PRIO)
  }

  predicate LevelCounted(q: Queues, L: int)
    requires Shaped(q)
  {
    0 <= L < MAX_PRIO ==> q.count[L] == |q.queue[L]| && (q.bitmap[L] <==> q.queue[L] != [])
  }

  /** A level holds runnable tasks of its own priority, each once. */
  ghost predicate LevelPlaced(l: seq<nat>, L: nat, tasks: map<nat, Task>) {
    && Distinct(l)
    && forall pid :: pid in l ==> pid in tasks && tasks[pid].prio == L && tasks[pid].state == Running
  }

  ghost predicate Placed(q: Queues, tasks: map<nat, Task>)
    requires Shaped(q)
  {
    forall L :: PlacedAt(q, tasks, L)
  }

  ghost predicate PlacedAt(q: Queues, tasks: map<nat, Task>, L: int)
    requires Shaped(q)
  {
    0 <= L < MAX_PRIO ==> LevelPlaced(q.queue[L], L, tasks)
  }

  predicate Queued(q: Queues, pid: nat, t: Task)
    requires Shaped(q)
  {
    t.prio < MAX_PRIO && pid in q.queue[t.prio]
  }

  /** A task has a level and time left, and is queued in exactly one array while runnable. */
  predicate TaskOk(active: Queues, expired: Queues, pid: nat, t: Task)
    requires Shaped(active) && Shaped(expired)
  {
    && t.prio < MAX_PRIO && t.slice >= 1
    && !(Queued(active, pid, t) && Queued(expired, pid, t))
    && (t.state == Running ==> Queued(active, pid, t) || Queued(expired, pid, t))
  }

  ghost predicate Inv(s: SchedState) {
    && Counted(s.active) && Counted(s.expired)
    && Placed(s.active, s.tasks) && Placed(s.expired, s.tasks)
    && (forall pid :: TaskFits(s, pid))
    && s.current in s.tasks
  }

  predicate TaskFits(s: SchedState, pid: nat)
    requires Shaped(s.active) && Shaped(s.expired)
  {
    pid in s.tasks ==> TaskOk(s.active, s.expired, pid, s.tasks[pid])
  }

  /** The running task heads its own level in the active array. */
  predicate Heads(s: SchedState) {
    && Shaped(s.active) && s.current in s.tasks && s.tasks[s.current].prio < MAX_PRIO
    && s.active.queue[s.tasks[s.current].prio] != []
    && s.active.queue[s.tasks[s.current].prio][0] == s.current
  }

  lemma PushCounted(q: Queues, pid: nat, L: nat)
    requires Counted(q) && L < MAX_PRIO
    ensures Counted(Push(q, pid, L))
  {
    TotalUpdate(q.queue, L, q.queue[L] + [pid], MAX_PRIO);
    forall i ensures LevelCounted(Push(q, pid, L), i) {
      assert LevelCounted(q, i);
    }
  }

  lemma PopCounted(q: Queues, L: nat)
    requires Counted(q) && L < MAX_PRIO && q.queue[L] != []
    ensures Counted(Pop(q, L))
  {
    TotalUpdate(q.queue, L, q.queue[L][1..], MAX_PRIO);
    forall i ensures LevelCounted(Pop(q, L), i) {
      assert LevelCounted(q, i);
    }
  }

  lemma PopMembers(l: seq<nat>)
    requires l != [] && Distinct(l)
    ensures Distinct(l[1..]) && forall p :: p in l[1..] <==> p in l && p != l[0]
  {
    assert l == [l[0]] + l[1..];
  }

  /** Dropping the head removes a queued task exactly when that task is the head. */
  lemma DropHeadExact(l: seq<nat>, p: nat)
    requires Distinct(l) && p in l
    ensures l[1..] == Without(l, p) <==> l[0] == p
  {
    if l[0] != p {
      assert Without(l, p)[0] == l[0];
      assert l[0] !in l[1..] by { PopMembers(l); }
    }
  }

  // ---------------------------------------------------------------- steps

  /** The expired branch of a tick: new slice, out of active, into expired (lines 279-283). */
  function Expire(s: SchedState): SchedState
    requires Heads(s) && Shaped(s.expired)
  {
    var t := s.tasks[s.current];
    s.(tasks := s.tasks[s.current := t.(slice := Timeslice(t.prio), state := Running)],
       active := Pop(s.active, t.prio),
       expired := Push(s.expired, s.current, t.prio),
       needResched := true)
  }

  function SetSlice(s: SchedState, n: int): SchedState
    requires s.current in s.tasks
  {
    s.(tasks := s.tasks[s.current := s.tasks[s.current].(slice := n)])
  }

  /** A real-time task that is not round-robin keeps the processor. */
  predicate Untimed(t: Task) {
    t.prio < MAX_RT_PRIO && t.policy != RoundRobin
  }

  /** The slice part of scheduler_tick (lines 274-299). */
  function Tick(s: SchedState): SchedState
    requires Heads(s) && Shaped(s.expired)
  {
    var t := s.tasks[s.current];
    if t.prio < MAX_RT_PRIO then
      if t.policy == RoundRobin then
        if t.slice - 1 <= 0 then Expire(s)
        else SetSlice(s, t.slice - 1)
      else s
    else if t.slice - 1 == 0 then Expire(s)
    else SetSlice(s, t.slice - 1)
  }

  /** The level the search of schedule stops at, MAX_PRIO when every bit is clear (lines 326-333). */
  function FirstLevel(bitmap: seq<bool>, from: nat): (L: nat)
    requires from <= |bitmap|
    ensures from <= L <= |bitmap| && (L < |bitmap| ==> bitmap[L])
    ensures forall i :: from <= i < L ==> !bitmap[i]
    decreases |bitmap| - from
  {
    if from == |bitmap| then from else if bitmap[from] then from else FirstLevel(bitmap, from + 1)
  }

  /** Exchanges the arrays when nothing is active (lines 319-324). */
  function Swap(s: SchedState): SchedState {
    if s.active.nr == 0 then s.(active := s.expired, expired := s.active) else s
  }

  ghost predicate Runnable(s: SchedState) {
    Shaped(s.active) && Shaped(s.expired)
    && FirstLevel(Swap(s).active.bitmap, 0) < MAX_PRIO
    && Swap(s).active.queue[FirstLevel(Swap(s).active.bitmap, 0)] != []
  }

  /** schedule (lines 306-350): the head of the first marked level runs next. */
  ghost function Schedule(s: SchedState): SchedState
    requires Runnable(s)
  {
    var w := Swap(s);
    var next := w.active.queue[FirstLevel(w.active.bitmap, 0)][0];
    if next == w.current then w else w.(current := next, needResched := false)
  }

  /** activate_task on a new or woken task. */
  function Activate(s: SchedState, pid: nat, t: Task): SchedState
    requires Shaped(s.active) && t.prio < MAX_PRIO
  {
    s.(tasks := s.tasks[pid := t.(state := Running)], active := Push(s.active, pid, t.prio))
  }

  /**
   The current task leaves the active array in the given state: sleep_on sets it in
   init_waitqueue (kernel/wait.c:26), do_pause and sched_exit set it themselves.
   */
  function Leave(s: SchedState, state: TaskState): SchedState
    requires Heads(s)
  {
    var t := s.tasks[s.current];
    s.(tasks := s.tasks[s.current := t.(state := state)], active := Pop(s.active, t.prio), needResched := true)
  }

  /** Changing a slice changes no queue. */
  lemma SliceKeeps(s: SchedState, n: int)
    requires Inv(s) && Heads(s) && n >= 1
    ensures Inv(SetSlice(s, n)) && Heads(SetSlice(s, n))
  {
    var tasks' := SetSlice(s, n).tasks;
    forall L | 0 <= L < MAX_PRIO
      ensures PlacedAt(s.active, tasks', L) && PlacedAt(s.expired, tasks', L)
    {
      assert PlacedAt(s.active, s.tasks, L) && PlacedAt(s.expired, s.tasks, L);
    }
    forall pid ensures TaskFits(SetSlice(s, n), pid) {
      assert TaskFits(s, pid);
    }
  }

  /** A task that is not queued may change and join a level of q. */
  lemma PushPlaced(q: Queues, tasks: map<nat, Task>, pid: nat, t: Task)
    requires Shaped(q) && Placed(q, tasks) && t.prio < MAX_PRIO && t.state == Running
    requires forall L :: 0 <= L < MAX_PRIO ==> pid !in q.queue[L]
    ensures Placed(Push(q, pid, t.prio), tasks[pid := t])
  {
    var q' := Push(q, pid, t.prio);
    var tasks' := tasks[pid := t];
    forall L ensures PlacedAt(q', tasks', L) {
      assert PlacedAt(q, tasks, L);
    }
  }

  lemma UnqueuedPlaced(q: Queues, tasks: map<nat, Task>, pid: nat, t: Task)
    requires Shaped(q) && Placed(q, tasks)
    requires forall L :: 0 <= L < MAX_PRIO ==> pid !in q.queue[L]
    ensures Placed(q, tasks[pid := t])
  {
    var tasks' := tasks[pid := t];
    forall L ensures PlacedAt(q, tasks', L) {
      assert PlacedAt(q, tasks, L);
    }
  }

  /** After the head of its level left, a task is queued nowhere in q. */
  lemma PopPlaced(q: Queues, tasks: map<nat, Task>, pid: nat)
    requires Shaped(q) && Placed(q, tasks) && pid in tasks && tasks[pid].prio < MAX_PRIO
    requires q.queue[tasks[pid].prio] != [] && q.queue[tasks[pid].prio][0] == pid
    ensures var q' := Pop(q, tasks[pid].prio);
      Placed(q', tasks) && forall L :: 0 <= L < MAX_PRIO ==> pid !in q'.queue[L]
  {
    var q' := Pop(q, tasks[pid].prio);
    forall L | 0 <= L < MAX_PRIO ensures PlacedAt(q', tasks, L) && pid !in q'.queue[L] {
      assert PlacedAt(q, tasks, L);
      if q.queue[L] != [] { PopMembers(q.queue[L]); }
    }
  }

  lemma NotInOther(s: SchedState, pid: nat)
    requires Inv(s) && pid in s.tasks && Queued(s.active, pid, s.tasks[pid])
    ensures forall L :: 0 <= L < MAX_PRIO ==> pid !in s.expired.queue[L]
  {
    forall L | 0 <= L < MAX_PRIO ensures pid !in s.expired.queue[L] {
      assert PlacedAt(s.expired, s.tasks, L);
      assert TaskFits(s, pid);
    }
  }

  lemma NotQueued(s: SchedState, pid: nat)
    requires Inv(s) && (pid !in s.tasks || s.tasks[pid].state != Running)
    ensures forall L :: 0 <= L < MAX_PRIO ==> pid !in s.active.queue[L] && pid !in s.expired.queue[L]
  {
    forall L | 0 <= L < MAX_PRIO ensures pid !in s.active.queue[L] && pid !in s.expired.queue[L] {
      assert PlacedAt(s.active, s.tasks, L) && PlacedAt(s.expired, s.tasks, L);
    }
  }

  lemma ActivateKeeps(s: SchedState, pid: nat, t: Task)
    requires Inv(s) && t.prio < MAX_PRIO && t.slice >= 1
    requires pid !in s.tasks || (s.tasks[pid].state != Running && t == s.tasks[pid])
    ensures Inv(Activate(s, pid, t))
    ensures Heads(s) ==> Heads(Activate(s, pid, t))
  {
    var s', t' := Activate(s, pid, t), t.(state := Running);
    NotQueued(s, pid);
    PushCounted(s.active, pid, t.prio);
    PushPlaced(s.active, s.tasks, pid, t');
    UnqueuedPlaced(s.expired, s.tasks, pid, t');
    forall x ensures TaskFits(s', x) {
      assert TaskFits(s, x);
    }
  }

  /** Waking a task keeps the invariant if and only if it is not runnable already. */
  lemma ActivateExact(s: SchedState, pid: nat)
    requires Inv(s) && pid in s.tasks
    ensures s.tasks[pid].prio < MAX_PRIO
    ensures Inv(Activate(s, pid, s.tasks[pid])) <==> s.tasks[pid].state != Running
  {
    assert TaskFits(s, pid);
    if s.tasks[pid].state != Running {
      ActivateKeeps(s, pid, s.tasks[pid]);
    } else {
      var L, s' := s.tasks[pid].prio, Activate(s, pid, s.tasks[pid]);
      if Queued(s.active, pid, s.tasks[pid]) {
        var l := s.active.queue[L];
        var i :| 0 <= i < |l| && l[i] == pid;
        assert s'.active.queue[L][i] == s'.active.queue[L][|l|];
        assert !PlacedAt(s'.active, s'.tasks, L);
      } else {
        assert pid in s'.active.queue[L];
        assert !TaskFits(s', pid);
      }
    }
  }

  lemma LeaveKeeps(s: SchedState, state: TaskState)
    requires Inv(s) && Heads(s) && state != Running
    ensures Inv(Leave(s, state))
  {
    var s', t := Leave(s, state), s.tasks[s.current];
    assert Queued(s.active, s.current, t);
    NotInOther(s, s.current);
    PopCounted(s.active, t.prio);
    PopPlaced(s.active, s.tasks, s.current);
    UnqueuedPlaced(s'.active, s.tasks, s.current, t.(state := state));
    UnqueuedPlaced(s.expired, s.tasks, s.current, t.(state := state));
    forall x ensures TaskFits(s', x) {
      if x in s.tasks { OthersStay(s, x); }
    }
  }

  /** A task may leave the active array if and only if it stops being runnable. */
  lemma LeaveExact(s: SchedState, state: TaskState)
    requires Inv(s) && Heads(s)
    ensures Inv(Leave(s, state)) <==> state != Running
  {
    if state != Running {
      LeaveKeeps(s, state);
    } else {
      var s', t := Leave(s, state), s.tasks[s.current];
      assert Queued(s.active, s.current, t);
      NotInOther(s, s.current);
      PopPlaced(s.active, s.tasks, s.current);
      assert Shaped(s'.active) && Shaped(s'.expired) && !TaskFits(s', s.current);
    }
  }

  lemma OthersStay(s: SchedState, x: nat)
    requires Inv(s) && Heads(s) && x in s.tasks
    ensures var q := Pop(s.active, s.tasks[s.current].prio);
      && TaskFits(s, x)
      && (x != s.current ==> (Queued(q, x, s.tasks[x]) <==> Queued(s.active, x, s.tasks[x])))
  {
    var L := s.tasks[s.current].prio;
    assert PlacedAt(s.active, s.tasks, L);
    PopMembers(s.active.queue[L]);
    assert TaskFits(s, x);
  }

  lemma ExpireKeeps(s: SchedState)
    requires Inv(s) && Heads(s)
    ensures Inv(Expire(s))
  {
    var s', t := Expire(s), s.tasks[s.current];
    var t' := t.(slice := Timeslice(t.prio), state := Running);
    assert Queued(s.active, s.current, t);
    NotInOther(s, s.current);
    PopCounted(s.active, t.prio);
    PopPlaced(s.active, s.tasks, s.current);
    UnqueuedPlaced(s'.active, s.tasks, s.current, t');
    PushCounted(s.expired, s.current, t.prio);
    PushPlaced(s.expired, s.tasks, s.current, t');
    forall x ensures TaskFits(s', x) {
      if x in s.tasks { OthersStay(s, x); }
    }
  }

  /** The decrement before an expiry is overwritten by the new slice. */
  lemma ExpireAfterDecrement(s: SchedState, n: int)
    requires Heads(s) && Shaped(s.expired)
    ensures Heads(SetSlice(s, n)) && Expire(SetSlice(s, n)) == Expire(s)
  {
    assert Expire(SetSlice(s, n)).tasks == Expire(s).tasks;
  }

  /** A child enters as if it had been blocked before. */
  lemma ChildActivated(s: SchedState, pid: nat, t: Task, t': Task)
    requires Shaped(s.active) && t.prio < MAX_PRIO && t' == t.(state := t'.state)
    ensures Activate(s.(tasks := s.tasks[pid := t']), pid, t') == Activate(s, pid, t)
  {
    assert s.tasks[pid := t'][pid := t'.(state := Running)] == s.tasks[pid := t.(state := Running)];
  }

  lemma TickKeeps(s: SchedState)
    requires Inv(s) && Heads(s)
    ensures Inv(Tick(s))
    ensures Heads(Tick(s)) || (Tick(s).needResched && Tick(s).tasks[s.current].state == Running)
    ensures Tick(s).current == s.current
  {
    var t := s.tasks[s.current];
    assert TaskFits(s, s.current);
    if Untimed(t) {
    } else if t.slice == 1 {
      ExpireKeeps(s);
    } else {
      SliceKeeps(s, t.slice - 1);
    }
  }

  /** Some task is runnable exactly when schedule finds a level. */
  lemma RunnableMeans(s: SchedState)
    requires Inv(s)
    ensures Runnable(s) <==> exists pid :: pid in s.tasks && s.tasks[pid].state == Running
  {
    var w := Swap(s);
    var L := FirstLevel(w.active.bitmap, 0);
    TotalZero(s.active.queue, MAX_PRIO);
    assert forall i :: 0 <= i < MAX_PRIO ==> (w.active.bitmap[i] <==> w.active.queue[i] != []) by {
      forall i | 0 <= i < MAX_PRIO ensures w.active.bitmap[i] <==> w.active.queue[i] != [] {
        assert LevelCounted(w.active, i);
      }
    }
    if L < MAX_PRIO {
      var pid := w.active.queue[L][0];
      assert PlacedAt(w.active, s.tasks, L);
      assert pid in w.active.queue[L];
      assert pid in s.tasks && s.tasks[pid].state == Running;
    } else {
      TotalZero(w.active.queue, MAX_PRIO);
      assert forall i :: 0 <= i < MAX_PRIO ==> w.active.queue[i] == [] && s.active.queue[i] == [];
      forall pid | pid in s.tasks ensures s.tasks[pid].state != Running {
        assert TaskFits(s, pid);
      }
    }
  }

  lemma ScheduleKeeps(s: SchedState)
    requires Inv(s) && Runnable(s)
    ensures Inv(Schedule(s)) && Heads(Schedule(s))
  {
    var w := Swap(s);
    var L := FirstLevel(w.active.bitmap, 0);
    assert PlacedAt(w.active, s.tasks, L);
    assert w.active.queue[L][0] in w.active.queue[L];
    var r := Schedule(s);
    forall x ensures TaskFits(r, x) {
      assert TaskFits(s, x);
    }
  }

  /** After a tick there is always someone to run: the current task has at most expired. */
  lemma TickRunnable(s: SchedState)
    requires Inv(s) && Heads(s)
    ensures Runnable(Tick(s))
  {
    TickKeeps(s);
    var r := Tick(s);
    RunnableMeans(r);
    if Heads(r) {
      var L := r.tasks[r.current].prio;
      assert PlacedAt(r.active, r.tasks, L);
      assert r.current in r.active.queue[L];
    }
    assert r.current in r.tasks && r.tasks[r.current].state == Running;
  }

  /** One activated task and two otherwise empty arrays satisfy the invariant. */
  lemma BootInv(pid: nat, t: Task)
    requires t.prio < MAX_PRIO && t.slice >= 1 && t.state == Running
    ensures var s := SchedState(map[pid := t], Push(EmptyQueues(), pid, t.prio), EmptyQueues(), pid, false);
      Inv(s) && Heads(s)
  {
    var q := EmptyQueues();
    FillExact(0, q.queue);
    PushCounted(q, pid, t.prio);
    assert forall L :: PlacedAt(q, map[], L);
    PushPlaced(q, map[], pid, t);
    UnqueuedPlaced(q, map[], pid, t);
  }

  // ---------------------------------------------------------------- runs

  /** Events between two returns to user mode; each ends with the pending reschedule done. */
  datatype Event =
    | Timer
    | Fork(pid: nat, prio: nat)
    | Wake(pid: nat)
    | Block
    | Exit

  /** do_fork's new task: priority and policy from set_nice, slice copied from the parent. */
  function Child(s: SchedState, prio: nat): Task
    requires s.current in s.tasks
  {
    Task(prio, if prio < MAX_RT_PRIO then RoundRobin else Normal, s.tasks[s.current].slice, Running)
  }

  lemma ForkKeeps(s: SchedState, pid: nat, prio: nat)
    requires Inv(s) && Heads(s) && pid !in s.tasks && prio < MAX_PRIO
    ensures var s' := Activate(s, pid, Child(s, prio)).(needResched := true); Inv(s') && Heads(s')
  {
    assert TaskFits(s, s.current);
    ActivateKeeps(s, pid, Child(s, prio));
    var a := Activate(s, pid, Child(s, prio));
    forall x ensures TaskFits(a.(needResched := true), x) {
      assert TaskFits(a, x);
    }
  }

  /** What an event asks of the state: only blocked tasks are woken, someone must stay runnable. */
  ghost predicate Enabled(s: SchedState, e: Event)
    requires Heads(s) && Shaped(s.expired)
  {
    match e
    case Timer => true
    case Fork(pid, prio) => pid !in s.tasks && prio < MAX_PRIO
    case Wake(pid) => pid in s.tasks && s.tasks[pid].state == Interruptible && s.tasks[pid].prio < MAX_PRIO
    case Block => Runnable(Leave(s, Interruptible))
    case Exit => Runnable(Leave(s, Stopped))
  }

  ghost function Settle(s: SchedState): SchedState {
    if s.needResched && Runnable(s) then Schedule(s) else s
  }

  ghost function After(s: SchedState, e: Event): SchedState
    requires Heads(s) && Shaped(s.expired) && Enabled(s, e)
  {
    match e
    case Timer => Settle(Tick(s))
    case Fork(pid, prio) => Settle(Activate(s, pid, Child(s, prio)).(needResched := true))
    case Wake(pid) => Activate(s, pid, s.tasks[pid])
    case Block => Schedule(Leave(s, Interruptible))
    case Exit => Schedule(Leave(s, Stopped))
  }

  lemma SettleKeeps(s: SchedState)
    requires Inv(s) && (Heads(s) || (s.needResched && s.tasks[s.current].state == Running))
    ensures Inv(Settle(s)) && Heads(Settle(s))
  {
    RunnableMeans(s);
    if s.needResched && Runnable(s) { ScheduleKeeps(s); }
  }

  /** Every event keeps the queue invariant and leaves the running task at the head of its level. */
  lemma AfterKeeps(s: SchedState, e: Event)
    requires Inv(s) && Heads(s) && Enabled(s, e)
    ensures Inv(After(s, e)) && Heads(After(s, e))
  {
    match e
    case Timer =>
      TickKeeps(s);
      SettleKeeps(Tick(s));
    case Fork(pid, prio) =>
      ForkKeeps(s, pid, prio);
      SettleKeeps(Activate(s, pid, Child(s, prio)).(needResched := true));
    case Wake(pid) =>
      assert TaskFits(s, pid);
      ActivateKeeps(s, pid, s.tasks[pid]);
    case Block =>
      LeaveKeeps(s, Interruptible);
      ScheduleKeeps(Leave(s, Interruptible));
    case Exit =>
      LeaveKeeps(s, Stopped);
      ScheduleKeeps(Leave(s, Stopped));
  }

  ghost predicate Run(states: seq<SchedState>, events: seq<Event>) {
    && |states| == |events| + 1
    && forall i :: 0 <= i < |events| ==>
         Heads(states[i]) && Shaped(states[i].expired) && Enabled(states[i], events[i])
         && states[i + 1] == After(states[i], events[i])
  }

  /** The queue invariant holds in every state of every run. */
  lemma {:induction false} EveryRunKeepsInv(states: seq<SchedState>, events: seq<Event>, i: nat)
    requires Run(states, events) && Inv(states[0]) && Heads(states[0]) && i < |states|
    ensures Inv(states[i]) && Heads(states[i])
  {
    if i > 0 {
      EveryRunKeepsInv(states, events, i - 1);
      AfterKeeps(states[i - 1], events[i - 1]);
    }
  }

  /** Read off the invariant: a runnable task sits in exactly one queue, at one position. */
  lemma InExactlyOneQueue(s: SchedState, pid: nat)
    requires Inv(s) && pid in s.tasks && s.tasks[pid].state == Running
    ensures Queued(s.active, pid, s.tasks[pid]) != Queued(s.expired, pid, s.tasks[pid])
    ensures forall L :: 0 <= L < MAX_PRIO && L != s.tasks[pid].prio ==>
      pid !in s.active.queue[L] && pid !in s.expired.queue[L]
    ensures forall L :: 0 <= L < MAX_PRIO ==>
      multiset(s.active.queue[L])[pid] + multiset(s.expired.queue[L])[pid]
      == if L == s.tasks[pid].prio then 1 else 0
  {
    assert TaskFits(s, pid);
    forall L | 0 <= L < MAX_PRIO
      ensures multiset(s.active.queue[L])[pid] + multiset(s.expired.queue[L])[pid]
              == if L == s.tasks[pid].prio then 1 else 0
    {
      assert PlacedAt(s.active, s.tasks, L) && PlacedAt(s.expired, s.tasks, L);
      DistinctMultiplicity(s.active.queue[L], pid);
      DistinctMultiplicity(s.expired.queue[L], pid);
    }
  }
}
