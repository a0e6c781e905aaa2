/**
 How an active array drains under timer interrupts alone (kernel/sched_os.c:249-350):
 the tasks run in priority order, first come first served within a level, each for
 exactly its remaining slice, and only then are the arrays exchanged.
 */
module SchedDrain {
  import opened SchedModel
  import opened SchedSteps

  function Copies(pid: nat, n: int): seq<nat> {
    if n <= 0 then [] else [pid] + Copies(pid, n - 1)
  }

  function Slice(tasks: map<nat, Task>, pid: nat): int {
    if pid in tasks then tasks[pid].slice else 0
  }

  /** The tasks of one level, each repeated for its remaining slice. */
  function LevelPlan(l: seq<nat>, tasks: map<nat, Task>): seq<nat> {
    if l == [] then [] else Copies(l[0], Slice(tasks, l[0])) + LevelPlan(l[1..], tasks)
  }

  /** Who runs at each tick until the levels from L on are empty. */
  function Plan(queue: seq<seq<nat>>, tasks: map<nat, Task>, L: nat): seq<nat>
    decreases |queue| - L
  {
    if L >= |queue| then [] else LevelPlan(queue[L], tasks) + Plan(queue, tasks, L + 1)
  }

  function SumSlices(l: seq<nat>, tasks: map<nat, Task>): int {
    if l == [] then 0 else Slice(tasks, l[0]) + SumSlices(l[1..], tasks)
  }

  function Work(queue: seq<seq<nat>>, tasks: map<nat, Task>, L: nat): int
    decreases |queue| - L
  {
    if L >= |queue| then 0 else SumSlices(queue[L], tasks) + Work(queue, tasks, L + 1)
  }

  ghost predicate Timed(queue: seq<seq<nat>>, tasks: map<nat, Task>) {
    forall L :: 0 <= L < |queue| ==> LevelTimed(queue[L], tasks)
  }

  ghost predicate LevelTimed(l: seq<nat>, tasks: map<nat, Task>) {
    forall pid :: pid in l ==> pid in tasks && tasks[pid].slice >= 1
  }

  lemma {:induction false} CopiesLength(pid: nat, n: int)
    requires n >= 0
    ensures |Copies(pid, n)| == n
  {
    if n > 0 { CopiesLength(pid, n - 1); }
  }

  lemma {:induction false} LevelPlanLength(l: seq<nat>, tasks: map<nat, Task>)
    requires LevelTimed(l, tasks)
    ensures |LevelPlan(l, tasks)| == SumSlices(l, tasks)
  {
    if l != [] {
      assert l[0] in l;
      CopiesLength(l[0], Slice(tasks, l[0]));
      LevelPlanLength(l[1..], tasks);
    }
  }

  /** The plan is as long as the sum of the remaining slices. */
  lemma {:induction false} PlanLength(queue: seq<seq<nat>>, tasks: map<nat, Task>, L: nat)
    requires Timed(queue, tasks)
    ensures |Plan(queue, tasks, L)| == Work(queue, tasks, L)
    decreases |queue| - L
  {
    if L < |queue| {
      LevelPlanLength(queue[L], tasks);
      PlanLength(queue, tasks, L + 1);
    }
  }

  lemma {:induction false} PlanEmpty(queue: seq<seq<nat>>, tasks: map<nat, Task>, L: nat)
    requires Timed(queue, tasks)
    ensures Plan(queue, tasks, L) == [] <==> forall i :: L <= i < |queue| ==> queue[i] == []
    decreases |queue| - L
  {
    if L < |queue| {
      PlanEmpty(queue, tasks, L + 1);
      var l := queue[L];
      assert LevelTimed(l, tasks);
      var rest := Plan(queue, tasks, L + 1);
      if l != [] {
        assert l[0] in l;
        assert |Copies(l[0], Slice(tasks, l[0]))| > 0;
        assert |LevelPlan(l, tasks) + rest| > 0;
      } else {
        assert LevelPlan(l, tasks) == [] && [] + rest == rest;
      }
    }
  }

  lemma {:induction false} LevelPlanFrame(l: seq<nat>, tasks: map<nat, Task>, tasks': map<nat, Task>)
    requires forall pid :: pid in l ==> Slice(tasks, pid) == Slice(tasks', pid)
    ensures LevelPlan(l, tasks) == LevelPlan(l, tasks')
  {
    if l != [] {
      assert l[0] in l;
      LevelPlanFrame(l[1..], tasks, tasks');
    }
  }

  lemma {:induction false} PlanFrame(queue: seq<seq<nat>>, queue': seq<seq<nat>>,
                                     tasks: map<nat, Task>, tasks': map<nat, Task>, L: nat)
    requires |queue| == |queue'|
    requires forall i :: L <= i < |queue| ==> queue[i] == queue'[i]
    requires forall i, pid :: L <= i < |queue| && pid in queue[i] ==> Slice(tasks, pid) == Slice(tasks', pid)
    ensures Plan(queue, tasks, L) == Plan(queue', tasks', L)
    decreases |queue| - L
  {
    if L < |queue| {
      LevelPlanFrame(queue[L], tasks, tasks');
      PlanFrame(queue, queue', tasks, tasks', L + 1);
    }
  }

  lemma {:induction false} PlanSkip(queue: seq<seq<nat>>, tasks: map<nat, Task>, from: nat, L: nat)
    requires from <= L <= |queue| && forall i :: from <= i < L ==> queue[i] == []
    ensures Plan(queue, tasks, from) == Plan(queue, tasks, L)
    decreases L - from
  {
    if from < L {
      PlanSkip(queue, tasks, from + 1, L);
      var rest := Plan(queue, tasks, from + 1);
      assert LevelPlan(queue[from], tasks) == [] && [] + rest == rest;
    }
  }

  /** The running task heads the first level that is not empty. */
  ghost predicate Front(s: SchedState) {
    Heads(s) && forall L :: 0 <= L < s.tasks[s.current].prio ==> s.active.queue[L] == []
  }

  ghost function PlanOf(s: SchedState): seq<nat> {
    Plan(s.active.queue, s.tasks, 0)
  }

  lemma InvTimed(s: SchedState)
    requires Inv(s)
    ensures Timed(s.active.queue, s.tasks)
  {
    forall L | 0 <= L < |s.active.queue| ensures LevelTimed(s.active.queue[L], s.tasks) {
      assert PlacedAt(s.active, s.tasks, L);
      forall pid | pid in s.active.queue[L] ensures s.tasks[pid].slice >= 1 {
        assert TaskFits(s, pid);
      }
    }
  }

  /** The plan from the first level L that is not empty, with its head split off. */
  lemma PlanAt(queue: seq<seq<nat>>, tasks: map<nat, Task>, L: nat)
    requires L < |queue| && forall i :: 0 <= i < L ==> queue[i] == []
    ensures Plan(queue, tasks, 0) == LevelPlan(queue[L], tasks) + Plan(queue, tasks, L + 1)
  {
    PlanSkip(queue, tasks, 0, L);
  }

  /**
   Taking one unit off the head of the first level takes the first entry off the plan:
   either its slice shrinks and it stays, or it had one unit left and leaves.
   */
  lemma HeadAdvances(queue: seq<seq<nat>>, queue': seq<seq<nat>>,
                     tasks: map<nat, Task>, tasks': map<nat, Task>, L: nat, c: nat)
    requires L < |queue| && (forall i :: 0 <= i < L ==> queue[i] == []) && queue[L] != [] && queue[L][0] == c
    requires |queue'| == |queue| && queue' == queue[L := queue'[L]]
    requires Slice(tasks, c) >= 1
    requires if Slice(tasks, c) == 1 then queue'[L] == queue[L][1..]
             else queue'[L] == queue[L] && Slice(tasks', c) == Slice(tasks, c) - 1
    requires forall pid :: pid in queue[L][1..] ==> Slice(tasks, pid) == Slice(tasks', pid)
    requires forall i, pid :: L < i < |queue| && pid in queue[i] ==> Slice(tasks, pid) == Slice(tasks', pid)
    ensures Plan(queue, tasks, 0) == [c] + Plan(queue', tasks', 0)
  {
    var l, n := queue[L], Slice(tasks, c);
    PlanAt(queue, tasks, L);
    PlanAt(queue', tasks', L);
    PlanFrame(queue, queue', tasks, tasks', L + 1);
    LevelPlanFrame(l[1..], tasks, tasks');
    HeadOfLevel(l, tasks, tasks');
    ConsAssoc(c, LevelPlan(queue'[L], tasks'), Plan(queue, tasks, L + 1));
  }

  lemma HeadOfLevel(l: seq<nat>, tasks: map<nat, Task>, tasks': map<nat, Task>)
    requires l != [] && Slice(tasks, l[0]) >= 1
    requires LevelPlan(l[1..], tasks) == LevelPlan(l[1..], tasks')
    ensures Slice(tasks, l[0]) == 1 ==> LevelPlan(l, tasks) == [l[0]] + LevelPlan(l[1..], tasks')
    ensures Slice(tasks', l[0]) == Slice(tasks, l[0]) - 1 ==> LevelPlan(l, tasks) == [l[0]] + LevelPlan(l, tasks')
  {
    var n, rest := Slice(tasks, l[0]), LevelPlan(l[1..], tasks);
    assert Copies(l[0], n) == [l[0]] + Copies(l[0], n - 1);
    ConsAssoc(l[0], Copies(l[0], n - 1), rest);
    if n == 1 { assert Copies(l[0], 0) + rest == rest; }
  }

  lemma ConsAssoc(c: nat, a: seq<nat>, b: seq<nat>)
    ensures ([c] + a) + b == [c] + (a + b)
  {
  }

  /** Nobody but the running task is the running task. */
  lemma OthersDiffer(s: SchedState)
    requires Inv(s) && Heads(s)
    ensures var L := s.tasks[s.current].prio;
      && s.current !in s.active.queue[L][1..]
      && forall i :: 0 <= i < MAX_PRIO && i != L ==> s.current !in s.active.queue[i]
  {
    var L := s.tasks[s.current].prio;
    assert PlacedAt(s.active, s.tasks, L);
    PopMembers(s.active.queue[L]);
    forall i | 0 <= i < MAX_PRIO && i != L ensures s.current !in s.active.queue[i] {
      assert PlacedAt(s.active, s.tasks, i);
    }
  }

  /** One tick takes exactly the first entry off the plan. */
  lemma TickAdvances(s: SchedState)
    requires Inv(s) && Front(s) && !Untimed(s.tasks[s.current])
    ensures PlanOf(s) == [s.current] + PlanOf(Tick(s))
  {
    var t := s.tasks[s.current];
    OthersDiffer(s);
    assert TaskFits(s, s.current);
    if t.slice == 1 {
      assert Tick(s) == Expire(s);
      HeadAdvances(s.active.queue, Expire(s).active.queue, s.tasks, Expire(s).tasks, t.prio, s.current);
    } else {
      assert Tick(s) == SetSlice(s, t.slice - 1);
      HeadAdvances(s.active.queue, s.active.queue, s.tasks, SetSlice(s, t.slice - 1).tasks, t.prio, s.current);
    }
  }

  /** Read level by level, what waits behind what has expired never changes order. */
  lemma TickKeepsOrder(s: SchedState, L: nat)
    requires Inv(s) && Heads(s) && L < MAX_PRIO
    ensures Tick(s).expired.queue[L] + Tick(s).active.queue[L] == s.expired.queue[L] + s.active.queue[L]
  {
    var l := s.active.queue[L];
    if L == s.tasks[s.current].prio {
      assert s.expired.queue[L] + [s.current] + l[1..] == s.expired.queue[L] + l;
    }
  }

  /** With active tasks left, the reschedule after a tick picks the next in the plan without a swap. */
  lemma SettleFront(s: SchedState)
    requires Inv(s) && PlanOf(s) != []
    requires s.needResched || Front(s)
    ensures var w := Settle(s);
      w.active == s.active && w.expired == s.expired && w.tasks == s.tasks && Front(w)
  {
    InvTimed(s);
    PlanEmpty(s.active.queue, s.tasks, 0);
    TotalZero(s.active.queue, MAX_PRIO);
    var L := FirstLevel(s.active.bitmap, 0);
    assert exists i :: 0 <= i < MAX_PRIO && s.active.queue[i] != [];
    var i :| 0 <= i < MAX_PRIO && s.active.queue[i] != [];
    assert LevelCounted(s.active, i);
    assert L < MAX_PRIO && LevelCounted(s.active, L);
    forall j | 0 <= j < L ensures s.active.queue[j] == [] {
      assert LevelCounted(s.active, j);
    }
    assert PlacedAt(s.active, s.tasks, L);
    assert s.active.queue[L][0] in s.active.queue[L];
  }

  ghost predicate NoUntimed(s: SchedState)
    requires Shaped(s.active)
  {
    forall L, pid :: 0 <= L < MAX_PRIO && pid in s.active.queue[L] && pid in s.tasks ==> !Untimed(s.tasks[pid])
  }

  lemma TickNoUntimed(s: SchedState)
    requires Inv(s) && Heads(s) && NoUntimed(s)
    ensures NoUntimed(Tick(s))
  {
    var s1 := Tick(s);
    forall L, pid | 0 <= L < MAX_PRIO && pid in s1.active.queue[L] && pid in s1.tasks
      ensures !Untimed(s1.tasks[pid])
    {
      assert pid in s.active.queue[L];
      assert PlacedAt(s.active, s.tasks, L);
    }
  }

  /** Level by level, what has expired followed by what is still active. */
  ghost predicate SameOrder(s: SchedState, s': SchedState)
    requires Shaped(s.active) && Shaped(s.expired) && Shaped(s'.active) && Shaped(s'.expired)
  {
    forall L :: 0 <= L < MAX_PRIO ==>
      s'.expired.queue[L] + s'.active.queue[L] == s.expired.queue[L] + s.active.queue[L]
  }

  /** The arrays have been exchanged and everything is active again, in order. */
  ghost predicate Refilled(s: SchedState, s': SchedState)
    requires Shaped(s.active) && Shaped(s.expired) && Shaped(s'.active) && Shaped(s'.expired)
  {
    forall L :: 0 <= L < MAX_PRIO ==>
      s'.active.queue[L] == s.expired.queue[L] + s.active.queue[L] && s'.expired.queue[L] == []
  }

  // ---------------------------------------------------------------- who runs when

  /** The active queues once the head of level L is gone. */
  function Behind(queue: seq<seq<nat>>, L: nat): (r: seq<seq<nat>>)
    requires L < |queue| && queue[L] != []
    ensures |r| == |queue|
  {
    queue[L := queue[L][1..]]
  }

  /**
   Who runs at each tick until the active array is empty.  Without a pending reschedule the
   running task keeps the processor for its whole slice, even while a task of higher priority
   waits; with one it runs for one tick.  Then the rest follows the plan.
   */
  ghost function Order(s: SchedState): seq<nat>
    requires Heads(s) && Shaped(s.expired)
  {
    var t := s.tasks[s.current];
    if s.needResched then [s.current] + PlanOf(Tick(s))
    else Copies(s.current, t.slice) + Plan(Behind(s.active.queue, t.prio), s.tasks, 0)
  }

  /** With nobody of higher priority waiting, the order is the plan itself. */
  lemma FrontOrder(s: SchedState)
    requires Inv(s) && Front(s) && !Untimed(s.tasks[s.current])
    ensures Order(s) == PlanOf(s)
  {
    var t, queue := s.tasks[s.current], s.active.queue;
    if s.needResched {
      TickAdvances(s);
    } else {
      PlanAt(queue, s.tasks, t.prio);
      PlanAt(Behind(queue, t.prio), s.tasks, t.prio);
      PlanFrame(queue, Behind(queue, t.prio), s.tasks, s.tasks, t.prio + 1);
      Regroup(Copies(s.current, t.slice), LevelPlan(queue[t.prio][1..], s.tasks), Plan(queue, s.tasks, t.prio + 1));
    }
  }

  lemma Regroup(a: seq<nat>, b: seq<nat>, c: seq<nat>)
    ensures (a + b) + c == a + (b + c)
  {
  }

  lemma {:induction false} SumFrame(l: seq<nat>, tasks: map<nat, Task>, tasks': map<nat, Task>)
    requires forall pid :: pid in l ==> Slice(tasks, pid) == Slice(tasks', pid)
    ensures SumSlices(l, tasks) == SumSlices(l, tasks')
  {
    if l != [] {
      assert l[0] in l;
      SumFrame(l[1..], tasks, tasks');
    }
  }

  /** The work of the active array is the head's slice and the work behind it. */
  lemma {:induction false} WorkBehind(queue: seq<seq<nat>>, tasks: map<nat, Task>, tasks': map<nat, Task>, L: nat, from: nat)
    requires L < |queue| && queue[L] != []
    requires forall pid :: pid in queue[L][1..] ==> Slice(tasks, pid) == Slice(tasks', pid)
    requires forall i, pid :: 0 <= i < |queue| && i != L && pid in queue[i] ==> Slice(tasks, pid) == Slice(tasks', pid)
    ensures Work(queue, tasks, from) ==
      Work(Behind(queue, L), tasks', from) + (if from <= L then Slice(tasks, queue[L][0]) else 0)
    decreases |queue| - from
  {
    if from < |queue| {
      WorkBehind(queue, tasks, tasks', L, from + 1);
      SumFrame(if from == L then queue[L][1..] else queue[from], tasks, tasks');
    }
  }

  /** One tick takes one unit of work off, whoever runs. */
  lemma TickWork(s: SchedState)
    requires Inv(s) && Heads(s) && !Untimed(s.tasks[s.current])
    ensures Work(s.active.queue, s.tasks, 0) == Work(Tick(s).active.queue, Tick(s).tasks, 0) + 1
  {
    var t, queue, s1 := s.tasks[s.current], s.active.queue, Tick(s);
    OthersDiffer(s);
    assert TaskFits(s, s.current);
    WorkBehind(queue, s.tasks, s1.tasks, t.prio, 0);
    if t.slice > 1 {
      assert s1 == SetSlice(s, t.slice - 1);
      WorkBehind(queue, s1.tasks, s1.tasks, t.prio, 0);
    }
  }

  /** The order is as long as the sum of the remaining slices. */
  lemma OrderLength(s: SchedState)
    requires Inv(s) && Heads(s) && !Untimed(s.tasks[s.current])
    ensures |Order(s)| == Work(s.active.queue, s.tasks, 0)
  {
    var t, queue := s.tasks[s.current], s.active.queue;
    if s.needResched {
      TickKeeps(s);
      TickWork(s);
      InvTimed(Tick(s));
      PlanLength(Tick(s).active.queue, Tick(s).tasks, 0);
    } else {
      assert TaskFits(s, s.current);
      InvTimed(s);
      WorkBehind(queue, s.tasks, s.tasks, t.prio, 0);
      CopiesLength(s.current, t.slice);
      BehindTimed(queue, s.tasks, t.prio);
      PlanLength(Behind(queue, t.prio), s.tasks, 0);
    }
  }

  lemma BehindTimed(queue: seq<seq<nat>>, tasks: map<nat, Task>, L: nat)
    requires L < |queue| && queue[L] != [] && Timed(queue, tasks)
    ensures Timed(Behind(queue, L), tasks)
  {
    assert LevelTimed(queue[L], tasks);
    assert forall pid :: pid in queue[L][1..] ==> pid in queue[L];
  }

  // ---------------------------------------------------------------- one timer interrupt

  /** Timer interrupts can drain the active array: nobody in it keeps the processor for ever. */
  ghost predicate Draining(s: SchedState) {
    Inv(s) && Heads(s) && NoUntimed(s)
  }

  lemma DrainingTimed(s: SchedState)
    requires Draining(s)
    ensures !Untimed(s.tasks[s.current])
  {
    assert s.current in s.active.queue[s.tasks[s.current].prio];
  }

  /** What one timer interrupt does to an array that is draining. */
  ghost predicate Advance(s: SchedState, s': SchedState)
    requires Heads(s) && Shaped(s.expired) && Shaped(s'.active) && Shaped(s'.expired)
  {
    && Order(s) != [] && Order(s)[0] == s.current
    && (|Order(s)| > 1 ==> Draining(s') && Order(s') == Order(s)[1..] && SameOrder(s, s'))
    && (|Order(s)| == 1 ==> Refilled(s, s'))
  }

  /** A tick with the slice not yet used up and no reschedule pending: the same task goes on. */
  lemma GoesOn(s: SchedState)
    requires Draining(s) && !s.needResched && s.tasks[s.current].slice > 1
    ensures After(s, Timer) == Tick(s) && Order(s) == [s.current] + Order(Tick(s)) && Order(Tick(s)) != []
  {
    var t, queue, s1 := s.tasks[s.current], s.active.queue, Tick(s);
    DrainingTimed(s);
    OthersDiffer(s);
    assert s1 == SetSlice(s, t.slice - 1);
    PlanFrame(Behind(queue, t.prio), Behind(queue, t.prio), s.tasks, s1.tasks, 0);
    var rest := Plan(Behind(queue, t.prio), s.tasks, 0);
    assert Copies(s.current, t.slice) == [s.current] + Copies(s.current, t.slice - 1);
    ConsAssoc(s.current, Copies(s.current, t.slice - 1), rest);
    assert Copies(s.current, t.slice - 1)[0] == s.current;
  }

  /** A tick after which a reschedule is pending: what follows is the plan. */
  lemma HandsOver(s: SchedState)
    requires Draining(s) && (s.needResched || s.tasks[s.current].slice == 1)
    ensures Order(s) == [s.current] + PlanOf(Tick(s)) && Tick(s).needResched
  {
    var t, queue, s1 := s.tasks[s.current], s.active.queue, Tick(s);
    DrainingTimed(s);
    if !s.needResched {
      OthersDiffer(s);
      assert s1 == Expire(s);
      PlanFrame(Behind(queue, t.prio), s1.active.queue, s.tasks, s1.tasks, 0);
      assert Copies(s.current, 1) == [s.current] + Copies(s.current, 0) == [s.current];
    }
  }

  lemma TimerStep(s: SchedState)
    requires Draining(s)
    ensures Inv(After(s, Timer)) && Heads(After(s, Timer)) && Advance(s, After(s, Timer))
  {
    var s1 := Tick(s);
    assert TaskFits(s, s.current);
    TickKeeps(s);
    TickNoUntimed(s);
    AfterKeeps(s, Timer);
    forall L | 0 <= L < MAX_PRIO
      ensures s1.expired.queue[L] + s1.active.queue[L] == s.expired.queue[L] + s.active.queue[L]
    {
      TickKeepsOrder(s, L);
    }
    if !s.needResched && s.tasks[s.current].slice > 1 {
      GoesOn(s);
    } else {
      HandsOver(s);
      if PlanOf(s1) != [] {
        SettleFront(s1);
        DrainingTimed(After(s, Timer));
        FrontOrder(After(s, Timer));
      } else {
        LastTick(s);
      }
    }
  }

  /** The tick that empties the active array exchanges the arrays. */
  lemma LastTick(s: SchedState)
    requires Inv(s) && Heads(s) && Tick(s).needResched && PlanOf(Tick(s)) == []
    ensures After(s, Timer).active == Tick(s).expired && After(s, Timer).expired == Tick(s).active
    ensures After(s, Timer).tasks == Tick(s).tasks
    ensures forall L :: 0 <= L < MAX_PRIO ==> Tick(s).active.queue[L] == []
  {
    var s1 := Tick(s);
    TickKeeps(s);
    InvTimed(s1);
    PlanEmpty(s1.active.queue, s1.tasks, 0);
    TotalZero(s1.active.queue, MAX_PRIO);
    TickRunnable(s);
  }

  // ---------------------------------------------------------------- whole runs

  /** A run of timer interrupts alone: no fork, sleep, wake or exit. */
  ghost predicate TimerRun(states: seq<SchedState>, events: seq<Event>) {
    Run(states, events) && forall i :: 0 <= i < |events| ==> events[i] == Timer
  }

  /**
   The drain theorem.  Until the active array is empty the tasks run exactly in that order, and
   nothing expired runs.
   */
  lemma {:induction false} DrainsInOrder(states: seq<SchedState>, events: seq<Event>, i: nat)
    requires TimerRun(states, events) && Draining(states[0]) && i < |states| && i < |Order(states[0])|
    ensures Draining(states[i]) && Order(states[i]) == Order(states[0])[i..]
    ensures states[i].current == Order(states[0])[i] && SameOrder(states[0], states[i])
  {
    if i == 0 {
      assert Order(states[0])[0..] == Order(states[0]);
      TimerStep(states[0]);
    } else {
      DrainsInOrder(states, events, i - 1);
      assert events[i - 1] == Timer;
      TimerStep(states[i - 1]);
      assert states[i - 1 + 1] == After(states[i - 1], Timer);
      assert Order(states[0])[i - 1..][1..] == Order(states[0])[i..];
      TimerStep(states[i]);
      assert Order(states[i])[0] == Order(states[0])[i];
    }
  }

  lemma ActiveNonempty(s: SchedState)
    requires Inv(s) && Heads(s)
    ensures s.active.nr > 0
  {
    TotalZero(s.active.queue, MAX_PRIO);
  }

  /** The arrays are exchanged after exactly the sum of the remaining slices, with every level in order. */
  lemma DrainsInExactlyItsWork(states: seq<SchedState>, events: seq<Event>)
    requires TimerRun(states, events) && Draining(states[0])
    requires |events| == Work(states[0].active.queue, states[0].tasks, 0)
    ensures |events| == |Order(states[0])| > 0
    ensures Inv(states[|events|]) && Refilled(states[0], states[|events|])
    ensures forall i :: 0 <= i < |events| ==>
      states[i].current == Order(states[0])[i] && states[i].active.nr > 0
  {
    var s, w := states[0], |events|;
    DrainingTimed(s);
    OrderLength(s);
    TimerStep(s);
    DrainsInOrder(states, events, w - 1);
    assert events[w - 1] == Timer;
    TimerStep(states[w - 1]);
    assert states[w - 1 + 1] == After(states[w - 1], Timer);
    forall i | 0 <= i < w ensures states[i].current == Order(s)[i] && states[i].active.nr > 0 {
      DrainsInOrder(states, events, i);
      ActiveNonempty(states[i]);
    }
  }

  /** The active array holds the real-time task pid, which is not round-robin. */
  ghost predicate Stuck(s: SchedState, pid: nat) {
    && Inv(s) && Heads(s)
    && pid in s.tasks && Untimed(s.tasks[pid]) && pid in s.active.queue[s.tasks[pid].prio]
  }

  /** While something is active a reschedule leaves both arrays alone. */
  lemma SettleKeepsArrays(s: SchedState)
    requires Inv(s) && s.active.nr != 0
    ensures Settle(s).active == s.active && Settle(s).expired == s.expired && Settle(s).tasks == s.tasks
  {
  }

  /** Such a task never leaves: the condition of the drain theorem is necessary. */
  lemma UntimedStays(s: SchedState, pid: nat)
    requires Stuck(s, pid)
    ensures Stuck(After(s, Timer), pid)
  {
    var s1, L := Tick(s), s.tasks[pid].prio;
    TickKeeps(s);
    assert PlacedAt(s.active, s.tasks, L);
    if pid != s.current && L == s.tasks[s.current].prio { PopMembers(s.active.queue[L]); }
    assert pid in s1.active.queue[L];
    TotalZero(s1.active.queue, MAX_PRIO);
    SettleKeepsArrays(s1);
    AfterKeeps(s, Timer);
  }

  lemma {:induction false} UntimedNeverDrains(states: seq<SchedState>, events: seq<Event>, pid: nat, i: nat)
    requires TimerRun(states, events) && Stuck(states[0], pid) && i < |states|
    ensures Stuck(states[i], pid)
  {
    if i > 0 {
      UntimedNeverDrains(states, events, pid, i - 1);
      assert events[i - 1] == Timer;
      UntimedStays(states[i - 1], pid);
    }
  }

  ghost predicate StuckThroughout(states: seq<SchedState>, pid: nat) {
    forall i :: 0 <= i < |states| ==> Stuck(states[i], pid)
  }

  /**
   Timer interrupts alone, from any state of any run: after exactly the sum of the remaining
   slices the arrays are exchanged, every task having run in order and nothing expired before,
   unless the array holds a real-time task that is not round-robin; that one is there after
   every tick.
   */
  lemma ActiveArrayDrains(states: seq<SchedState>, events: seq<Event>)
    requires TimerRun(states, events) && Inv(states[0]) && Heads(states[0])
    requires |events| == Work(states[0].active.queue, states[0].tasks, 0)
    ensures NoUntimed(states[0]) ==>
      && Shaped(states[|events|].active) && Shaped(states[|events|].expired)
      && Refilled(states[0], states[|events|]) && |Order(states[0])| == |events|
      && forall i :: 0 <= i < |events| ==> states[i].current == Order(states[0])[i] && states[i].active.nr > 0
    ensures !NoUntimed(states[0]) ==> exists pid :: StuckThroughout(states, pid)
  {
    var s := states[0];
    if NoUntimed(s) {
      DrainsInExactlyItsWork(states, events);
    } else {
      var L, pid :| 0 <= L < MAX_PRIO && pid in s.active.queue[L] && pid in s.tasks && Untimed(s.tasks[pid]);
      assert PlacedAt(s.active, s.tasks, L);
      forall i | 0 <= i < |states| ensures Stuck(states[i], pid) {
        UntimedNeverDrains(states, events, pid, i);
      }
      assert StuckThroughout(states, pid);
    }
  }

  // ---------------------------------------------------------------- the round after

  /** The ticks of a round in which every task of the given queues has its full slice. */
  function RoundLength(queue: seq<seq<nat>>, L: nat): int
    decreases |queue| - L
  {
    if L >= |queue| then 0
    else |queue[L]| * (if L < 120 then 2800 - 20 * L else 700 - 5 * L) + RoundLength(queue, L + 1)
  }

  lemma {:induction false} RoundBehind(queue: seq<seq<nat>>, L: nat, from: nat)
    requires L < |queue| && queue[L] != []
    ensures RoundLength(queue, from) ==
      RoundLength(Behind(queue, L), from) + (if from <= L then (if L < 120 then 2800 - 20 * L else 700 - 5 * L) else 0)
    decreases |queue| - from
  {
    if from < |queue| {
      RoundBehind(queue, L, from + 1);
      if from == L { OneLess(|queue[L]|, if L < 120 then 2800 - 20 * L else 700 - 5 * L); }
    }
  }

  lemma OneLess(n: int, r: int)
    ensures n * r == (n - 1) * r + r
  {
  }

  lemma {:induction false} SumSlicesAppend(l: seq<nat>, tasks: map<nat, Task>, pid: nat)
    ensures SumSlices(l + [pid], tasks) == SumSlices(l, tasks) + Slice(tasks, pid)
  {
    if l == [] {
      assert l + [pid] == [pid] && [pid][1..] == [];
    } else {
      assert (l + [pid])[1..] == l[1..] + [pid];
      SumSlicesAppend(l[1..], tasks, pid);
    }
  }

  /** A task that joins a level adds its slice to the work. */
  lemma {:induction false} WorkAppend(queue: seq<seq<nat>>, tasks: map<nat, Task>, tasks': map<nat, Task>, L: nat, pid: nat, from: nat)
    requires L < |queue| && forall i, x :: 0 <= i < |queue| && x in queue[i] ==> Slice(tasks, x) == Slice(tasks', x)
    ensures Work(queue[L := queue[L] + [pid]], tasks', from) == Work(queue, tasks, from) + (if from <= L then Slice(tasks', pid) else 0)
    decreases |queue| - from
  {
    if from < |queue| {
      WorkAppend(queue, tasks, tasks', L, pid, from + 1);
      SumFrame(queue[from], tasks, tasks');
      if from == L { SumSlicesAppend(queue[L], tasks', pid); }
    }
  }

  lemma {:induction false} WorkFrame(queue: seq<seq<nat>>, tasks: map<nat, Task>, tasks': map<nat, Task>, from: nat)
    requires forall i, x :: 0 <= i < |queue| && x in queue[i] ==> Slice(tasks, x) == Slice(tasks', x)
    ensures Work(queue, tasks, from) == Work(queue, tasks', from)
    decreases |queue| - from
  {
    if from < |queue| {
      WorkFrame(queue, tasks, tasks', from + 1);
      SumFrame(queue[from], tasks, tasks');
    }
  }

  /** What the next round will take: what has expired already, and a full slice for whoever is active. */
  function NextWork(s: SchedState): int {
    Work(s.expired.queue, s.tasks, 0) + RoundLength(s.active.queue, 0)
  }

  lemma CurrentNotExpired(s: SchedState)
    requires Inv(s) && Heads(s)
    ensures forall i :: 0 <= i < MAX_PRIO ==> s.current !in s.expired.queue[i]
  {
    assert Queued(s.active, s.current, s.tasks[s.current]);
    NotInOther(s, s.current);
  }

  /** A tick never changes that: it is settled when a slice is reloaded. */
  lemma TickNextWork(s: SchedState)
    requires Inv(s) && Heads(s)
    ensures NextWork(Tick(s)) == NextWork(s)
  {
    var t, s1 := s.tasks[s.current], Tick(s);
    assert TaskFits(s, s.current);
    CurrentNotExpired(s);
    TickIs(s);
    if Untimed(t) {
    } else if t.slice > 1 {
      WorkFrame(s.expired.queue, s.tasks, s1.tasks, 0);
    } else {
      RoundBehind(s.active.queue, t.prio, 0);
      WorkAppend(s.expired.queue, s.tasks, s1.tasks, t.prio, s.current, 0);
    }
  }

  /** The round after the swap is as long as the reloaded slices of the tasks that expired in this one. */
  lemma {:induction false} NextWorkKept(states: seq<SchedState>, events: seq<Event>, i: nat)
    requires TimerRun(states, events) && Draining(states[0]) && i < |states| && i < |Order(states[0])|
    ensures NextWork(states[i]) == NextWork(states[0])
  {
    if i > 0 {
      NextWorkKept(states, events, i - 1);
      DrainsInOrder(states, events, i - 1);
      DrainsInOrder(states, events, i);
      var s := states[i - 1];
      assert events[i - 1] == Timer && states[i - 1 + 1] == After(s, Timer);
      TickNextWork(s);
      NoSwapYet(s);
    }
  }

  /** Unless it empties the active array, a timer interrupt leaves the arrays as the tick did. */
  lemma NoSwapYet(s: SchedState)
    requires Draining(s) && |Order(s)| > 1
    ensures After(s, Timer).active == Tick(s).active && After(s, Timer).expired == Tick(s).expired && After(s, Timer).tasks == Tick(s).tasks
  {
    TickKeeps(s);
    assert TaskFits(s, s.current);
    if !s.needResched && s.tasks[s.current].slice > 1 {
      GoesOn(s);
    } else {
      HandsOver(s);
      SettleFront(Tick(s));
    }
  }

  lemma NextRound(states: seq<SchedState>, events: seq<Event>)
    requires TimerRun(states, events) && Draining(states[0])
    requires |events| == Work(states[0].active.queue, states[0].tasks, 0)
    ensures Work(states[|events|].active.queue, states[|events|].tasks, 0)
      == Work(states[0].expired.queue, states[0].tasks, 0) + RoundLength(states[0].active.queue, 0)
  {
    var w := |events|;
    DrainsInExactlyItsWork(states, events);
    NextWorkKept(states, events, w - 1);
    DrainsInOrder(states, events, w - 1);
    var s := states[w - 1];
    assert events[w - 1] == Timer && states[w - 1 + 1] == After(s, Timer);
    TickNextWork(s);
    LastOfRound(s);
    EmptyRound(Tick(s).active.queue, 0);
  }

  lemma LastOfRound(s: SchedState)
    requires Draining(s) && |Order(s)| == 1
    ensures After(s, Timer).active == Tick(s).expired && After(s, Timer).tasks == Tick(s).tasks
    ensures |Tick(s).active.queue| == MAX_PRIO && forall L :: 0 <= L < MAX_PRIO ==> Tick(s).active.queue[L] == []
  {
    TickKeeps(s);
    assert TaskFits(s, s.current);
    if !s.needResched && s.tasks[s.current].slice > 1 {
      GoesOn(s);
    } else {
      HandsOver(s);
      assert |PlanOf(Tick(s))| == 0;
      LastTick(s);
    }
  }

  lemma {:induction false} EmptyRound(queue: seq<seq<nat>>, L: nat)
    requires forall i :: 0 <= i < |queue| ==> queue[i] == []
    ensures RoundLength(queue, L) == 0
    decreases |queue| - L
  {
    if L < |queue| { EmptyRound(queue, L + 1); }
  }

  /**
   A wake-up asks for no reschedule: a woken task of higher priority waits until the running
   task has used its whole slice.
   */
  lemma WokenWaits(s: SchedState, pid: nat)
    requires Inv(s) && Heads(s) && !s.needResched && Enabled(s, Wake(pid))
    requires s.tasks[pid].prio < s.tasks[s.current].prio
    ensures var s' := After(s, Wake(pid));
      Heads(s') && !Front(s') && Copies(s.current, s.tasks[s.current].slice) <= Order(s')
  {
    AfterKeeps(s, Wake(pid));
    var s' := After(s, Wake(pid));
    assert pid in s'.active.queue[s.tasks[pid].prio];
    var first, rest := Copies(s.current, s.tasks[s.current].slice), Plan(Behind(s'.active.queue, s.tasks[s.current].prio), s'.tasks, 0);
    assert first <= first + rest;
  }
}
