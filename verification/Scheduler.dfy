/**
 The scheduler of kernel/sched_os.c as it runs: two run queues changed in place and
 exchanged by reference.  Each method is tied to the step it performs on the values
 of SchedModel, where the invariant and the drain order are proved.
 */
module Scheduler {
  import opened SchedModel
  import opened SchedSteps

  /** struct runqueue. */
  class RunQueue {
    var nrRunning: int
    const count: array<int>
    const queue: array<seq<nat>>
    const bitmap: array<bool>

    ghost predicate Shape()
    {
      count.Length == MAX_PRIO && queue.Length == MAX_PRIO && bitmap.Length == MAX_PRIO
    }

    ghost function View(): Queues
      reads this, count, queue, bitmap
    {
      Queues(nrRunning, count[..], queue[..], bitmap[..])
    }

    /** An empty array (kernel/sched_os.c:456 with a fill of zero). */
    constructor ()
      ensures Shape() && View() == EmptyQueues()
      ensures fresh(count) && fresh(queue) && fresh(bitmap)
    {
      nrRunning := 0;
      count := new int[MAX_PRIO](i => 0);
      queue := new seq<nat>[MAX_PRIO](i => []);
      bitmap := new bool[MAX_PRIO](i => false);
    }

    /** enqueue_task: append at the tail of the level (lines 116-137). */
    method Enqueue(pid: nat, prio: nat)
      requires Shape() && prio < MAX_PRIO
      modifies count, queue
      ensures count[..] == old(count[..])[prio := old(count[prio]) + 1]
      ensures queue[..] == old(queue[..])[prio := old(queue[prio]) + [pid]]
    {
      count[prio] := count[prio] + 1;
      if queue[prio] == [] {
        queue[prio] := [pid];
        assert old(queue[prio]) + [pid] == [pid];
        return;
      }
      queue[prio] := queue[prio] + [pid];
    }

    /** dequeue_task: drop the head of the level (lines 140-151). */
    method Dequeue(prio: nat)
      requires Shape() && prio < MAX_PRIO && queue[prio] != []
      modifies count, queue, bitmap
      ensures View() == Pop(old(View()), prio).(nr := old(nrRunning))
    {
      count[prio] := count[prio] - 1;
      if count[prio] <= 0 {
        bitmap[prio] := false;
      }
      queue[prio] := queue[prio][1..];
    }

    /** The body shared by activate_task and expired_task (lines 154-167). */
    method Add(pid: nat, prio: nat)
      requires Shape() && prio < MAX_PRIO
      modifies this, count, queue, bitmap
      ensures View() == Push(old(View()), pid, prio)
    {
      Enqueue(pid, prio);
      nrRunning := nrRunning + 1;
      bitmap[prio] := true;
    }

    /** The body shared by deactivate_task and deexpired_task (lines 170-181). */
    method Remove(prio: nat)
      requires Shape() && prio < MAX_PRIO && queue[prio] != []
      modifies this, count, queue, bitmap
      ensures View() == Pop(old(View()), prio)
    {
      Dequeue(prio);
      nrRunning := nrRunning - 1;
    }
  }

  class SchedulerState {
    var tasks: map<nat, Task>
    var active: RunQueue
    var expired: RunQueue
    var current: nat
    var needResched: bool

    ghost predicate Shape()
      reads this
    {
      && active != expired && active.Shape() && expired.Shape()
      && active.count != expired.count && active.queue != expired.queue && active.bitmap != expired.bitmap
    }

    ghost function State(): SchedState
      reads this, active, active.count, active.queue, active.bitmap,
            expired, expired.count, expired.queue, expired.bitmap
    {
      SchedState(tasks, active.View(), expired.View(), current, needResched)
    }

    ghost predicate Valid()
      reads this, active, active.count, active.queue, active.bitmap,
            expired, expired.count, expired.queue, expired.bitmap
    {
      Shape() && Inv(State())
    }

    /** Boot: the first task is active and runs (lines 40-46 and 439-460, with line 460 in force). */
    constructor (pid: nat, t: Task)
      requires t.prio < MAX_PRIO && t.slice >= 1
      ensures Valid() && Heads(State()) && fresh(active) && fresh(expired)
      ensures fresh(active.count) && fresh(active.queue) && fresh(active.bitmap)
      ensures fresh(expired.count) && fresh(expired.queue) && fresh(expired.bitmap)
      ensures State().tasks == map[pid := t.(state := Running)] && current == pid && !needResched
      ensures forall L :: 0 <= L < MAX_PRIO ==> State().active.queue[L] == (if L == t.prio then [pid] else []) && State().expired.queue[L] == []
    {
      tasks, current, needResched := map[pid := t.(state := Running)], pid, false;
      active := new RunQueue();
      expired := new RunQueue();
      new;
      assert active.View() == expired.View() == EmptyQueues();
      active.Add(pid, t.prio);
      assert State() == SchedState(map[pid := t.(state := Running)], Push(EmptyQueues(), pid, t.prio), EmptyQueues(), pid, false);
      BootInv(pid, t.(state := Running));
    }

    /** activate_task (lines 154-159). */
    method ActivateTask(pid: nat)
      requires Shape() && pid in tasks && tasks[pid].prio < MAX_PRIO
      modifies `tasks, active, active.count, active.queue, active.bitmap
      ensures Shape() && State() == Activate(old(State()), pid, old(tasks[pid]))
    {
      active.Add(pid, tasks[pid].prio);
      tasks := tasks[pid := tasks[pid].(state := Running)];
    }

    /** The end of a slice: reload it and move the current task to the expired array (lines 279-283). */
    method SliceUsedUp()
      requires Shape() && Heads(State())
      modifies this, active, active.count, active.queue, active.bitmap,
               expired, expired.count, expired.queue, expired.bitmap
      ensures Shape() && active == old(active) && expired == old(expired)
      ensures State() == Expire(old(State()))
    {
      var t := tasks[current];
      tasks := tasks[current := t.(slice := Timeslice(t.prio), state := Running)];
      needResched := true;
      active.Remove(t.prio);
      expired.Add(current, t.prio);
    }

    /** One unit off the current slice; says whether it is used up. */
    method Decrement() returns (left: int)
      requires Shape() && Heads(State())
      modifies `tasks
      ensures Shape() && left == old(tasks[current].slice) - 1
      ensures State() == SetSlice(old(State()), left) && Heads(State())
    {
      left := tasks[current].slice - 1;
      tasks := tasks[current := tasks[current].(slice := left)];
    }

    /** The slice part of scheduler_tick (lines 274-299). */
    method TickSlice()
      requires Shape() && Heads(State())
      modifies this, active, active.count, active.queue, active.bitmap,
               expired, expired.count, expired.queue, expired.bitmap
      ensures Shape() && active == old(active) && expired == old(expired)
      ensures State() == Tick(old(State()))
    {
      ghost var s := State();
      if tasks[current].prio < MAX_RT_PRIO {
        if tasks[current].policy == RoundRobin {
          var left := Decrement();
          if left <= 0 {
            ExpireAfterDecrement(s, left);
            SliceUsedUp();
          }
        }
      } else {
        var left := Decrement();
        if left == 0 {
          ExpireAfterDecrement(s, left);
          SliceUsedUp();
        }
      }
    }

    /** scheduler_tick: the slices stay at least 1 between ticks, so the test for 0 never skips. */
    method SchedulerTick()
      requires Valid() && Heads(State())
      modifies this, active, active.count, active.queue, active.bitmap,
               expired, expired.count, expired.queue, expired.bitmap
      ensures Valid() && active == old(active) && expired == old(expired)
      ensures State() == Tick(old(State())) && Ticked(old(State()), State())
      ensures forall pid :: pid in tasks ==> tasks[pid].slice >= 1
    {
      TickIs(State());
      TickKeeps(State());
      TickSlice();
      ghost var s := State();
      forall pid | pid in tasks ensures tasks[pid].slice >= 1 {
        assert TaskFits(s, pid);
      }
    }

    /** The search for the first marked level (lines 326-333). */
    method FindLevel() returns (i: nat)
      requires active.Shape() && FirstLevel(active.bitmap[..], 0) < MAX_PRIO
      ensures i == FirstLevel(active.bitmap[..], 0)
    {
      i := 0;
      while !active.bitmap[i]
        invariant i <= FirstLevel(active.bitmap[..], 0)
        decreases MAX_PRIO - i
      {
        i := i + 1;
      }
    }

    /** The exchange of the arrays (lines 319-324). */
    method SwapArrays()
      requires Shape()
      modifies `active, `expired
      ensures Shape() && State() == Swap(old(State()))
      ensures (active == old(active) && expired == old(expired)) || (active == old(expired) && expired == old(active))
    {
      if active.nrRunning == 0 {
        active, expired := expired, active;
      }
    }

    /** schedule (lines 306-350). */
    method SwitchTask()
      requires Shape() && Runnable(State())
      modifies this
      ensures Shape() && State() == SchedModel.Schedule(old(State()))
      ensures (active == old(active) && expired == old(expired)) || (active == old(expired) && expired == old(active))
    {
      SwapArrays();
      var i := FindLevel();
      var next := active.queue[i][0];
      if next == current {
        return;
      }
      current := next;
      needResched := false;
    }

    /** schedule leaves the running task at the head of its level. */
    method Schedule()
      requires Valid() && Runnable(State())
      modifies this
      ensures Valid() && Heads(State()) && State() == SchedModel.Schedule(old(State()))
      ensures Switched(old(State()), State())
      ensures (active == old(active) && expired == old(expired)) || (active == old(expired) && expired == old(active))
    {
      ScheduleIs(State());
      ScheduleKeeps(State());
      SwitchTask();
    }

    /** The timer interrupt: a tick, then the pending reschedule (kernel/interrupt.s:126-152). */
    method TimerInterrupt()
      requires Valid() && Heads(State())
      modifies this, active, active.count, active.queue, active.bitmap,
               expired, expired.count, expired.queue, expired.bitmap
      ensures Valid() && Heads(State()) && State() == After(old(State()), Timer)
      ensures Interrupted(old(State()), State()) && (current != old(current) ==> !needResched)
    {
      TimerIs(State());
      AfterKeeps(State(), Timer);
      TickRunnable(State());
      SchedulerTick();
      if needResched {
        Schedule();
      }
    }

    /** do_fork's scheduling part (kernel/fork.c:145-163) and sched_fork (lines 389-394). */
    method ForkTask(pid: nat, prio: nat)
      requires Shape() && current in tasks && pid !in tasks && prio < MAX_PRIO
      modifies this, active, active.count, active.queue, active.bitmap
      ensures Shape() && active == old(active) && expired == old(expired)
      ensures State() == Activate(old(State()), pid, Child(old(State()), prio)).(needResched := true)
    {
      ghost var s := State();
      var t := Task(prio, if prio < MAX_RT_PRIO then RoundRobin else Normal, tasks[current].slice, Interruptible);
      ChildActivated(s.(needResched := true), pid, Child(s, prio), t);
      tasks := tasks[pid := t];
      needResched := true;
      ActivateTask(pid);
    }

    method SchedFork(pid: nat, prio: nat)
      requires Valid() && Heads(State()) && pid !in tasks && prio < MAX_PRIO
      modifies this, active, active.count, active.queue, active.bitmap
      ensures Valid() && Heads(State()) && Forked(old(State()), pid, prio, State())
      ensures State() == Activate(old(State()), pid, Child(old(State()), prio)).(needResched := true)
    {
      ForkIs(State(), pid, prio);
      ForkKeeps(State(), pid, prio);
      ForkTask(pid, prio);
    }

    /** wake_up on one waiting task (lines 199-207). */
    method WakeUp(pid: nat)
      requires Valid() && pid in tasks && tasks[pid].state == Interruptible
      modifies this, active, active.count, active.queue, active.bitmap
      ensures old(tasks[pid].prio < MAX_PRIO)
      ensures Valid() && State() == Activate(old(State()), pid, old(tasks[pid])) && Woken(old(State()), pid, State())
      ensures old(Heads(State())) ==> Heads(State())
    {
      assert TaskFits(State(), pid);
      ActivateKeeps(State(), pid, tasks[pid]);
      WakeIs(State(), pid);
      ActivateTask(pid);
    }

    /** The current task stops running: sleep_on and do_pause block it, sched_exit ends it. */
    method LeaveActive(state: TaskState)
      requires Valid() && Heads(State()) && state != Running
      modifies this, active, active.count, active.queue, active.bitmap
      ensures Valid() && State() == Leave(old(State()), state) && Left(old(State()), state, State())
      ensures active == old(active) && expired == old(expired)
    {
      LeaveIs(State(), state);
      LeaveKeeps(State(), state);
      var t := tasks[current];
      tasks := tasks[current := t.(state := state)];
      needResched := true;
      active.Remove(t.prio);
    }
  }
}
