/**
 The links of the run queues as kernel/sched_os.c:116-151 and 346 write them.  A level is read
 from its head along next; prev of the head stands for the tail.
 */
module SchedAsWritten {
  import opened Basics
  import opened Lists
  import opened Chains

  datatype Level = Level(head: Option<nat>, next: map<nat, nat>, prev: map<nat, nat>)

  /** enqueue_task (lines 126-136); nothing when the tail link is null and is followed. */
  function WrittenEnqueue(v: Level, p: nat): Option<Level> {
    match v.head
    case None => Some(v.(head := Some(p), prev := v.prev[p := p]))
    case Some(h) =>
      match Link(v.prev, h)
      case None => None
      case Some(last) => Some(v.(next := v.next[last := p], prev := v.prev[h := p]))
  }

  /** The level's tail link leads to its last task. */
  predicate TailOk(prev: map<nat, nat>, l: seq<nat>) {
    l != [] ==> Link(prev, l[0]) == Some(l[|l| - 1])
  }

  /** The level reads as l. */
  ghost predicate IsLevel(v: Level, l: seq<nat>) {
    v.head == Head(l) && Reads(v.next, l)
  }

  /**
   A task is appended if and only if its own next link is null and the tail link of the level is
   right; then the tail link is right again.
   */
  lemma EnqueueExact(v: Level, l: seq<nat>, p: nat)
    requires IsLevel(v, l) && p !in l
    ensures var r := WrittenEnqueue(v, p);
      && (r.Some? && IsLevel(r.value, l + [p]) <==> p !in v.next && TailOk(v.prev, l))
      && (r.Some? && IsLevel(r.value, l + [p]) ==> TailOk(r.value.prev, l + [p]))
  {
    var r, m := WrittenEnqueue(v, p), l + [p];
    assert forall i: nat :: NextOk(v.next, l, i);
    if r.Some? {
      var w := r.value;
      if p !in v.next && TailOk(v.prev, l) {
        forall i: nat ensures NextOk(w.next, m, i) {
          assert NextOk(v.next, l, i);
        }
      } else if IsLevel(w, m) {
        if l != [] { EndsInNull(v.next, l); }
        LastTwo(w.next, l, p);
      }
    }
  }

  lemma EndsInNull(next: map<nat, nat>, l: seq<nat>)
    requires Reads(next, l) && l != []
    ensures l[|l| - 1] !in next
  {
    assert NextOk(next, l, |l| - 1);
  }

  lemma LastTwo(next: map<nat, nat>, l: seq<nat>, p: nat)
    requires Reads(next, l + [p])
    ensures p !in next && (l != [] ==> Link(next, l[|l| - 1]) == Some(p))
  {
    assert NextOk(next, l + [p], |l|);
    if l != [] { assert NextOk(next, l + [p], |l| - 1); }
  }

  /** dequeue_task (line 150). */
  function WrittenDequeue(v: Level): Level
    requires v.head.Some?
  {
    v.(head := Link(v.next, v.head.value))
  }

  /**
   The head leaves and the rest is read as before.  The task that left keeps its link to the one
   behind it, and the new head's tail link is whatever it was.
   */
  lemma DequeueReads(v: Level, l: seq<nat>)
    requires IsLevel(v, l) && l != []
    ensures IsLevel(WrittenDequeue(v), l[1..])
    ensures l[0] in v.next <==> |l| > 1
  {
    assert NextOk(v.next, l, 0);
    forall i: nat ensures NextOk(v.next, l[1..], i) {
      assert NextOk(v.next, l, i + 1);
    }
  }

  /**
   A used-up slice (lines 282-283, 297-298): the head of the active level l moves behind the
   expired level m, if and only if it was alone in its level and the tail link of m is right.
   */
  lemma ExpireExact(a: Level, l: seq<nat>, m: seq<nat>)
    requires IsLevel(a, l) && l != [] && l[0] !in m && Reads(a.next, m)
    ensures var r := WrittenEnqueue(a.(head := Head(m)), l[0]);
      r.Some? && IsLevel(r.value, m + [l[0]]) <==> |l| == 1 && TailOk(a.prev, m)
  {
    DequeueReads(a, l);
    EnqueueExact(a.(head := Head(m)), m, l[0]);
  }

  /** Line 346 overwrites the tail link of the next task's level: right only if current is its tail. */
  lemma SwitchExact(prev: map<nat, nat>, l: seq<nat>, current: nat)
    requires l != []
    ensures TailOk(prev[l[0] := current], l) <==> current == l[|l| - 1]
  {
  }

  /** With two tasks in a level, the first to expire drags the second into the expired array. */
  lemma ExpireExample()
    ensures var a := Level(Some(1), map[1 := 2], map[1 := 2]);
      && IsLevel(a, [1, 2]) && TailOk(a.prev, [1, 2])
      && WrittenEnqueue(a.(head := None), 1).Some? && IsLevel(WrittenEnqueue(a.(head := None), 1).value, [1, 2])
  {
    var a := Level(Some(1), map[1 := 2], map[1 := 2]);
    forall i: nat ensures NextOk(a.next, [1, 2], i) {
    }
  }
}
