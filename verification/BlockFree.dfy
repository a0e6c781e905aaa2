/**
 Releasing an inode (fs/inode.c:52-125): the order in which the loops visit the slots, and
 what a log of released blocks must be for every block to be released exactly once.
 */
module BlockFree {
  import opened Lists
  import opened BlockMap

  const RANKS: nat := 263177

  /** The position of a slot in the order of the release loops: leaves before their table. */
  function Rank(s: Slot): nat
    requires SlotOk(s)
  {
    match s
    case Direct(i) => i
    case IndLeaf(i) => 7 + i
    case Ind => 519
    case DblLeaf(i, j) => 520 + 513 * i + j
    case DblMid(i) => 520 + 513 * i + 512
    case Dbl => 263176
  }

  lemma RankBound(s: Slot)
    requires SlotOk(s)
    ensures Rank(s) < RANKS
  {
  }

  lemma RankInjective(s: Slot, s': Slot)
    requires SlotOk(s) && SlotOk(s') && Rank(s) == Rank(s')
    ensures s == s'
  {
  }

  /** k is held by a slot of inode n that comes before rank r. */
  ghost predicate HeldBefore(v: Volume, n: nat, r: nat, k: nat)
    requires Shaped(v) && n in v.inodes
  {
    k != 0 && exists s :: SlotOk(s) && Rank(s) < r && Held(v, n, s) == k
  }

  /** The log lists exactly the blocks of the slots before rank r, each once. */
  ghost predicate Logged(v: Volume, n: nat, r: nat, log: seq<nat>)
    requires Shaped(v) && n in v.inodes
  {
    Distinct(log) && forall k :: k in log <==> HeldBefore(v, n, r, k)
  }

  lemma LogEmpty(v: Volume, n: nat)
    requires Shaped(v) && n in v.inodes
    ensures Logged(v, n, 0, [])
  {
  }

  /** Visiting the slot at rank r. */
  lemma LogStep(v: Volume, n: nat, s: Slot, log: seq<nat>)
    requires Shaped(v) && DistinctBlocks(v) && n in v.inodes && SlotOk(s) && Logged(v, n, Rank(s), log)
    ensures Logged(v, n, Rank(s) + 1, if Held(v, n, s) != 0 then log + [Held(v, n, s)] else log)
  {
    var k := Held(v, n, s);
    var log' := if k != 0 then log + [k] else log;
    assert k != 0 ==> !HeldBefore(v, n, Rank(s), k) by {
      forall s' | SlotOk(s') && Rank(s') < Rank(s) ensures k == 0 || Held(v, n, s') != k {
        assert Apart(v, n, s, n, s');
      }
    }
    forall x ensures x in log' <==> HeldBefore(v, n, Rank(s) + 1, x) {
      if HeldBefore(v, n, Rank(s) + 1, x) {
        var s' :| SlotOk(s') && Rank(s') < Rank(s) + 1 && Held(v, n, s') == x;
        if Rank(s') == Rank(s) { RankInjective(s, s'); } else { assert HeldBefore(v, n, Rank(s), x); }
      }
      if x in log { assert HeldBefore(v, n, Rank(s), x); }
    }
  }

  /** Skipping slots that hold nothing. */
  lemma LogSkip(v: Volume, n: nat, r: nat, r': nat, log: seq<nat>)
    requires Shaped(v) && n in v.inodes && r <= r' && Logged(v, n, r, log)
    requires forall s :: SlotOk(s) && r <= Rank(s) < r' ==> Held(v, n, s) == 0
    ensures Logged(v, n, r', log)
  {
    forall x ensures HeldBefore(v, n, r', x) <==> HeldBefore(v, n, r, x) {
    }
  }

  /** A complete log: every block the inode reaches, once, and nothing else. */
  ghost predicate ReleasedExactly(v: Volume, n: nat, log: seq<nat>)
    requires Shaped(v) && n in v.inodes
  {
    && Distinct(log)
    && forall k :: k in log <==> k != 0 && exists s :: SlotOk(s) && Held(v, n, s) == k
  }

  lemma LogComplete(v: Volume, n: nat, log: seq<nat>)
    requires Shaped(v) && n in v.inodes && Logged(v, n, RANKS, log)
    ensures ReleasedExactly(v, n, log)
  {
    forall k ensures k in log <==> k != 0 && exists s :: SlotOk(s) && Held(v, n, s) == k {
      if s :| SlotOk(s) && Held(v, n, s) == k {
        RankBound(s);
      }
      assert k in log <==> HeldBefore(v, n, RANKS, k);
    }
  }

  /** The bits after releasing a log. */
  ghost predicate Cleared(before: seq<bool>, after: seq<bool>, log: seq<nat>) {
    |before| == |after| && forall i :: 0 <= i < |before| ==> (after[i] <==> before[i] && i !in log)
  }

  /** With the inode gone, the set bits again are the reserved blocks plus those still owned. */
  lemma ReleaseKeeps(v: Volume, reserved: set<nat>, n: nat, bits: seq<bool>, log: seq<nat>)
    requires Inv(v, reserved) && n in v.inodes && ReleasedExactly(v, n, log) && Cleared(v.bits, bits, log)
    ensures Inv(v.(bits := bits, inodes := v.inodes - {n}), reserved)
  {
    var w := v.(bits := bits, inodes := v.inodes - {n});
    assert forall n', s :: n' in w.inodes && SlotOk(s) ==> Held(w, n', s) == Held(v, n', s);
    forall n', s ensures HoldsOk(w, reserved, n', s) {
      assert HoldsOk(v, reserved, n', s);
    }
    forall n1, s1, n2, s2 ensures Apart(w, n1, s1, n2, s2) {
      assert Apart(v, n1, s1, n2, s2);
    }
    forall i: nat ensures BitOk(w, reserved, i) {
      assert BitOk(v, reserved, i);
      OwnedWithout(v, w, n, i);
      if i in log {
        var s :| SlotOk(s) && Held(v, n, s) == i;
        HeldInRange(v, reserved, n, s);
      }
    }
  }

  /** Once inode n is gone, a block is owned if it was and n did not hold it. */
  lemma OwnedWithout(v: Volume, w: Volume, n: nat, i: nat)
    requires Shaped(v) && DistinctBlocks(v) && n in v.inodes && w.blocks == v.blocks && |w.bits| == MAP_BITS
    requires w.inodes == v.inodes - {n}
    ensures Shaped(w)
    ensures Owned(w, i) <==> Owned(v, i) && !exists s :: SlotOk(s) && Held(v, n, s) == i
  {
    assert forall n', s :: n' in w.inodes && SlotOk(s) ==> Held(w, n', s) == Held(v, n', s);
    if Owned(w, i) {
      var n', s' :| n' in w.inodes && SlotOk(s') && Held(w, n', s') == i;
      assert Held(v, n', s') == i;
      forall s | SlotOk(s) ensures Held(v, n, s) != i {
        assert Apart(v, n', s', n, s);
      }
    }
    if Owned(v, i) && !exists s :: SlotOk(s) && Held(v, n, s) == i {
      var n', s' :| n' in v.inodes && SlotOk(s') && Held(v, n', s') == i;
      assert n' in w.inodes && Held(w, n', s') == i;
    }
  }
}
