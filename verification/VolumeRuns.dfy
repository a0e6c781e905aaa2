/**
 Whole runs of a volume (fs/bitmap.c, fs/inode.c): from an empty one, through any sequence of new
 inodes, mapped blocks, writes and deletions, blocks stay distinct and the map stays exact.
 */
module VolumeRuns {
  import opened BlockMap
  import opened BlockAlloc
  import opened BlockFree
  import opened FileContents

  /**
   A new inode maps nothing (fs/bitmap.c:154-157).  Its size is not set: it is whatever the last
   user of the slab object left there.
   */
  function NewInode(size: nat): (node: Inode)
    ensures AreaOk(node.area)
  {
    Inode([0, 0, 0, 0, 0, 0, 0, 0, 0], size, true)
  }

  /** A volume without inodes, its map set for the reserved blocks. */
  function EmptyVolume(reserved: set<nat>): Volume {
    Volume(seq(NR_BLOCKS, i => ZeroBlock()), seq(MAP_BITS, i => i in reserved), map[])
  }

  lemma EmptyVolumeInv(reserved: set<nat>)
    requires 0 in reserved && forall i :: 1024 <= i < MAP_BITS ==> i in reserved
    ensures Inv(EmptyVolume(reserved), reserved)
  {
  }

  lemma NewInodeEmpty(v: Volume, n: nat, s: Slot)
    requires Shaped(v) && n in v.inodes && v.inodes[n].area == NewInode(0).area && SlotOk(s)
    ensures Held(v, n, s) == 0
  {
  }

  /** Adding an inode owns no block; it is a file, and then an empty one, if and only if its size is 0. */
  lemma NewInodeKeeps(v: Volume, reserved: set<nat>, n: nat, size: nat)
    requires Inv(v, reserved) && n !in v.inodes
    ensures var w := v.(inodes := v.inodes[n := NewInode(size)]);
      && Inv(w, reserved) && OthersIntact(v, w, n)
      && (IsFile(w, n) <==> size == 0) && (size == 0 ==> Contents(w, n) == [])
  {
    var w := v.(inodes := v.inodes[n := NewInode(size)]);
    forall s | SlotOk(s) ensures Held(w, n, s) == 0 && !Wanted(s, 0) {
      NewInodeEmpty(w, n, s);
    }
    assert size > 0 ==> Wanted(Direct(0), BlocksIn(size)) && SlotOk(Direct(0));
    forall n', s ensures HoldsOk(w, reserved, n', s) {
      if n' != n { assert HoldsOk(v, reserved, n', s); }
    }
    forall n1, s1, n2, s2 ensures Apart(w, n1, s1, n2, s2) {
      if n1 != n && n2 != n { assert Apart(v, n1, s1, n2, s2); }
    }
    forall i: nat ensures BitOk(w, reserved, i) {
      assert BitOk(v, reserved, i);
      if Owned(v, i) {
        var n', s :| n' in v.inodes && SlotOk(s) && Held(v, n', s) == i;
        assert Held(w, n', s) == i;
      }
      if Owned(w, i) {
        var n', s :| n' in w.inodes && SlotOk(s) && Held(w, n', s) == i;
        assert Held(v, n', s) == i;
      }
    }
    forall n' | n' in v.inodes && n' != n && IsFile(v, n')
      ensures IsFile(w, n') && Contents(w, n') == Contents(v, n')
    {
      assert forall s :: SlotOk(s) ==> Held(w, n', s) == Held(v, n', s);
    }
  }

  datatype Change =
    | AddInode(n: nat, leftover: nat)
    | MapBlock(n: nat, b: nat)
    | PutData(n: nat, b: nat, data: Blk)
    | SetSize(n: nat, size: nat)
    | Delete(n: nat)

  /** What one change does; a block is mapped only while the map has the blocks that takes. */
  ghost predicate Did(v: Volume, c: Change, w: Volume)
    requires Shaped(v)
  {
    match c
    case AddInode(n, size) => n !in v.inodes && w == v.(inodes := v.inodes[n := NewInode(size)])
    case MapBlock(n, b) =>
      && n in v.inodes && b < MAX_INDEX && Missing(v, n, Path(b)) <= FreeCount(v.bits)
      && w == Create(v, n, b)
    case PutData(n, b, data) =>
      && n in v.inodes && b < MAX_INDEX && Held(v, n, LeafSlot(b)) != 0
      && w == Overwrite(v, Held(v, n, LeafSlot(b)), data)
    case SetSize(n, size) =>
      n in v.inodes && w == v.(inodes := v.inodes[n := v.inodes[n].(size := size, dirty := true)])
    case Delete(n) =>
      && n in v.inodes && w == v.(bits := w.bits, inodes := v.inodes - {n})
      && exists log :: ReleasedExactly(v, n, log) && Cleared(v.bits, w.bits, log)
  }

  lemma ChangeKeeps(v: Volume, reserved: set<nat>, c: Change, w: Volume)
    requires Inv(v, reserved) && Did(v, c, w)
    ensures Inv(w, reserved)
  {
    match c
    case AddInode(n, size) => NewInodeKeeps(v, reserved, n, size);
    case MapBlock(n, b) => CreateCorrect(v, reserved, n, b);
    case PutData(n, b, data) =>
      LeafIndex(b);
      OverwriteKeeps(v, reserved, n, LeafSlot(b), data);
    case SetSize(n, size) =>
      assert forall n', s :: n' in v.inodes && SlotOk(s) ==> Held(w, n', s) == Held(v, n', s);
      SameSlotsKeep(v, w, reserved);
    case Delete(n) =>
      var log :| ReleasedExactly(v, n, log) && Cleared(v.bits, w.bits, log);
      ReleaseKeeps(v, reserved, n, w.bits, log);
  }

  ghost predicate Run(states: seq<Volume>, changes: seq<Change>) {
    && |states| == |changes| + 1
    && forall i :: 0 <= i < |changes| ==> Shaped(states[i]) && Did(states[i], changes[i], states[i + 1])
  }

  /**
   In every state of every run the blocks of all inodes are pairwise distinct and the set bits
   are exactly the reserved blocks plus the blocks of the inodes there are.
   */
  lemma {:induction false} EveryRunKeepsVolume(states: seq<Volume>, changes: seq<Change>, reserved: set<nat>, i: nat)
    requires Run(states, changes) && Inv(states[0], reserved) && i < |states|
    ensures Inv(states[i], reserved)
  {
    if i > 0 {
      EveryRunKeepsVolume(states, changes, reserved, i - 1);
      ChangeKeeps(states[i - 1], reserved, changes[i - 1], states[i - 1 + 1]);
    }
  }
}
