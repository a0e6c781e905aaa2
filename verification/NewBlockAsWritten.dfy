/**
 new_block as fs/bitmap.c:90-107 writes it: the bit of block k is set, the buffer of the raw number
 k is cleared, which is block k - 128 of the file system, and block k keeps whatever it held.
 */
module NewBlockAsWritten {
  import opened Basics
  import opened BlockMap
  import opened BitScan
  import opened BlockAlloc
  import opened FileContents

  /** NR_FS_START: the raw number of file-system block 0. */
  const FS_START: nat := 128

  function ClearedBy(blocks: seq<Blk>, k: nat): (r: seq<Blk>)
    requires |blocks| == NR_BLOCKS && k < MAP_BITS
    ensures |r| == NR_BLOCKS
  {
    if k >= FS_START then blocks[k - FS_START := ZeroBlock()] else blocks
  }

  /** Block k is taken as written and its number stored in slot s of inode n. */
  function InstallWritten(v: Volume, n: nat, s: Slot, k: nat): Volume
    requires |v.blocks| == NR_BLOCKS && |v.bits| == MAP_BITS && n in v.inodes && AreaOk(v.inodes[n].area)
    requires SlotOk(s) && k < MAP_BITS
  {
    var node, blocks := v.inodes[n], ClearedBy(v.blocks, k);
    if InInode(s) then
      Volume(blocks, v.bits[k := true],
             v.inodes[n := node.(area := node.area[AreaIndex(s) := k], dirty := true)])
    else
      var t := TableOf(v.blocks, node.area, s);
      Volume(blocks[t := SetEntry(blocks[t], TableIndex(s), k)], v.bits[k := true], v.inodes)
  }

  predicate NoEntries(b: Blk) {
    forall i :: 0 <= i < PER_TABLE ==> Entry(b, i) == 0
  }

  lemma NoEntriesIsZero(b: Blk)
    requires NoEntries(b)
    ensures b == ZeroBlock()
  {
    forall j | 0 <= j < BLOCK_SIZE ensures b[j] == 0 {
      assert Entry(b, j / 2) == 0;
    }
  }

  /** Block z holds a table of some inode. */
  ghost predicate TableInUse(v: Volume, z: nat)
    requires Shaped(v)
  {
    z != 0 && exists n, s :: n in v.inodes && SlotOk(s) && !IsLeaf(s) && Held(v, n, s) == z
  }

  /** What is installed as a table reads as an empty one. */
  predicate NewIsClean(v: Volume, s: Slot, k: nat)
    requires |v.blocks| == NR_BLOCKS && k < MAP_BITS
  {
    IsLeaf(s) || NoEntries(v.blocks[k])
  }

  /** What is cleared instead is no table with entries. */
  ghost predicate ClearIsHarmless(v: Volume, k: nat)
    requires Shaped(v) && k < MAP_BITS
  {
    k < FS_START || !TableInUse(v, k - FS_START) || NoEntries(v.blocks[k - FS_START])
  }

  // ------------------------------------------------------------ one block

  function Clear(v: Volume, k: nat): (u: Volume)
    requires Shaped(v) && k < MAP_BITS
    ensures Shaped(u) && u.inodes == v.inodes && u.bits == v.bits
  {
    v.(blocks := ClearedBy(v.blocks, k))
  }

  /** A harmless clear changes no slot. */
  lemma {:induction false} ClearHeld(v: Volume, k: nat, n: nat, s: Slot)
    requires Shaped(v) && k < MAP_BITS && ClearIsHarmless(v, k) && n in v.inodes && SlotOk(s)
    ensures Held(Clear(v, k), n, s) == Held(v, n, s)
    decreases match s case DblLeaf(_, _) => 2 case DblMid(_) => 1 case IndLeaf(_) => 1 case _ => 0
  {
    if !InInode(s) {
      var p := ParentSlot(s);
      ClearHeld(v, k, n, p);
      HeldThroughParent(v.blocks, v.inodes[n].area, s);
      HeldThroughParent(Clear(v, k).blocks, v.inodes[n].area, s);
      var t := Held(v, n, p);
      if t != 0 && k >= FS_START && t == k - FS_START { assert TableInUse(v, t); }
    }
  }

  lemma ClearKeeps(v: Volume, reserved: set<nat>, k: nat)
    requires Inv(v, reserved) && k < MAP_BITS && ClearIsHarmless(v, k)
    ensures Inv(Clear(v, k), reserved) && SameSlots(v, Clear(v, k))
  {
    forall n, s | n in v.inodes && SlotOk(s) ensures Held(Clear(v, k), n, s) == Held(v, n, s) {
      ClearHeld(v, k, n, s);
    }
    SameSlotsKeep(v, Clear(v, k), reserved);
  }

  /** After a harmless clear the written install is the meant one, up to what a new data block holds. */
  lemma InstallWrittenIs(v: Volume, reserved: set<nat>, n: nat, s: Slot, k: nat)
    requires Inv(v, reserved) && n in v.inodes && SlotOk(s) && 0 < k < MAP_BITS && !v.bits[k]
    requires Empty(v, n, s) && ClearIsHarmless(v, k)
    ensures var u := Clear(v, k);
      && Inv(u, reserved) && SameSlots(v, u) && Empty(u, n, s) && !u.bits[k]
      && InstallWritten(v, n, s, k) == Overwrite(Install(u, n, s, k), k, v.blocks[k])
  {
    var u := Clear(v, k);
    ClearKeeps(v, reserved, k);
    if !InInode(s) {
      HeldThroughParent(v.blocks, v.inodes[n].area, s);
      HeldThroughParent(u.blocks, u.inodes[n].area, s);
      assert Held(u, n, ParentSlot(s)) == Held(v, n, ParentSlot(s));
      FreshNotHeld(v, reserved, k, n, ParentSlot(s));
    }
  }

  /** A clean block taken with a harmless clear keeps the volume sound and fills exactly one slot. */
  lemma InstallWrittenKeeps(v: Volume, reserved: set<nat>, n: nat, s: Slot, k: nat)
    requires Inv(v, reserved) && n in v.inodes && SlotOk(s) && 0 < k < MAP_BITS && !v.bits[k]
    requires Empty(v, n, s) && ClearIsHarmless(v, k) && NewIsClean(v, s, k)
    ensures var w := InstallWritten(v, n, s, k); Inv(w, reserved) && w.inodes.Keys == v.inodes.Keys && Filled(v, w, n, s, k)
  {
    var u := Clear(v, k);
    InstallWrittenIs(v, reserved, n, s, k);
    InstallKeeps(u, reserved, n, s, k);
    InstallShaped(u, n, s, k);
    var m := Install(u, n, s, k);
    assert Held(m, n, s) == k;
    if IsLeaf(s) {
      OverwriteKeeps(m, reserved, n, s, v.blocks[k]);
    } else {
      NoEntriesIsZero(v.blocks[k]);
      if !InInode(s) { FreshNotHeld(u, reserved, k, n, ParentSlot(s)); HeldThroughParent(u.blocks, u.inodes[n].area, s); }
      assert m.blocks[k] == ZeroBlock();
      assert InstallWritten(v, n, s, k) == m;
    }
  }

  /** The slot of entry j in the table that slot s holds. */
  function Child(s: Slot, j: nat): (c: Slot)
    requires SlotOk(s) && !IsLeaf(s) && j < PER_TABLE
    ensures SlotOk(c) && !InInode(c) && ParentSlot(c) == s && TableIndex(c) == j
  {
    match s
    case Ind => IndLeaf(j)
    case Dbl => DblMid(j)
    case DblMid(i) => DblLeaf(i, j)
  }

  /** Whatever a slot held before the meant install, it holds after it with block k replaced. */
  lemma {:induction false} KeptHeld(u: Volume, reserved: set<nat>, n: nat, s: Slot, k: nat, blk: Blk, n': nat, s': Slot)
    requires Inv(u, reserved) && n in u.inodes && SlotOk(s) && 0 < k < MAP_BITS && !u.bits[k] && Empty(u, n, s)
    requires n' in u.inodes && SlotOk(s') && Held(u, n', s') != 0
    requires Shaped(Install(u, n, s, k))
    ensures Held(Overwrite(Install(u, n, s, k), k, blk), n', s') == Held(u, n', s')
    decreases match s' case DblLeaf(_, _) => 2 case DblMid(_) => 1 case IndLeaf(_) => 1 case _ => 0
  {
    var m := Install(u, n, s, k);
    var w := Overwrite(m, k, blk);
    InstallHeld(u, reserved, n, s, k, n', s');
    if !InInode(s') {
      var p := ParentSlot(s');
      HeldThroughParent(u.blocks, u.inodes[n'].area, s');
      KeptHeld(u, reserved, n, s, k, blk, n', p);
      InstallHeld(u, reserved, n, s, k, n', p);
      FreshNotHeld(u, reserved, k, n', p);
      HeldThroughParent(w.blocks, w.inodes[n'].area, s');
      HeldThroughParent(m.blocks, m.inodes[n'].area, s');
    }
  }

  /** A table installed with entries breaks the volume. */
  lemma StaleTableBreaks(v: Volume, reserved: set<nat>, n: nat, s: Slot, k: nat)
    requires Inv(v, reserved) && n in v.inodes && SlotOk(s) && 0 < k < MAP_BITS && !v.bits[k]
    requires Empty(v, n, s) && ClearIsHarmless(v, k) && !NewIsClean(v, s, k)
    ensures !Inv(InstallWritten(v, n, s, k), reserved)
  {
    var u, w := Clear(v, k), InstallWritten(v, n, s, k);
    InstallWrittenIs(v, reserved, n, s, k);
    InstallShaped(u, n, s, k);
    var j :| 0 <= j < PER_TABLE && Entry(v.blocks[k], j) != 0;
    var c := Child(s, j);
    StaleEntryHeld(u, reserved, n, s, k, v.blocks[k], j);
    if Inv(w, reserved) {
      var e := Held(w, n, c);
      HeldInRange(w, reserved, n, c);
      assert BitOk(w, reserved, e) && BitOk(u, reserved, e) && Owned(w, e);
      if e == k {
        SameHolder(w, n, c, n, s);
      } else {
        var n', s' :| n' in u.inodes && SlotOk(s') && Held(u, n', s') == e;
        KeptHeld(u, reserved, n, s, k, v.blocks[k], n', s');
        SameHolder(w, n, c, n', s');
        HeldThroughParent(u.blocks, u.inodes[n].area, c);
      }
      assert false;
    }
  }

  lemma StaleEntryHeld(u: Volume, reserved: set<nat>, n: nat, s: Slot, k: nat, blk: Blk, j: nat)
    requires Inv(u, reserved) && n in u.inodes && SlotOk(s) && 0 < k < MAP_BITS && !u.bits[k] && Empty(u, n, s)
    requires !IsLeaf(s) && j < PER_TABLE && Shaped(Install(u, n, s, k))
    ensures var w := Overwrite(Install(u, n, s, k), k, blk);
      Held(w, n, s) == k && Held(w, n, Child(s, j)) == Entry(blk, j)
  {
    var m := Install(u, n, s, k);
    var w := Overwrite(m, k, blk);
    InstallHeld(u, reserved, n, s, k, n, s);
    if !InInode(s) {
      var p := ParentSlot(s);
      InstallHeld(u, reserved, n, s, k, n, p);
      FreshNotHeld(u, reserved, k, n, p);
      HeldThroughParent(m.blocks, m.inodes[n].area, s);
      HeldThroughParent(w.blocks, w.inodes[n].area, s);
    }
    HeldThroughParent(w.blocks, w.inodes[n].area, Child(s, j));
  }

  lemma InstallWrittenShaped(v: Volume, n: nat, s: Slot, k: nat)
    requires Shaped(v) && n in v.inodes && SlotOk(s) && k < MAP_BITS
    ensures Shaped(InstallWritten(v, n, s, k)) && InstallWritten(v, n, s, k).inodes.Keys == v.inodes.Keys
  {
  }

  /** With a clean new block every other slot holds what it held, or nothing any more. */
  lemma {:induction false} HeldOrLost(v: Volume, reserved: set<nat>, n: nat, s: Slot, k: nat, n': nat, s': Slot)
    requires Inv(v, reserved) && n in v.inodes && SlotOk(s) && 0 < k < MAP_BITS && !v.bits[k] && Empty(v, n, s)
    requires NewIsClean(v, s, k) && n' in v.inodes && SlotOk(s') && Shaped(InstallWritten(v, n, s, k))
    requires n' == n ==> s' != s
    ensures var w := InstallWritten(v, n, s, k); Held(w, n', s') == 0 || Held(w, n', s') == Held(v, n', s')
    decreases match s' case DblLeaf(_, _) => 2 case DblMid(_) => 1 case IndLeaf(_) => 1 case _ => 0
  {
    var w := InstallWritten(v, n, s, k);
    if !InInode(s') {
      var p := ParentSlot(s');
      HeldThroughParent(v.blocks, v.inodes[n'].area, s');
      HeldThroughParent(w.blocks, w.inodes[n'].area, s');
      if !InInode(s) { HeldThroughParent(v.blocks, v.inodes[n].area, s); FreshNotHeld(v, reserved, k, n, ParentSlot(s)); }
      if n' == n && p == s {
        UnderNew(v, reserved, n, s, k, s');
      } else {
        HeldOrLost(v, reserved, n, s, k, n', p);
        var t := Held(w, n', p);
        if t != 0 {
          FreshNotHeld(v, reserved, k, n', p);
          if !InInode(s) && t == Held(v, n, ParentSlot(s)) {
            SameHolder(v, n', p, n, ParentSlot(s));
            SiblingSlots(s, s');
          }
        }
      }
    }
  }

  /** Nothing is held under a clean new table. */
  lemma UnderNew(v: Volume, reserved: set<nat>, n: nat, s: Slot, k: nat, c: Slot)
    requires Inv(v, reserved) && n in v.inodes && SlotOk(s) && 0 < k < MAP_BITS && !v.bits[k] && Empty(v, n, s)
    requires NewIsClean(v, s, k) && SlotOk(c) && !InInode(c) && ParentSlot(c) == s && Shaped(InstallWritten(v, n, s, k))
    ensures Held(InstallWritten(v, n, s, k), n, c) == 0
  {
    var w := InstallWritten(v, n, s, k);
    HeldThroughParent(w.blocks, w.inodes[n].area, c);
    if InInode(s) {
      assert Held(w, n, s) == k && w.blocks[k] == v.blocks[k];
    } else {
      HeldThroughParent(v.blocks, v.inodes[n].area, s);
      HeldThroughParent(w.blocks, w.inodes[n].area, s);
      FreshNotHeld(v, reserved, k, n, ParentSlot(s));
      assert Held(w, n, ParentSlot(s)) == Held(v, n, ParentSlot(s));
      assert Held(w, n, s) == k && w.blocks[k] == v.blocks[k];
    }
  }

  /** Clearing a table with entries breaks the volume: what it listed is marked and owned by nobody. */
  lemma ClearedTableBreaks(v: Volume, reserved: set<nat>, n: nat, s: Slot, k: nat)
    requires Inv(v, reserved) && n in v.inodes && SlotOk(s) && 0 < k < MAP_BITS && !v.bits[k]
    requires Empty(v, n, s) && !ClearIsHarmless(v, k) && NewIsClean(v, s, k)
    ensures !Inv(InstallWritten(v, n, s, k), reserved)
  {
    var w, z := InstallWritten(v, n, s, k), k - FS_START;
    InstallWrittenShaped(v, n, s, k);
    var n', p :| n' in v.inodes && SlotOk(p) && !IsLeaf(p) && Held(v, n', p) == z;
    var i :| 0 <= i < PER_TABLE && Entry(v.blocks[z], i) != 0;
    var c, e := Child(p, i), Entry(v.blocks[z], i);
    HeldThroughParent(v.blocks, v.inodes[n'].area, c);
    assert Held(v, n', c) == e;
    HeldInRange(v, reserved, n', c);
    assert Owned(v, e) && BitOk(v, reserved, e);
    LostEntry(v, reserved, n, s, k, n', p, i);
    if Inv(w, reserved) {
      assert BitOk(w, reserved, e);
      var n2, s2 :| n2 in w.inodes && SlotOk(s2) && Held(w, n2, s2) == e;
      if n2 == n && s2 == s {
        NewHeld(v, reserved, n, s, k);
      } else {
        HeldOrLost(v, reserved, n, s, k, n2, s2);
        SameHolder(v, n2, s2, n', c);
      }
      assert false;
    }
  }

  lemma NewHeld(v: Volume, reserved: set<nat>, n: nat, s: Slot, k: nat)
    requires Inv(v, reserved) && n in v.inodes && SlotOk(s) && 0 < k < MAP_BITS && !v.bits[k] && Empty(v, n, s)
    requires Shaped(InstallWritten(v, n, s, k))
    ensures Held(InstallWritten(v, n, s, k), n, s) == k || Held(InstallWritten(v, n, s, k), n, s) == 0
  {
    var w := InstallWritten(v, n, s, k);
    if !InInode(s) {
      HeldThroughParent(v.blocks, v.inodes[n].area, s);
      HeldThroughParent(w.blocks, w.inodes[n].area, s);
      if s.DblLeaf? && Held(v, n, Dbl) == Held(v, n, ParentSlot(s)) { SameHolder(v, n, Dbl, n, ParentSlot(s)); }
    }
  }

  /** The entry of the cleared table is gone. */
  lemma LostEntry(v: Volume, reserved: set<nat>, n: nat, s: Slot, k: nat, n': nat, p: Slot, i: nat)
    requires Inv(v, reserved) && n in v.inodes && SlotOk(s) && FS_START <= k < MAP_BITS && !v.bits[k] && Empty(v, n, s)
    requires n' in v.inodes && SlotOk(p) && !IsLeaf(p) && i < PER_TABLE && k != FS_START && Held(v, n', p) == k - FS_START
    requires Entry(v.blocks[k - FS_START], i) != 0 && Shaped(InstallWritten(v, n, s, k))
    ensures Held(InstallWritten(v, n, s, k), n', Child(p, i)) != Entry(v.blocks[k - FS_START], i)
  {
    var w, c := InstallWritten(v, n, s, k), Child(p, i);
    var z := k - FS_START;
    HeldThroughParent(v.blocks, v.inodes[n'].area, c);
    HeldThroughParent(w.blocks, w.inodes[n'].area, c);
    if !InInode(s) {
      HeldThroughParent(v.blocks, v.inodes[n].area, s);
      if Held(v, n, ParentSlot(s)) == z {
        SameHolder(v, n', p, n, ParentSlot(s));
        SiblingSlots(s, c);
      }
    }
    if !InInode(p) {
      HeldThroughParent(v.blocks, v.inodes[n'].area, p);
      HeldThroughParent(w.blocks, w.inodes[n'].area, p);
    }
  }

  /**
   Taking one block as written for an empty slot.  Unless a stale table is installed by the same
   call that clears a table in use, the volume stays sound if and only if neither happens.
   */
  lemma TakeAsWrittenExact(v: Volume, reserved: set<nat>, n: nat, s: Slot, k: nat)
    requires Inv(v, reserved) && n in v.inodes && SlotOk(s) && 0 < k < MAP_BITS && !v.bits[k] && Empty(v, n, s)
    requires NewIsClean(v, s, k) || ClearIsHarmless(v, k)
    ensures Inv(InstallWritten(v, n, s, k), reserved) <==> NewIsClean(v, s, k) && ClearIsHarmless(v, k)
  {
    if !ClearIsHarmless(v, k) {
      ClearedTableBreaks(v, reserved, n, s, k);
    } else if !NewIsClean(v, s, k) {
      StaleTableBreaks(v, reserved, n, s, k);
    } else {
      InstallWrittenKeeps(v, reserved, n, s, k);
    }
  }

  // ------------------------------------------------------------ a whole path

  /** Fills an empty slot as written; a full map stores 65535 and clears nothing. */
  function EnsureWritten(v: Volume, n: nat, s: Slot): (w: Volume)
    requires Shaped(v) && n in v.inodes && SlotOk(s)
    ensures Shaped(w) && w.inodes.Keys == v.inodes.Keys
  {
    EnsureShaped(v, n, s);
    var k := FirstZero(v.bits, 0);
    if Held(v, n, s) != 0 then v
    else if k == MAP_BITS then Store(v, n, s, NO_BLOCK)
    else InstallWrittenShaped(v, n, s, k); InstallWritten(v, n, s, k)
  }

  ghost function EnsureAllWritten(v: Volume, n: nat, p: seq<Slot>): (w: Volume)
    requires Shaped(v) && n in v.inodes && forall i :: 0 <= i < |p| ==> SlotOk(p[i])
    ensures Shaped(w) && w.inodes.Keys == v.inodes.Keys
    decreases |p|
  {
    if p == [] then v else EnsureAllWritten(EnsureWritten(v, n, p[0]), n, p[1..])
  }

  /** Filling slot s takes a clean block and clears no table in use, or takes none. */
  ghost predicate CleanStep(v: Volume, s: Slot)
    requires Shaped(v) && SlotOk(s)
  {
    var k := FirstZero(v.bits, 0);
    k == MAP_BITS || (NewIsClean(v, s, k) && ClearIsHarmless(v, k))
  }

  ghost predicate CleanPath(v: Volume, n: nat, p: seq<Slot>)
    requires Shaped(v) && n in v.inodes && forall i :: 0 <= i < |p| ==> SlotOk(p[i])
    decreases |p|
  {
    p == [] || ((Held(v, n, p[0]) == 0 ==> CleanStep(v, p[0])) && CleanPath(EnsureWritten(v, n, p[0]), n, p[1..]))
  }

  lemma EnsureWrittenKeeps(v: Volume, reserved: set<nat>, n: nat, s: Slot)
    requires Inv(v, reserved) && n in v.inodes && SlotOk(s)
    requires InInode(s) || Held(v, n, ParentSlot(s)) != 0
    requires Held(v, n, s) == 0 ==> FreeCount(v.bits) > 0 && CleanStep(v, s)
    ensures var w := EnsureWritten(v, n, s);
      && Inv(w, reserved) && OthersKept(v, w, n, [s])
      && Held(w, n, s) != 0 && (Held(v, n, s) != 0 ==> w == v)
      && FreeCount(w.bits) == FreeCount(v.bits) - (if Held(v, n, s) == 0 then 1 else 0)
  {
    if Held(v, n, s) == 0 {
      var k := FirstZero(v.bits, 0);
      FullMeansNone(v.bits);
      BootBit(v, reserved);
      InstallWrittenKeeps(v, reserved, n, s, k);
      FreeCountSet(v.bits, k);
    }
  }

  /** On a clean path with enough free blocks the written lines do what is meant, for every slot. */
  lemma {:induction false} EnsureAllWrittenKeeps(v: Volume, reserved: set<nat>, n: nat, p: seq<Slot>)
    requires Inv(v, reserved) && n in v.inodes && Chained(p) && CleanPath(v, n, p)
    requires p != [] ==> InInode(p[0]) || Held(v, n, ParentSlot(p[0])) != 0
    requires Missing(v, n, p) <= FreeCount(v.bits)
    ensures var w := EnsureAllWritten(v, n, p);
      Inv(w, reserved) && OthersKept(v, w, n, p) && PathFilled(v, w, n, p)
    decreases |p|
  {
    if p != [] {
      var s, rest := p[0], p[1..];
      var v1 := EnsureWritten(v, n, s);
      EnsureWrittenKeeps(v, reserved, n, s);
      RestChained(p);
      MissingAfter(v, v1, n, s, rest);
      EnsureAllWrittenKeeps(v1, reserved, n, rest);
      ComposeFilled(v, v1, EnsureAllWritten(v1, n, rest), n, p);
    }
  }

  /** On a full map the written lines are the meant ones. */
  lemma {:induction false} FullSame(v: Volume, n: nat, p: seq<Slot>)
    requires Shaped(v) && n in v.inodes && FreeCount(v.bits) == 0 && forall i :: 0 <= i < |p| ==> SlotOk(p[i])
    ensures EnsureAllWritten(v, n, p) == EnsureAll(v, n, p)
    decreases |p|
  {
    if p != [] {
      FullMeansNone(v.bits);
      EnsureShaped(v, n, p[0]);
      FullSame(EnsureWritten(v, n, p[0]), n, p[1..]);
    }
  }

  /** Without enough free blocks a clean path ends with 65535 in one of its slots. */
  lemma {:induction false} EnsureAllWrittenFails(v: Volume, reserved: set<nat>, n: nat, p: seq<Slot>) returns (s: Slot)
    requires Inv(v, reserved) && n in v.inodes && Chained(p) && PathTail(p) && CleanPath(v, n, p)
    requires |p| == 3 ==> PathTail(p[1..])
    requires |p| <= 3
    requires p != [] ==> InInode(p[0]) || Held(v, n, ParentSlot(p[0])) != 0
    requires Missing(v, n, p) > FreeCount(v.bits)
    ensures s in p && SlotOk(s) && Held(EnsureAllWritten(v, n, p), n, s) == NO_BLOCK
    decreases |p|
  {
    if FreeCount(v.bits) == 0 {
      FullSame(v, n, p);
      s := EnsureAllFails(v, reserved, n, p);
    } else {
      EnsureWrittenKeeps(v, reserved, n, p[0]);
      RestChained(p);
      MissingAfter(v, EnsureWritten(v, n, p[0]), n, p[0], p[1..]);
      s := EnsureAllWrittenFails(EnsureWritten(v, n, p[0]), reserved, n, p[1..]);
    }
  }

  lemma EnsureOneWritten(v: Volume, n: nat, s: Slot)
    requires Shaped(v) && n in v.inodes && SlotOk(s)
    ensures EnsureAllWritten(v, n, [s]) == EnsureWritten(v, n, s)
  {
    assert [s][1..] == [];
  }

  lemma EnsureTwoWritten(v: Volume, n: nat, s: Slot, s': Slot)
    requires Shaped(v) && n in v.inodes && SlotOk(s) && SlotOk(s')
    ensures EnsureAllWritten(v, n, [s, s']) == EnsureWritten(EnsureWritten(v, n, s), n, s')
  {
    assert [s, s'][1..] == [s'];
    EnsureOneWritten(EnsureWritten(v, n, s), n, s');
  }

  lemma EnsureThreeWritten(v: Volume, n: nat, s: Slot, s': Slot, s'': Slot)
    requires Shaped(v) && n in v.inodes && SlotOk(s) && SlotOk(s') && SlotOk(s'')
    ensures EnsureAllWritten(v, n, [s, s', s'']) == EnsureWritten(EnsureWritten(EnsureWritten(v, n, s), n, s'), n, s'')
  {
    assert [s, s', s''][1..] == [s', s''];
    EnsureTwoWritten(EnsureWritten(v, n, s), n, s', s'');
  }
}
