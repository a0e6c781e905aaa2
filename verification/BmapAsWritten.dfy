/**
 create_block line by line (fs/inode.c:288-381), with new_block as it is written.
 */
module BmapAsWritten {
  import opened BlockMap
  import opened BitScan
  import opened BlockAlloc
  import opened FileContents
  import opened VolumeRuns
  import opened FileSystem
  import opened NewBlockAsWritten

  /** The entry of the double-indirect table used for index b, without the subtraction of line 332. */
  function WrittenMid(b: nat): nat
    requires b >= DIRECT
  {
    (b - DIRECT) / PER_TABLE
  }

  /** It is always the entry after the meant one, and leaves the table for the last 512 indices. */
  lemma WrittenMidExact(b: nat)
    requires DIRECT + PER_TABLE <= b < MAX_INDEX
    ensures LeafSlot(b) == DblLeaf(WrittenMid(b) - 1, (b - DIRECT) % PER_TABLE)
    ensures WrittenMid(b) < PER_TABLE <==> b < MAX_INDEX - PER_TABLE
  {
  }

  /** Fills entry i of block t when it is 0 (lines 344-353 and 360-368). */
  function FillTable(v: Volume, t: nat, i: nat): (w: Volume)
    requires Shaped(v) && t < NR_BLOCKS && i < PER_TABLE
    ensures Shaped(w) && w.inodes == v.inodes
  {
    var k := FirstZero(v.bits, 0);
    if Entry(v.blocks[t], i) != 0 then v
    else if k == MAP_BITS then v.(blocks := v.blocks[t := SetEntry(v.blocks[t], i, NO_BLOCK)])
    else
      var blocks := ClearedBy(v.blocks, k);
      v.(blocks := blocks[t := SetEntry(blocks[t], i, k)], bits := v.bits[k := true])
  }

  /** The test of line 334 as written: an inode with a root gets a new one, one without keeps none. */
  function WrittenRoot(v: Volume, n: nat): (w: Volume)
    requires Shaped(v) && n in v.inodes
    ensures Shaped(w) && w.inodes.Keys == v.inodes.Keys
  {
    var k := FirstZero(v.bits, 0);
    if v.inodes[n].area[8] == 0 then v
    else if k == MAP_BITS then Store(v, n, Dbl, NO_BLOCK)
    else InstallWrittenShaped(v, n, Dbl, k); InstallWritten(v, n, Dbl, k)
  }

  /** The double-indirect part from line 340 on, with the table in block t. */
  function WrittenDouble(v: Volume, t: nat, b: nat): (w: Volume)
    requires Shaped(v) && t < NR_BLOCKS && DIRECT + PER_TABLE <= b < MAX_INDEX - PER_TABLE
    ensures Shaped(w) && w.inodes == v.inodes
  {
    var u := FillTable(v, t, WrittenMid(b));
    FillTable(u, Entry(u.blocks[t], WrittenMid(b)), (b - DIRECT) % PER_TABLE)
  }

  /** __bmap with create set. */
  ghost function CreateAsWritten(v: Volume, n: nat, b: nat): (w: Volume)
    requires Shaped(v) && n in v.inodes && b < MAX_INDEX - PER_TABLE
    ensures Shaped(w) && w.inodes.Keys == v.inodes.Keys
  {
    if b < DIRECT + PER_TABLE then EnsureAllWritten(v, n, Path(b))
    else WrittenDouble(WrittenRoot(v, n), WrittenRoot(v, n).inodes[n].area[8], b)
  }

  // ------------------------------------------------------------ no root

  /** Tables that were left alone or cleared: every slot holds what it held, or nothing. */
  lemma {:induction false} Shrunk(v: Volume, w: Volume, n: nat, s: Slot)
    requires Shaped(v) && Shaped(w) && w.inodes == v.inodes && n in v.inodes && SlotOk(s)
    requires forall t: nat :: t < NR_BLOCKS && TableInUse(v, t) ==> w.blocks[t] == v.blocks[t] || w.blocks[t] == ZeroBlock()
    ensures Held(w, n, s) == 0 || Held(w, n, s) == Held(v, n, s)
    decreases match s case DblLeaf(_, _) => 2 case DblMid(_) => 1 case IndLeaf(_) => 1 case _ => 0
  {
    if !InInode(s) {
      Shrunk(v, w, n, ParentSlot(s));
      HeldThroughParent(v.blocks, v.inodes[n].area, s);
      HeldThroughParent(w.blocks, w.inodes[n].area, s);
      if Held(w, n, ParentSlot(s)) != 0 { assert TableInUse(v, Held(v, n, ParentSlot(s))); }
    }
  }

  /** A bit set for a block that nobody gets breaks the volume. */
  lemma LeakBreaks(v: Volume, w: Volume, reserved: set<nat>, k: nat)
    requires Inv(v, reserved) && Shaped(w) && w.inodes == v.inodes && 0 < k < MAP_BITS && !v.bits[k] && w.bits[k]
    requires forall t: nat :: t < NR_BLOCKS && TableInUse(v, t) ==> w.blocks[t] == v.blocks[t] || w.blocks[t] == ZeroBlock()
    ensures !Inv(w, reserved)
  {
    assert BitOk(v, reserved, k);
    if Owned(w, k) {
      var n, s :| n in w.inodes && SlotOk(s) && Held(w, n, s) == k;
      Shrunk(v, w, n, s);
      FreshNotHeld(v, reserved, k, n, s);
    }
    assert !BitOk(w, reserved, k);
  }

  lemma FreshNoTable(v: Volume, reserved: set<nat>, k: nat)
    requires Inv(v, reserved) && 0 < k < MAP_BITS && !v.bits[k]
    ensures !TableInUse(v, k)
  {
    if TableInUse(v, k) {
      var n, s :| n in v.inodes && SlotOk(s) && !IsLeaf(s) && Held(v, n, s) == k;
      FreshNotHeld(v, reserved, k, n, s);
    }
  }

  /** Without a root the number of the new table is written into block 0, and the table is lost. */
  lemma RootlessBreaks(v: Volume, reserved: set<nat>, n: nat, b: nat)
    requires Inv(v, reserved) && n in v.inodes && DIRECT + PER_TABLE <= b < MAX_INDEX - PER_TABLE
    requires v.inodes[n].area[8] == 0
    ensures !Inv(CreateAsWritten(v, n, b), reserved)
  {
    BootBit(v, reserved);
    var m, j, k := WrittenMid(b), (b - DIRECT) % PER_TABLE, FirstZero(v.bits, 0);
    var u := FillTable(v, 0, m);
    assert Entry(v.blocks[0], m) == 0;
    var w := FillTable(u, Entry(u.blocks[0], m), j);
    assert w == CreateAsWritten(v, n, b);
    if k == MAP_BITS {
      assert Entry(u.blocks[0], m) == NO_BLOCK && w.blocks[0] == u.blocks[0];
      assert Entry(w.blocks[0], m) != 0;
    } else {
      assert Entry(u.blocks[0], m) == k;
      FreshNoTable(v, reserved, k);
      LeakBreaks(v, w, reserved, k);
    }
  }

  // ------------------------------------------------------------ a root that is replaced

  /** The volume with the root of inode n forgotten. */
  function Rootless(v: Volume, n: nat): Volume
    requires Shaped(v) && n in v.inodes
  {
    v.(inodes := v.inodes[n := v.inodes[n].(area := v.inodes[n].area[8 := 0])])
  }

  predicate InDouble(s: Slot) {
    s.Dbl? || s.DblMid? || s.DblLeaf?
  }

  /** k is held by the double-indirect part of inode n. */
  ghost predicate LostWithRoot(v: Volume, n: nat, k: nat)
    requires Shaped(v) && n in v.inodes
  {
    k != 0 && exists s :: SlotOk(s) && InDouble(s) && Held(v, n, s) == k
  }

  /** What is lost with the root, as blocks nobody may use. */
  ghost function Lost(v: Volume, n: nat): set<nat>
    requires Shaped(v) && n in v.inodes
  {
    set k: nat | k < NR_BLOCKS && LostWithRoot(v, n, k)
  }

  lemma RootlessHeld(v: Volume, n: nat, n': nat, s: Slot)
    requires Shaped(v) && n in v.inodes && n' in v.inodes && SlotOk(s)
    ensures Shaped(Rootless(v, n))
    ensures Held(Rootless(v, n), n', s) == if n' == n && InDouble(s) then 0 else Held(v, n', s)
  {
  }

  /** Forgetting a root keeps the volume sound if everything lost with it counts as reserved. */
  lemma RootlessInv(v: Volume, reserved: set<nat>, n: nat)
    requires Inv(v, reserved) && n in v.inodes
    ensures Inv(Rootless(v, n), reserved + Lost(v, n))
  {
    var u, res := Rootless(v, n), reserved + Lost(v, n);
    RootlessHeld(v, n, n, Dbl);
    forall n', s ensures HoldsOk(u, res, n', s) {
      if n' in u.inodes && SlotOk(s) && Held(u, n', s) != 0 {
        RootlessHeld(v, n, n', s);
        HeldInRange(v, reserved, n', s);
        NotLost(v, n, n', s);
      }
    }
    forall n1, s1, n2, s2 ensures Apart(u, n1, s1, n2, s2) {
      if n1 in u.inodes && n2 in u.inodes && SlotOk(s1) && SlotOk(s2) {
        RootlessHeld(v, n, n1, s1);
        RootlessHeld(v, n, n2, s2);
        assert Apart(v, n1, s1, n2, s2);
      }
    }
    forall i: nat ensures BitOk(u, res, i) {
      if i < MAP_BITS {
        assert BitOk(v, reserved, i);
        RootlessOwned(v, n, i);
      }
    }
  }

  lemma NotLost(v: Volume, n: nat, n': nat, s: Slot)
    requires Shaped(v) && DistinctBlocks(v) && n in v.inodes && n' in v.inodes && SlotOk(s)
    requires Held(v, n', s) != 0 && !(n' == n && InDouble(s))
    ensures Held(v, n', s) !in Lost(v, n)
  {
    forall s' | SlotOk(s') && InDouble(s') ensures Held(v, n, s') != Held(v, n', s) {
      assert Apart(v, n', s, n, s');
    }
  }

  lemma RootlessOwned(v: Volume, n: nat, i: nat)
    requires Shaped(v) && n in v.inodes && i < NR_BLOCKS
    ensures Shaped(Rootless(v, n))
    ensures Owned(Rootless(v, n), i) || i in Lost(v, n) <==> Owned(v, i)
  {
    var u := Rootless(v, n);
    RootlessHeld(v, n, n, Dbl);
    if Owned(u, i) {
      var n', s :| n' in u.inodes && SlotOk(s) && Held(u, n', s) == i;
      RootlessHeld(v, n, n', s);
      assert Held(v, n', s) == i;
    }
    if Owned(v, i) {
      var n', s :| n' in v.inodes && SlotOk(s) && Held(v, n', s) == i;
      RootlessHeld(v, n, n', s);
      if !(n' == n && InDouble(s)) { assert Held(u, n', s) == i; }
    }
  }

  /** Filling an entry of the table a slot lives in is filling the slot. */
  lemma FillIsEnsure(v: Volume, n: nat, s: Slot)
    requires Shaped(v) && n in v.inodes && SlotOk(s) && !InInode(s)
    requires TableOf(v.blocks, v.inodes[n].area, s) != 0
    ensures FillTable(v, TableOf(v.blocks, v.inodes[n].area, s), TableIndex(s)) == EnsureWritten(v, n, s)
  {
    HeldThroughParent(v.blocks, v.inodes[n].area, s);
  }

  lemma NewRoot(v: Volume, reserved: set<nat>, n: nat)
    requires Inv(v, reserved) && n in v.inodes && v.inodes[n].area[8] != 0
    ensures Shaped(Rootless(v, n)) && WrittenRoot(v, n) == EnsureWritten(Rootless(v, n), n, Dbl)
    ensures WrittenRoot(v, n).inodes[n].area[8] != 0
  {
    var u, k := Rootless(v, n), FirstZero(v.bits, 0);
    BootBit(v, reserved);
    RootlessHeld(v, n, n, Dbl);
    assert u.inodes[n].area[8 := k] == v.inodes[n].area[8 := k];
    assert u.inodes[n].area[8 := NO_BLOCK] == v.inodes[n].area[8 := NO_BLOCK];
  }

  lemma EntryFilled(v: Volume, t: nat, i: nat)
    requires Shaped(v) && v.bits[0] && t < NR_BLOCKS && i < PER_TABLE
    ensures Entry(FillTable(v, t, i).blocks[t], i) != 0
  {
  }

  /** With a root, the written call fills a path of the volume that has forgotten it. */
  lemma WrittenIsRootless(v: Volume, reserved: set<nat>, n: nat, b: nat)
    requires Inv(v, reserved) && n in v.inodes && DIRECT + PER_TABLE <= b < MAX_INDEX - PER_TABLE
    requires v.inodes[n].area[8] != 0
    ensures Shaped(Rootless(v, n))
    ensures CreateAsWritten(v, n, b) == EnsureAllWritten(Rootless(v, n), n, Path(b + PER_TABLE))
  {
    var u, m, j := Rootless(v, n), WrittenMid(b), (b - DIRECT) % PER_TABLE;
    RootlessHeld(v, n, n, Dbl);
    assert LeafSlot(b + PER_TABLE) == DblLeaf(m, j);
    NewRoot(v, reserved, n);
    var u1 := EnsureWritten(u, n, Dbl);
    var t := u1.inodes[n].area[8];
    FillIsEnsure(u1, n, DblMid(m));
    var u2 := EnsureWritten(u1, n, DblMid(m));
    BootBit(v, reserved);
    EntryFilled(u1, t, m);
    FillIsEnsure(u2, n, DblLeaf(m, j));
    EnsureThreeWritten(u, n, Dbl, DblMid(m), DblLeaf(m, j));
  }

  /** A volume that is sound with r reserved is not sound without. */
  lemma TooMuchReserved(w: Volume, reserved: set<nat>, res: set<nat>, r: nat)
    requires Inv(w, res) && r in res && r !in reserved && 0 < r < MAP_BITS
    ensures !Inv(w, reserved)
  {
    assert BitOk(w, res, r);
    if Owned(w, r) {
      var n, s :| n in w.inodes && SlotOk(s) && Held(w, n, s) == r;
      HeldInRange(w, res, n, s);
    }
    assert !BitOk(w, reserved, r);
  }

  /** Nor does filling a clean path make it so. */
  lemma WrittenStaysBroken(u: Volume, reserved: set<nat>, res: set<nat>, n: nat, c: nat, r: nat)
    requires Inv(u, res) && n in u.inodes && c < MAX_INDEX && r in res && r !in reserved && 0 < r < MAP_BITS
    requires CleanPath(u, n, Path(c))
    ensures !Inv(EnsureAllWritten(u, n, Path(c)), reserved)
  {
    PathChained(c);
    if Missing(u, n, Path(c)) <= FreeCount(u.bits) {
      EnsureAllWrittenKeeps(u, res, n, Path(c));
      TooMuchReserved(EnsureAllWritten(u, n, Path(c)), reserved, res, r);
    } else {
      var s := EnsureAllWrittenFails(u, res, n, Path(c));
      NoBlockBreaks(EnsureAllWritten(u, n, Path(c)), reserved, n, s);
    }
  }

  lemma OldRootLost(v: Volume, reserved: set<nat>, n: nat)
    requires Inv(v, reserved) && n in v.inodes && v.inodes[n].area[8] != 0
    ensures v.inodes[n].area[8] in Lost(v, n) && v.inodes[n].area[8] < 1024 && v.inodes[n].area[8] !in reserved
  {
    HeldInRange(v, reserved, n, Dbl);
    assert Held(v, n, Dbl) == v.inodes[n].area[8];
    assert LostWithRoot(v, n, Held(v, n, Dbl));
  }

  // ------------------------------------------------------------ the whole call

  /** Every block that the call takes for a table is clean, and it clears no table in use. */
  ghost predicate CleanCreate(v: Volume, n: nat, b: nat)
    requires Shaped(v) && n in v.inodes && b < MAX_INDEX - PER_TABLE && Shaped(Rootless(v, n))
  {
    if b < DIRECT + PER_TABLE then CleanPath(v, n, Path(b))
    else v.inodes[n].area[8] == 0 || CleanPath(Rootless(v, n), n, Path(b + PER_TABLE))
  }

  /**
   create_block as written, where new tables are clean and no table is cleared: it keeps the
   volume sound if and only if the index is below the double-indirect range and the map has the
   blocks the path is missing.
   */
  lemma CreateAsWrittenExact(v: Volume, reserved: set<nat>, n: nat, b: nat)
    requires Inv(v, reserved) && n in v.inodes && b < MAX_INDEX - PER_TABLE
    requires Shaped(Rootless(v, n)) && CleanCreate(v, n, b)
    ensures Inv(CreateAsWritten(v, n, b), reserved)
      <==> b < DIRECT + PER_TABLE && Missing(v, n, Path(b)) <= FreeCount(v.bits)
  {
    if b < DIRECT + PER_TABLE {
      PathAsWrittenExact(v, reserved, n, b);
    } else if v.inodes[n].area[8] == 0 {
      RootlessBreaks(v, reserved, n, b);
    } else {
      RootReplaced(v, reserved, n, b);
    }
  }

  lemma PathAsWrittenExact(v: Volume, reserved: set<nat>, n: nat, b: nat)
    requires Inv(v, reserved) && n in v.inodes && b < MAX_INDEX && CleanPath(v, n, Path(b))
    ensures Inv(EnsureAllWritten(v, n, Path(b)), reserved) <==> Missing(v, n, Path(b)) <= FreeCount(v.bits)
  {
    PathChained(b);
    if Missing(v, n, Path(b)) <= FreeCount(v.bits) {
      EnsureAllWrittenKeeps(v, reserved, n, Path(b));
    } else {
      var s := EnsureAllWrittenFails(v, reserved, n, Path(b));
      NoBlockBreaks(EnsureAllWritten(v, n, Path(b)), reserved, n, s);
    }
  }

  /** With a root, the old one is lost while its bit stays set. */
  lemma RootReplaced(v: Volume, reserved: set<nat>, n: nat, b: nat)
    requires Inv(v, reserved) && n in v.inodes && DIRECT + PER_TABLE <= b < MAX_INDEX - PER_TABLE
    requires v.inodes[n].area[8] != 0 && Shaped(Rootless(v, n)) && CleanPath(Rootless(v, n), n, Path(b + PER_TABLE))
    ensures !Inv(CreateAsWritten(v, n, b), reserved)
  {
    OldRootLost(v, reserved, n);
    RootlessInv(v, reserved, n);
    WrittenStaysBroken(Rootless(v, n), reserved, reserved + Lost(v, n), n, b + PER_TABLE, v.inodes[n].area[8]);
    WrittenIsRootless(v, reserved, n, b);
  }

  /** Where it is sound, the index is mapped and every other index of every inode maps as before. */
  lemma CreateAsWrittenMaps(v: Volume, reserved: set<nat>, n: nat, b: nat)
    requires Inv(v, reserved) && n in v.inodes && b < DIRECT + PER_TABLE
    requires CleanPath(v, n, Path(b)) && Missing(v, n, Path(b)) <= FreeCount(v.bits)
    ensures Inv(CreateAsWritten(v, n, b), reserved) && OnlyMapped(v, CreateAsWritten(v, n, b), n, b)
  {
    PathChained(b);
    EnsureAllWrittenKeeps(v, reserved, n, Path(b));
    PathToIndex(v, CreateAsWritten(v, n, b), reserved, n, b);
  }

  /** The reserved blocks of the largest volume with one map. */
  function Largest(): set<nat> {
    set i: nat | i < MAP_BITS && !Usable(i)
  }

  predicate Usable(i: nat) {
    0 < i < 1024
  }

  /** An empty volume of that size with one new inode, whose block 1 still holds the given bytes. */
  function OneFile(left: Blk): Volume {
    EmptyVolume(Largest()).(inodes := map[1 := NewInode(0)], blocks := EmptyVolume(Largest()).blocks[1 := left])
  }

  lemma OneFileInv(left: Blk)
    ensures Inv(OneFile(left), Largest()) && FirstZero(OneFile(left).bits, 0) == 1
  {
    var e := EmptyVolume(Largest());
    EmptyVolumeInv(Largest());
    NewInodeKeeps(e, Largest(), 1, 0);
    var v := e.(inodes := map[1 := NewInode(0)]);
    forall s | SlotOk(s) ensures Held(OneFile(left), 1, s) == Held(v, 1, s) == 0 {
      NewInodeEmpty(v, 1, s);
      NewInodeEmpty(OneFile(left), 1, s);
    }
    SameSlotsKeep(v, OneFile(left), Largest());
    FirstZeroIs(OneFile(left).bits, 1);
  }

  /** Block 519 of a new file on an empty volume: the first double-indirect index. */
  lemma CreateAsWrittenExample()
    ensures Inv(OneFile(ZeroBlock()), Largest()) && !Inv(CreateAsWritten(OneFile(ZeroBlock()), 1, 519), Largest())
  {
    OneFileInv(ZeroBlock());
    RootlessBreaks(OneFile(ZeroBlock()), Largest(), 1, 519);
  }

  /** Block 7 of a new file, where the first free block still lists block 5 from a deleted file. */
  lemma StaleTableExample()
    ensures var v := OneFile(SetEntry(ZeroBlock(), 0, 5));
      && Inv(v, Largest()) && Missing(v, 1, Path(7)) <= FreeCount(v.bits)
      && !Inv(CreateAsWritten(v, 1, 7), Largest())
  {
    var left := SetEntry(ZeroBlock(), 0, 5);
    var v := OneFile(left);
    OneFileInv(left);
    NewInodeEmpty(v, 1, Ind);
    NewInodeEmpty(v, 1, IndLeaf(0));
    TwoFree(v);
    assert Path(7) == [Ind, IndLeaf(0)];
    EnsureTwoWritten(v, 1, Ind, IndLeaf(0));
    assert Entry(left, 0) == 5;
    StaleInstall(v, 1);
  }

  lemma StaleInstall(v: Volume, n: nat)
    requires Inv(v, Largest()) && n in v.inodes && Held(v, n, Ind) == 0 && FirstZero(v.bits, 0) == 1 && Entry(v.blocks[1], 0) == 5
    ensures EnsureWritten(EnsureWritten(v, n, Ind), n, IndLeaf(0)) == InstallWritten(v, n, Ind, 1)
    ensures !Inv(InstallWritten(v, n, Ind, 1), Largest())
  {
    assert !NewIsClean(v, Ind, 1);
    TakeAsWrittenExact(v, Largest(), n, Ind, 1);
    var w := EnsureWritten(v, n, Ind);
    assert w == InstallWritten(v, n, Ind, 1) && Held(w, n, IndLeaf(0)) == 5;
  }

  lemma TwoFree(v: Volume)
    requires Shaped(v) && 1 in v.inodes && !v.bits[1] && !v.bits[2]
    ensures Missing(v, 1, [Ind, IndLeaf(0)]) <= FreeCount(v.bits)
  {
    FreeCountSet(v.bits, 1);
    FreeCountSet(v.bits[1 := true], 2);
    MissingTwo(v, 1, Ind, IndLeaf(0));
  }

  // ------------------------------------------------------------ a coincidence

  /** A block that is no table may hold anything. */
  lemma AnyBytes(v: Volume, reserved: set<nat>, k: nat, blk: Blk)
    requires Inv(v, reserved) && 0 < k < NR_BLOCKS && !TableInUse(v, k)
    ensures Inv(Overwrite(v, k, blk), reserved) && SameSlots(v, Overwrite(v, k, blk))
  {
    forall n, s | n in v.inodes && SlotOk(s) ensures Held(Overwrite(v, k, blk), n, s) == Held(v, n, s) {
      SameUnderOverwrite(v, k, blk, n, s);
    }
    SameSlotsKeep(v, Overwrite(v, k, blk), reserved);
  }

  lemma {:induction false} SameUnderOverwrite(v: Volume, k: nat, blk: Blk, n: nat, s: Slot)
    requires Shaped(v) && 0 < k < NR_BLOCKS && !TableInUse(v, k) && n in v.inodes && SlotOk(s)
    ensures Held(Overwrite(v, k, blk), n, s) == Held(v, n, s)
    decreases match s case DblLeaf(_, _) => 2 case DblMid(_) => 1 case IndLeaf(_) => 1 case _ => 0
  {
    if !InInode(s) {
      SameUnderOverwrite(v, k, blk, n, ParentSlot(s));
      HeldThroughParent(v.blocks, v.inodes[n].area, s);
      HeldThroughParent(Overwrite(v, k, blk).blocks, v.inodes[n].area, s);
      assert Held(v, n, ParentSlot(s)) != k;
    }
  }

  /** Only blocks 1, 2 and 129 are not reserved. */
  function AllButThree(): set<nat> {
    set i: nat | i < MAP_BITS && !OneOfThree(i)
  }

  predicate OneOfThree(i: nat) {
    i == 1 || i == 2 || i == 129
  }

  function TwoFiles(): Volume {
    EmptyVolume(AllButThree()).(inodes := map[1 := NewInode(0), 2 := NewInode(0)])
  }

  lemma TwoFilesInv()
    ensures Inv(TwoFiles(), AllButThree()) && forall n, s :: n in TwoFiles().inodes && SlotOk(s) ==> Held(TwoFiles(), n, s) == 0
  {
    var e := EmptyVolume(AllButThree());
    EmptyVolumeInv(AllButThree());
    NewInodeKeeps(e, AllButThree(), 1, 0);
    var f := e.(inodes := map[1 := NewInode(0)]);
    assert f == e.(inodes := e.inodes[1 := NewInode(0)]);
    NewInodeKeeps(f, AllButThree(), 2, 0);
    assert TwoFiles() == f.(inodes := f.inodes[2 := NewInode(0)]);
    forall n, s | n in TwoFiles().inodes && SlotOk(s) ensures Held(TwoFiles(), n, s) == 0 {
      NewInodeEmpty(TwoFiles(), n, s);
    }
  }

  /** Inode 2 gets block 1 as its table. */
  lemma OneTable()
    ensures var v := Install(TwoFiles(), 2, Ind, 1); Inv(v, AllButThree()) && Filled(TwoFiles(), v, 2, Ind, 1)
  {
    TwoFilesInv();
    InstallKeeps(TwoFiles(), AllButThree(), 2, Ind, 1);
    InstallShaped(TwoFiles(), 2, Ind, 1);
  }

  /** Inode 2 has block 1 as its table, which lists block 2; block 129 still lists block 2 as well. */
  function Before(): Volume
    requires Shaped(TwoFiles()) && Shaped(Install(TwoFiles(), 2, Ind, 1))
  {
    Overwrite(Install(Install(TwoFiles(), 2, Ind, 1), 2, IndLeaf(0), 2), 129, SetEntry(ZeroBlock(), 0, 2))
  }

  /** Inode 2 has an empty table, inode 1 has block 129 as its table, which lists block 2. */
  function After(): Volume
    requires Shaped(TwoFiles()) && Shaped(Install(TwoFiles(), 2, Ind, 1)) && Shaped(Install(Install(TwoFiles(), 2, Ind, 1), 1, Ind, 129))
  {
    Install(Install(Install(TwoFiles(), 2, Ind, 1), 1, Ind, 129), 1, IndLeaf(0), 2)
  }

  lemma BeforeInv()
    ensures Shaped(TwoFiles()) && Shaped(Install(TwoFiles(), 2, Ind, 1))
    ensures Inv(Before(), AllButThree()) && Held(Before(), 1, Ind) == 0 && Held(Before(), 2, Ind) == 1
    ensures Before().blocks[1] == SetEntry(ZeroBlock(), 0, 2) && Before().blocks[129] == SetEntry(ZeroBlock(), 0, 2)
    ensures !Before().bits[129]
  {
    TwoFilesInv();
    OneTable();
    var x := Install(TwoFiles(), 2, Ind, 1);
    InstallKeeps(x, AllButThree(), 2, IndLeaf(0), 2);
    var y := Install(x, 2, IndLeaf(0), 2);
    InstallShaped(x, 2, IndLeaf(0), 2);
    FreshNoTable(y, AllButThree(), 129);
    AnyBytes(y, AllButThree(), 129, SetEntry(ZeroBlock(), 0, 2));
  }

  lemma AfterInv()
    ensures Shaped(TwoFiles()) && Shaped(Install(TwoFiles(), 2, Ind, 1)) && Shaped(Install(Install(TwoFiles(), 2, Ind, 1), 1, Ind, 129))
    ensures Inv(After(), AllButThree())
  {
    TwoFilesInv();
    OneTable();
    var x := Install(TwoFiles(), 2, Ind, 1);
    InstallKeeps(x, AllButThree(), 1, Ind, 129);
    InstallShaped(x, 1, Ind, 129);
    var y := Install(x, 1, Ind, 129);
    InstallKeeps(y, AllButThree(), 1, IndLeaf(0), 2);
  }

  /**
   Installing a stale table and clearing a table in use in one call can cancel out: the entries
   that one file loses turn up in another, and the volume is sound.
   */
  lemma CoincidenceExample()
    ensures Shaped(TwoFiles()) && Shaped(Install(TwoFiles(), 2, Ind, 1))
    ensures Inv(Before(), AllButThree()) && Inv(InstallWritten(Before(), 1, Ind, 129), AllButThree())
    ensures !NewIsClean(Before(), Ind, 129) && !ClearIsHarmless(Before(), 129)
  {
    BeforeInv();
    AfterInv();
    assert Entry(Before().blocks[1], 0) == 2 && Entry(Before().blocks[129], 0) == 2;
    assert TableInUse(Before(), 1);
    SameVolume();
  }

  lemma SameVolume()
    requires Shaped(TwoFiles()) && Shaped(Install(TwoFiles(), 2, Ind, 1)) && Shaped(Install(Install(TwoFiles(), 2, Ind, 1), 1, Ind, 129))
    requires Shaped(Before())
    ensures InstallWritten(Before(), 1, Ind, 129) == After()
  {
    var w, a := InstallWritten(Before(), 1, Ind, 129), After();
    assert w.bits == a.bits;
    assert w.inodes == a.inodes;
    assert w.blocks == a.blocks;
  }

  // ------------------------------------------------------------ on the running system

  /** new_block (fs/bitmap.c:67-110) as written. */
  method NewBlockRaw(fs: Fs) returns (block: nat)
    requires fs.Shape()
    modifies fs.bits, fs`blocks
    ensures fs.Shape() && fs.inodes == old(fs.inodes) && block != 0
    ensures var k := FirstZero(old(fs.bits[..]), 0);
      if k == MAP_BITS then block == NO_BLOCK && fs.View() == old(fs.View())
      else block == k && fs.View() == old(fs.View()).(blocks := ClearedBy(old(fs.blocks), k), bits := old(fs.bits[..])[k := true])
  {
    var index := FindFirstZero(fs.bits);
    if index >= MAP_BITS {
      return NO_BLOCK;
    }
    fs.bits[index] := true;
    block := index;
    if block >= FS_START {
      fs.blocks := fs.blocks[block - FS_START := ZeroBlock()];
    }
  }

  /** Lines 344-353 and 360-368. */
  method FillEntryOf(fs: Fs, t: nat, i: nat) returns (block: nat)
    requires fs.Shape() && t < NR_BLOCKS && i < PER_TABLE
    modifies fs, fs.bits
    ensures fs.Shape() && fs.View() == FillTable(old(fs.View()), t, i) && fs.inodes == old(fs.inodes)
    ensures block == Entry(fs.blocks[t], i)
  {
    block := Entry(fs.blocks[t], i);
    if block == 0 {
      block := NewBlockRaw(fs);
      if block != 0 {
        fs.blocks := fs.blocks[t := SetEntry(fs.blocks[t], i, block)];
      }
    }
  }

  /** Lines 296-300 and 309-313. */
  method FillAreaOf(fs: Fs, n: nat, i: nat, ghost s: Slot)
    requires fs.Shape() && n in fs.inodes && SlotOk(s) && InInode(s) && i == AreaIndex(s)
    modifies fs, fs.bits
    ensures fs.Shape() && fs.View() == EnsureWritten(old(fs.View()), n, s)
    ensures n in fs.inodes && fs.inodes[n].area[i] != 0
  {
    if fs.inodes[n].area[i] == 0 {
      var block := NewBlockRaw(fs);
      var node := fs.inodes[n];
      fs.inodes := fs.inodes[n := node.(area := node.area[i := block], dirty := true)];
    }
  }

  /** Lines 334-338. */
  method ReplaceRoot(fs: Fs, n: nat)
    requires fs.Shape() && n in fs.inodes
    modifies fs, fs.bits
    ensures fs.Shape() && fs.View() == WrittenRoot(old(fs.View()), n)
  {
    if fs.inodes[n].area[8] != 0 {
      var block := NewBlockRaw(fs);
      var node := fs.inodes[n];
      fs.inodes := fs.inodes[n := node.(area := node.area[8 := block], dirty := true)];
    }
  }

  /** Lines 294-330: the direct and the single-indirect range. */
  method CreateLow(fs: Fs, n: nat, b: nat) returns (block: nat)
    requires fs.Shape() && n in fs.inodes && b < DIRECT + PER_TABLE
    modifies fs, fs.bits
    ensures fs.Shape() && fs.View() == EnsureAllWritten(old(fs.View()), n, Path(b))
  {
    ghost var v := fs.View();
    if b < DIRECT {
      EnsureOneWritten(v, n, Direct(b));
      FillAreaOf(fs, n, b, Direct(b));
      block := fs.inodes[n].area[b];
    } else {
      EnsureTwoWritten(v, n, Ind, IndLeaf(b - DIRECT));
      FillAreaOf(fs, n, 7, Ind);
      FillIsEnsure(fs.View(), n, IndLeaf(b - DIRECT));
      block := FillEntryOf(fs, fs.inodes[n].area[7], b - DIRECT);
    }
  }

  /** create_block line by line. */
  method CreateBlockAsWritten(fs: Fs, n: nat, b: nat) returns (block: nat)
    requires fs.Shape() && n in fs.inodes && b < MAX_INDEX - PER_TABLE
    modifies fs, fs.bits
    ensures fs.Shape() && fs.View() == CreateAsWritten(old(fs.View()), n, b)
  {
    if b < DIRECT + PER_TABLE {
      block := CreateLow(fs, n, b);
    } else {
      ReplaceRoot(fs, n);
      var i := b - DIRECT;
      var t := fs.inodes[n].area[8];
      var mid := FillEntryOf(fs, t, i / PER_TABLE);
      block := FillEntryOf(fs, mid, i % PER_TABLE);
    }
  }
}
