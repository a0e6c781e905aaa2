/**
 Allocation over the block map (fs/bitmap.c, fs/inode.c:288-381): the least zero bit of
 the map, filling every missing slot on the way to a logical index, and the exact
 condition under which that keeps the volume invariant.
 */
module BlockAlloc {
  import opened BlockMap
  import opened BitScan

  function FreeCount(bits: seq<bool>): nat {
    if bits == [] then 0 else (if bits[0] then 0 else 1) + FreeCount(bits[1..])
  }

  lemma {:induction false} FreeCountSet(bits: seq<bool>, k: nat)
    requires k < |bits| && !bits[k]
    ensures FreeCount(bits[k := true]) == FreeCount(bits) - 1
  {
    if k == 0 {
      assert bits[0 := true][1..] == bits[1..];
    } else {
      assert bits[k := true][1..] == bits[1..][k - 1 := true];
      FreeCountSet(bits[1..], k - 1);
    }
  }

  lemma {:induction false} FreeCountZero(bits: seq<bool>)
    ensures FreeCount(bits) == 0 <==> forall i :: 0 <= i < |bits| ==> bits[i]
  {
    if bits != [] {
      FreeCountZero(bits[1..]);
      assert forall i :: 1 <= i < |bits| ==> bits[i] == bits[1..][i - 1];
    }
  }

  lemma FullMeansNone(bits: seq<bool>)
    ensures FirstZero(bits, 0) == |bits| <==> FreeCount(bits) == 0
  {
    FreeCountZero(bits);
  }

  /** Stores a block number in a slot and changes nothing else. */
  function Store(v: Volume, n: nat, s: Slot, k: nat): Volume
    requires |v.blocks| == NR_BLOCKS && n in v.inodes && AreaOk(v.inodes[n].area) && SlotOk(s) && k < NR_BLOCKS
  {
    var node := v.inodes[n];
    if InInode(s) then
      v.(inodes := v.inodes[n := node.(area := node.area[AreaIndex(s) := k], dirty := true)])
    else
      var t := TableOf(v.blocks, node.area, s);
      v.(blocks := v.blocks[t := SetEntry(v.blocks[t], TableIndex(s), k)])
  }

  /** new_block and the store that follows it: a full map stores 65535. */
  function AllocInto(v: Volume, n: nat, s: Slot): Volume
    requires Shaped(v) && n in v.inodes && SlotOk(s)
  {
    var k := FirstZero(v.bits, 0);
    if k == MAP_BITS then Store(v, n, s, NO_BLOCK) else Install(v, n, s, k)
  }

  /** Fills the slot when it is empty. */
  function Ensure(v: Volume, n: nat, s: Slot): Volume
    requires Shaped(v) && n in v.inodes && SlotOk(s)
  {
    if Held(v, n, s) == 0 then AllocInto(v, n, s) else v
  }

  lemma EnsureShaped(v: Volume, n: nat, s: Slot)
    requires Shaped(v) && n in v.inodes && SlotOk(s)
    ensures Shaped(Ensure(v, n, s)) && Ensure(v, n, s).inodes.Keys == v.inodes.Keys
  {
  }

  /** The slots on the way to a logical index, tables first. */
  function Path(b: nat): (p: seq<Slot>)
    requires b < MAX_INDEX
    ensures 1 <= |p| <= 3 && forall i :: 0 <= i < |p| ==> SlotOk(p[i])
    ensures p[|p| - 1] == LeafSlot(b)
  {
    match LeafSlot(b)
    case Direct(i) => [Direct(i)]
    case IndLeaf(i) => [Ind, IndLeaf(i)]
    case DblLeaf(i, j) => [Dbl, DblMid(i), DblLeaf(i, j)]
  }

  ghost function EnsureAll(v: Volume, n: nat, p: seq<Slot>): (w: Volume)
    requires Shaped(v) && n in v.inodes && forall i :: 0 <= i < |p| ==> SlotOk(p[i])
    ensures Shaped(w) && w.inodes.Keys == v.inodes.Keys
    decreases |p|
  {
    if p == [] then v
    else EnsureShaped(v, n, p[0]); EnsureAll(Ensure(v, n, p[0]), n, p[1..])
  }

  /** Each slot of a path lives in the table held by the one before. */
  predicate Chained(p: seq<Slot>) {
    && (forall i :: 0 <= i < |p| ==> SlotOk(p[i]))
    && (forall i, j :: 0 <= i < j < |p| ==> p[i] != p[j])
    && (forall i :: 0 < i < |p| ==> !InInode(p[i]) && ParentSlot(p[i]) == p[i - 1])
  }

  /** How many blocks a path is missing. */
  function Missing(v: Volume, n: nat, p: seq<Slot>): nat
    requires Shaped(v) && n in v.inodes && forall i :: 0 <= i < |p| ==> SlotOk(p[i])
  {
    if p == [] then 0 else (if Held(v, n, p[0]) == 0 then 1 else 0) + Missing(v, n, p[1..])
  }

  /** Whoever is not on the path holds what it held. */
  ghost predicate OthersKept(v: Volume, w: Volume, n: nat, p: seq<Slot>)
    requires Shaped(v) && Shaped(w) && w.inodes.Keys == v.inodes.Keys
  {
    forall n', s' :: n' in v.inodes && SlotOk(s') && !(n' == n && s' in p) ==> Held(w, n', s') == Held(v, n', s')
  }

  lemma {:induction false} MissingAfter(v: Volume, w: Volume, n: nat, s: Slot, p: seq<Slot>)
    requires Shaped(v) && Shaped(w) && w.inodes.Keys == v.inodes.Keys && n in v.inodes
    requires forall i :: 0 <= i < |p| ==> SlotOk(p[i]) && p[i] != s
    requires forall s' :: SlotOk(s') && s' != s ==> Held(w, n, s') == Held(v, n, s')
    ensures Missing(w, n, p) == Missing(v, n, p)
  {
    if p != [] { MissingAfter(v, w, n, s, p[1..]); }
  }

  /** Filling one slot. */
  lemma EnsureKeeps(v: Volume, reserved: set<nat>, n: nat, s: Slot)
    requires Inv(v, reserved) && n in v.inodes && SlotOk(s)
    requires InInode(s) || Held(v, n, ParentSlot(s)) != 0
    requires Held(v, n, s) == 0 ==> FreeCount(v.bits) > 0
    ensures var w := Ensure(v, n, s);
      && Inv(w, reserved) && w.inodes.Keys == v.inodes.Keys && OthersKept(v, w, n, [s])
      && Held(w, n, s) != 0 && (Held(v, n, s) != 0 ==> w == v)
      && FreeCount(w.bits) == FreeCount(v.bits) - (if Held(v, n, s) == 0 then 1 else 0)
  {
    if Held(v, n, s) == 0 {
      var k := FirstZero(v.bits, 0);
      FullMeansNone(v.bits);
      BootBit(v, reserved);
      InstallKeeps(v, reserved, n, s, k);
      InstallShaped(v, n, s, k);
      FreeCountSet(v.bits, k);
      assert Held(Install(v, n, s, k), n, s) == k;
    }
  }

  /** The slots of p are filled in w, with what they held in v where they held something. */
  ghost predicate PathFilled(v: Volume, w: Volume, n: nat, p: seq<Slot>)
    requires Shaped(v) && Shaped(w) && w.inodes.Keys == v.inodes.Keys && n in v.inodes
    requires forall i :: 0 <= i < |p| ==> SlotOk(p[i])
  {
    forall i :: 0 <= i < |p| ==>
      Held(w, n, p[i]) != 0 && (Held(v, n, p[i]) != 0 ==> Held(w, n, p[i]) == Held(v, n, p[i]))
  }

  /** With enough free blocks, filling a path keeps the invariant and disturbs nothing else. */
  lemma {:induction false} EnsureAllKeeps(v: Volume, reserved: set<nat>, n: nat, p: seq<Slot>)
    requires Inv(v, reserved) && n in v.inodes && Chained(p)
    requires p != [] ==> InInode(p[0]) || Held(v, n, ParentSlot(p[0])) != 0
    requires Missing(v, n, p) <= FreeCount(v.bits)
    ensures var w := EnsureAll(v, n, p);
      && Inv(w, reserved) && OthersKept(v, w, n, p) && PathFilled(v, w, n, p)
      && FreeCount(w.bits) == FreeCount(v.bits) - Missing(v, n, p)
    decreases |p|
  {
    if p != [] {
      var s, rest := p[0], p[1..];
      var v1 := Ensure(v, n, s);
      EnsureShaped(v, n, s);
      EnsureKeeps(v, reserved, n, s);
      RestChained(p);
      MissingAfter(v, v1, n, s, rest);
      EnsureAllKeeps(v1, reserved, n, rest);
      ComposeFilled(v, v1, EnsureAll(v1, n, rest), n, p);
    }
  }

  lemma RestChained(p: seq<Slot>)
    requires p != [] && Chained(p)
    ensures Chained(p[1..]) && p[0] !in p[1..]
    ensures |p| > 1 ==> !InInode(p[1]) && ParentSlot(p[1]) == p[0]
  {
  }

  lemma ComposeFilled(v: Volume, v1: Volume, w: Volume, n: nat, p: seq<Slot>)
    requires Shaped(v) && Shaped(v1) && Shaped(w) && n in v.inodes && p != []
    requires v.inodes.Keys == v1.inodes.Keys == w.inodes.Keys && Chained(p)
    requires OthersKept(v, v1, n, [p[0]]) && Held(v1, n, p[0]) != 0
    requires Held(v, n, p[0]) != 0 ==> Held(v1, n, p[0]) == Held(v, n, p[0])
    requires OthersKept(v1, w, n, p[1..]) && PathFilled(v1, w, n, p[1..])
    ensures OthersKept(v, w, n, p) && PathFilled(v, w, n, p)
  {
    RestChained(p);
    assert p == [p[0]] + p[1..];
    forall i | 0 <= i < |p|
      ensures Held(w, n, p[i]) != 0 && (Held(v, n, p[i]) != 0 ==> Held(w, n, p[i]) == Held(v, n, p[i]))
    {
      if i > 0 {
        assert p[i] == p[1..][i - 1];
        assert Held(v1, n, p[i]) == Held(v, n, p[i]);
      } else {
        assert Held(w, n, p[0]) == Held(v1, n, p[0]);
      }
    }
  }

  lemma PathChained(b: nat)
    requires b < MAX_INDEX
    ensures Chained(Path(b)) && InInode(Path(b)[0])
    ensures forall i :: 0 <= i < |Path(b)| - 1 ==> !IsLeaf(Path(b)[i])
  {
  }

  // ------------------------------------------------------------ create_block as a whole

  ghost function Create(v: Volume, n: nat, b: nat): (w: Volume)
    requires Shaped(v) && n in v.inodes && b < MAX_INDEX
    ensures Shaped(w) && w.inodes.Keys == v.inodes.Keys
  {
    EnsureAll(v, n, Path(b))
  }

  /** bmap reads table 0 when there is no table; the volume keeps block 0 zero. */
  function Bmap(v: Volume, n: nat, b: nat): nat
    requires Shaped(v) && n in v.inodes && b < MAX_INDEX
  {
    var area := v.inodes[n].area;
    if b < DIRECT then area[b]
    else if b - DIRECT < PER_TABLE then Entry(v.blocks[area[7]], b - DIRECT)
    else
      var i := b - DIRECT - PER_TABLE;
      Entry(v.blocks[Entry(v.blocks[area[8]], i / PER_TABLE)], i % PER_TABLE)
  }

  lemma BmapIsLeaf(v: Volume, n: nat, b: nat)
    requires Shaped(v) && n in v.inodes && b < MAX_INDEX && v.blocks[0] == ZeroBlock()
    ensures Bmap(v, n, b) == Held(v, n, LeafSlot(b))
  {
  }

  /** Index b of inode n is mapped, and every other logical index of every inode maps as before. */
  ghost predicate OnlyMapped(v: Volume, w: Volume, n: nat, b: nat)
    requires Shaped(v) && Shaped(w) && w.inodes.Keys == v.inodes.Keys && n in v.inodes && b < MAX_INDEX
  {
    && Bmap(w, n, b) != 0
    && (Bmap(v, n, b) != 0 ==> Bmap(w, n, b) == Bmap(v, n, b))
    && forall n', b' :: n' in v.inodes && 0 <= b' < MAX_INDEX && !(n' == n && b' == b) ==>
         Bmap(w, n', b') == Bmap(v, n', b')
  }

  /** From slots to logical indices. */
  lemma PathToIndex(v: Volume, w: Volume, reserved: set<nat>, n: nat, b: nat)
    requires Inv(v, reserved) && Inv(w, reserved) && w.inodes.Keys == v.inodes.Keys
    requires n in v.inodes && b < MAX_INDEX
    requires OthersKept(v, w, n, Path(b)) && PathFilled(v, w, n, Path(b))
    ensures OnlyMapped(v, w, n, b)
  {
    var p := Path(b);
    BmapIsLeaf(v, n, b);
    BmapIsLeaf(w, n, b);
    assert p[|p| - 1] == LeafSlot(b);
    forall n', b' | n' in v.inodes && 0 <= b' < MAX_INDEX && !(n' == n && b' == b)
      ensures Bmap(w, n', b') == Bmap(v, n', b')
    {
      BmapIsLeaf(v, n', b');
      BmapIsLeaf(w, n', b');
      LeafIndex(b);
      LeafIndex(b');
      PathChained(b);
    }
  }

  /**
   create_block: the index is mapped afterwards, to what bmap then returns; every other logical
   index of every inode maps as before; and all blocks stay pairwise distinct.
   */
  lemma CreateCorrect(v: Volume, reserved: set<nat>, n: nat, b: nat)
    requires Inv(v, reserved) && n in v.inodes && b < MAX_INDEX
    requires Missing(v, n, Path(b)) <= FreeCount(v.bits)
    ensures Inv(Create(v, n, b), reserved) && OnlyMapped(v, Create(v, n, b), n, b)
    ensures OthersKept(v, Create(v, n, b), n, Path(b)) && PathFilled(v, Create(v, n, b), n, Path(b))
    ensures FreeCount(Create(v, n, b).bits) == FreeCount(v.bits) - Missing(v, n, Path(b))
  {
    PathChained(b);
    EnsureAllKeeps(v, reserved, n, Path(b));
    PathToIndex(v, Create(v, n, b), reserved, n, b);
  }

  /** The number the caller gets for a slot: what it held, or the new one. */
  function Got(v: Volume, n: nat, s: Slot): nat
    requires Shaped(v) && n in v.inodes && SlotOk(s)
  {
    if Held(v, n, s) != 0 then Held(v, n, s)
    else if FirstZero(v.bits, 0) == MAP_BITS then NO_BLOCK else FirstZero(v.bits, 0)
  }

  ghost function GotLast(v: Volume, n: nat, p: seq<Slot>): nat
    requires Shaped(v) && n in v.inodes && p != [] && forall i :: 0 <= i < |p| ==> SlotOk(p[i])
    decreases |p|
  {
    if |p| == 1 then Got(v, n, p[0]) else EnsureShaped(v, n, p[0]); GotLast(Ensure(v, n, p[0]), n, p[1..])
  }

  /** The number returned at the end of a path is the one the last slot then holds. */
  lemma {:induction false} GotLastHeld(v: Volume, reserved: set<nat>, n: nat, p: seq<Slot>)
    requires Inv(v, reserved) && n in v.inodes && Chained(p) && p != []
    requires InInode(p[0]) || Held(v, n, ParentSlot(p[0])) != 0
    requires Missing(v, n, p) <= FreeCount(v.bits)
    ensures GotLast(v, n, p) == Held(EnsureAll(v, n, p), n, p[|p| - 1])
    decreases |p|
  {
    var s := p[0];
    var v1 := Ensure(v, n, s);
    EnsureShaped(v, n, s);
    EnsureKeeps(v, reserved, n, s);
    RestChained(p);
    if |p| == 1 {
      assert EnsureAll(v, n, p) == EnsureAll(v1, n, []) == v1;
      if Held(v, n, s) == 0 {
        FullMeansNone(v.bits);
        BootBit(v, reserved);
        InstallKeeps(v, reserved, n, s, FirstZero(v.bits, 0));
        InstallShaped(v, n, s, FirstZero(v.bits, 0));
      }
    } else {
      MissingAfter(v, v1, n, s, p[1..]);
      GotLastHeld(v1, reserved, n, p[1..]);
    }
  }

  // ------------------------------------------------------------ a full volume

  /** On a full map, filling slots inside tables leaves every inode alone. */
  lemma {:induction false} FullKeepsInodes(v: Volume, n: nat, p: seq<Slot>)
    requires Shaped(v) && n in v.inodes && FreeCount(v.bits) == 0
    requires forall i :: 0 <= i < |p| ==> SlotOk(p[i]) && !InInode(p[i])
    ensures EnsureAll(v, n, p).inodes == v.inodes
    decreases |p|
  {
    if p != [] {
      FullMeansNone(v.bits);
      EnsureShaped(v, n, p[0]);
      FullKeepsInodes(Ensure(v, n, p[0]), n, p[1..]);
    }
  }

  /** On a full map, the slot that is tried holds 65535 right after. */
  lemma FullStore(v: Volume, reserved: set<nat>, n: nat, s: Slot)
    requires Inv(v, reserved) && n in v.inodes && SlotOk(s)
    requires InInode(s) || Held(v, n, ParentSlot(s)) != 0
    requires FreeCount(v.bits) == 0 && Held(v, n, s) == 0
    ensures Ensure(v, n, s) == Store(v, n, s, NO_BLOCK)
    ensures Shaped(Ensure(v, n, s)) && Ensure(v, n, s).inodes.Keys == v.inodes.Keys
    ensures Held(Ensure(v, n, s), n, s) == NO_BLOCK
  {
    FullMeansNone(v.bits);
    EnsureShaped(v, n, s);
    if s.DblLeaf? && Held(v, n, Dbl) == Held(v, n, ParentSlot(s)) {
      SameHolder(v, n, Dbl, n, ParentSlot(s));
    }
  }

  /** The inner table that could not be had keeps its 65535 while the leaf is tried. */
  lemma FullMiddle(v: Volume, reserved: set<nat>, n: nat, i: nat, j: nat)
    requires Inv(v, reserved) && n in v.inodes && i < PER_TABLE && j < PER_TABLE
    requires Held(v, n, Dbl) != 0 && Held(v, n, DblMid(i)) == 0 && FreeCount(v.bits) == 0
    ensures Held(EnsureAll(v, n, [DblMid(i), DblLeaf(i, j)]), n, DblMid(i)) == NO_BLOCK
  {
    var s, s' := DblMid(i), DblLeaf(i, j);
    FullStore(v, reserved, n, s);
    FullMeansNone(v.bits);
    HeldInRange(v, reserved, n, Dbl);
    EnsureShaped(Ensure(v, n, s), n, s');
    EnsureTwo(v, n, s, s');
  }

  /** The slot whose allocation fails ends up holding 65535. */
  lemma FullSlot(v: Volume, reserved: set<nat>, n: nat, p: seq<Slot>)
    requires Inv(v, reserved) && n in v.inodes && p != [] && Chained(p) && PathTail(p)
    requires InInode(p[0]) || Held(v, n, ParentSlot(p[0])) != 0
    requires FreeCount(v.bits) == 0 && Held(v, n, p[0]) == 0
    ensures Held(EnsureAll(v, n, p), n, p[0]) == NO_BLOCK
  {
    FullStore(v, reserved, n, p[0]);
    RestChained(p);
    if |p| == 1 {
      assert EnsureAll(v, n, p) == EnsureAll(Ensure(v, n, p[0]), n, []);
    } else if InInode(p[0]) {
      FullKeepsInodes(Ensure(v, n, p[0]), n, p[1..]);
    } else {
      assert p == [DblMid(p[0].i), DblLeaf(p[0].i, p[1].j)];
      FullMiddle(v, reserved, n, p[0].i, p[1].j);
    }
  }

  /** A path or the rest of one. */
  predicate PathTail(p: seq<Slot>) {
    |p| > 1 ==> p[0].Ind? || p[0].Dbl? || (p[0].DblMid? && |p| == 2 && p[1].DblLeaf?)
  }

  lemma NoBlockBreaks(w: Volume, reserved: set<nat>, n: nat, s: Slot)
    requires Shaped(w) && n in w.inodes && SlotOk(s) && Held(w, n, s) == NO_BLOCK
    ensures !Inv(w, reserved)
  {
    if Inv(w, reserved) {
      HeldInRange(w, reserved, n, s);
    }
  }

  /** Without enough free blocks, filling a path leaves 65535 in one of its slots. */
  lemma {:induction false} EnsureAllFails(v: Volume, reserved: set<nat>, n: nat, p: seq<Slot>) returns (s: Slot)
    requires Inv(v, reserved) && n in v.inodes && Chained(p) && PathTail(p)
    requires |p| == 3 ==> PathTail(p[1..])
    requires |p| <= 3
    requires p != [] ==> InInode(p[0]) || Held(v, n, ParentSlot(p[0])) != 0
    requires Missing(v, n, p) > FreeCount(v.bits)
    ensures s in p && SlotOk(s) && Held(EnsureAll(v, n, p), n, s) == NO_BLOCK
    decreases |p|
  {
    EnsureShaped(v, n, p[0]);
    if Held(v, n, p[0]) == 0 && FreeCount(v.bits) == 0 {
      FullSlot(v, reserved, n, p);
      s := p[0];
    } else {
      EnsureKeeps(v, reserved, n, p[0]);
      RestChained(p);
      MissingAfter(v, Ensure(v, n, p[0]), n, p[0], p[1..]);
      s := EnsureAllFails(Ensure(v, n, p[0]), reserved, n, p[1..]);
    }
  }

  /** create_block keeps the volume invariant if and only if the map has the blocks it needs. */
  lemma CreateNeedsSpace(v: Volume, reserved: set<nat>, n: nat, b: nat)
    requires Inv(v, reserved) && n in v.inodes && b < MAX_INDEX
    ensures Inv(Create(v, n, b), reserved) <==> Missing(v, n, Path(b)) <= FreeCount(v.bits)
  {
    PathChained(b);
    if Missing(v, n, Path(b)) <= FreeCount(v.bits) {
      CreateCorrect(v, reserved, n, b);
    } else {
      var s := EnsureAllFails(v, reserved, n, Path(b));
      NoBlockBreaks(Create(v, n, b), reserved, n, s);
    }
  }

  // ------------------------------------------------------------ data blocks

  /** Every data block keeps its contents. */
  ghost predicate DataKept(v: Volume, w: Volume)
    requires Shaped(v) && |w.blocks| == NR_BLOCKS
  {
    forall n, s :: n in v.inodes && SlotOk(s) && IsLeaf(s) && Held(v, n, s) != 0 ==>
      w.blocks[Held(v, n, s)] == v.blocks[Held(v, n, s)]
  }

  lemma EnsureData(v: Volume, reserved: set<nat>, n: nat, s: Slot)
    requires Inv(v, reserved) && n in v.inodes && SlotOk(s)
    requires InInode(s) || Held(v, n, ParentSlot(s)) != 0
    requires Held(v, n, s) == 0 ==> FreeCount(v.bits) > 0
    ensures DataKept(v, Ensure(v, n, s))
  {
    if Held(v, n, s) == 0 {
      var k, w := FirstZero(v.bits, 0), Ensure(v, n, s);
      FullMeansNone(v.bits);
      BootBit(v, reserved);
      forall n', s' | n' in v.inodes && SlotOk(s') && IsLeaf(s') && Held(v, n', s') != 0
        ensures w.blocks[Held(v, n', s')] == v.blocks[Held(v, n', s')]
      {
        FreshNotHeld(v, reserved, k, n', s');
        if !InInode(s) {
          HeldThroughParent(v.blocks, v.inodes[n].area, s);
          assert Apart(v, n', s', n, ParentSlot(s));
        }
      }
    }
  }

  lemma {:induction false} EnsureAllData(v: Volume, reserved: set<nat>, n: nat, p: seq<Slot>)
    requires Inv(v, reserved) && n in v.inodes && Chained(p)
    requires p != [] ==> InInode(p[0]) || Held(v, n, ParentSlot(p[0])) != 0
    requires Missing(v, n, p) <= FreeCount(v.bits)
    requires forall i :: 0 <= i < |p| - 1 ==> !IsLeaf(p[i])
    ensures DataKept(v, EnsureAll(v, n, p))
    decreases |p|
  {
    if p != [] {
      var s, rest := p[0], p[1..];
      var v1 := Ensure(v, n, s);
      EnsureShaped(v, n, s);
      EnsureKeeps(v, reserved, n, s);
      EnsureData(v, reserved, n, s);
      RestChained(p);
      MissingAfter(v, v1, n, s, rest);
      EnsureAllData(v1, reserved, n, rest);
      var w := EnsureAll(v1, n, rest);
      forall n', s' | n' in v.inodes && SlotOk(s') && IsLeaf(s') && Held(v, n', s') != 0
        ensures w.blocks[Held(v, n', s')] == v.blocks[Held(v, n', s')]
      {
        assert Held(v1, n', s') == Held(v, n', s');
      }
    }
  }

  /** create_block changes no data. */
  lemma CreateData(v: Volume, reserved: set<nat>, n: nat, b: nat)
    requires Inv(v, reserved) && n in v.inodes && b < MAX_INDEX
    requires Missing(v, n, Path(b)) <= FreeCount(v.bits)
    ensures DataKept(v, Create(v, n, b))
  {
    PathChained(b);
    EnsureAllData(v, reserved, n, Path(b));
  }

  /** Filling a path touches only the map of that inode, never a size or another inode. */
  lemma {:induction false} EnsureAllInodes(v: Volume, n: nat, p: seq<Slot>)
    requires Shaped(v) && n in v.inodes && forall i :: 0 <= i < |p| ==> SlotOk(p[i])
    ensures var w := EnsureAll(v, n, p);
      && w.inodes[n].size == v.inodes[n].size
      && forall n' :: n' in v.inodes && n' != n ==> w.inodes[n'] == v.inodes[n']
    decreases |p|
  {
    if p != [] {
      EnsureShaped(v, n, p[0]);
      EnsureAllInodes(Ensure(v, n, p[0]), n, p[1..]);
    }
  }

  /** An inode is marked dirty exactly when its own block numbers change; those it has stay. */
  ghost predicate Marked(node: Inode, node': Inode) {
    && |node.area| == |node'.area| && (forall i :: 0 <= i < |node.area| && node.area[i] != 0 ==> node'.area[i] == node.area[i])
    && (if node'.area == node.area then node' == node else node'.dirty && node'.size == node.size)
  }

  lemma EnsureMarks(v: Volume, n: nat, s: Slot)
    requires Shaped(v) && n in v.inodes && SlotOk(s) && v.bits[0]
    ensures n in Ensure(v, n, s).inodes && Ensure(v, n, s).bits[0] && Marked(v.inodes[n], Ensure(v, n, s).inodes[n])
  {
    var w := Ensure(v, n, s);
    if InInode(s) && Held(v, n, s) == 0 {
      assert w.inodes[n].area[AreaIndex(s)] != v.inodes[n].area[AreaIndex(s)];
    }
  }

  lemma {:induction false} EnsureAllMarks(v: Volume, n: nat, p: seq<Slot>)
    requires Shaped(v) && n in v.inodes && v.bits[0] && forall i :: 0 <= i < |p| ==> SlotOk(p[i])
    ensures Marked(v.inodes[n], EnsureAll(v, n, p).inodes[n])
    decreases |p|
  {
    if p != [] {
      EnsureShaped(v, n, p[0]);
      EnsureMarks(v, n, p[0]);
      EnsureAllMarks(Ensure(v, n, p[0]), n, p[1..]);
      MarkedTrans(v.inodes[n], Ensure(v, n, p[0]).inodes[n], EnsureAll(v, n, p).inodes[n]);
    }
  }

  lemma MarkedTrans(a: Inode, b: Inode, c: Inode)
    requires Marked(a, b) && Marked(b, c)
    ensures Marked(a, c)
  {
    if b.area != a.area {
      var i :| 0 <= i < |a.area| && a.area[i] != b.area[i];
      assert a.area[i] == 0 && b.area[i] != 0 && c.area[i] == b.area[i];
    }
  }

  /** Paths of one, two and three slots, filled slot by slot. */
  lemma EnsureOne(v: Volume, n: nat, s: Slot)
    requires Shaped(v) && n in v.inodes && SlotOk(s)
    ensures EnsureAll(v, n, [s]) == Ensure(v, n, s)
  {
    EnsureShaped(v, n, s);
    assert [s][1..] == [];
  }

  lemma EnsureTwo(v: Volume, n: nat, s: Slot, s': Slot)
    requires Shaped(v) && n in v.inodes && SlotOk(s) && SlotOk(s')
    ensures Shaped(Ensure(v, n, s)) && n in Ensure(v, n, s).inodes
    ensures EnsureAll(v, n, [s, s']) == Ensure(Ensure(v, n, s), n, s')
    ensures GotLast(v, n, [s, s']) == Got(Ensure(v, n, s), n, s')
  {
    EnsureShaped(v, n, s);
    assert [s, s'][1..] == [s'];
    EnsureOne(Ensure(v, n, s), n, s');
  }

  lemma EnsureThree(v: Volume, n: nat, s: Slot, s': Slot, s'': Slot)
    requires Shaped(v) && n in v.inodes && SlotOk(s) && SlotOk(s') && SlotOk(s'')
    ensures Shaped(Ensure(v, n, s)) && n in Ensure(v, n, s).inodes
    ensures var v1 := Ensure(v, n, s);
      && Shaped(Ensure(v1, n, s')) && n in Ensure(v1, n, s').inodes
      && EnsureAll(v, n, [s, s', s'']) == Ensure(Ensure(v1, n, s'), n, s'')
      && GotLast(v, n, [s, s', s'']) == Got(Ensure(v1, n, s'), n, s'')
  {
    EnsureShaped(v, n, s);
    assert [s, s', s''][1..] == [s', s''];
    EnsureTwo(Ensure(v, n, s), n, s', s'');
  }
}
