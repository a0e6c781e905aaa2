/**
 The file system core as it runs (fs/bitmap.c, fs/inode.c): one block map, a store of
 1 KiB blocks and the inodes in memory, all changed in place.
 */
module FileSystem {
  import opened BlockMap
  import opened BitScan
  import opened BlockAlloc
  import opened BlockFree
  import opened VolumeRuns
  import opened FileContents

  class Fs {
    var blocks: seq<Blk>
    const bits: array<bool>
    var inodes: map<nat, Inode>
    ghost const reserved: set<nat>

    ghost function View(): Volume
      reads this, bits
    {
      Volume(blocks, bits[..], inodes)
    }

    ghost predicate Valid()
      reads this, bits
    {
      bits.Length == MAP_BITS && bits[0] && Inv(View(), reserved)
    }

    ghost predicate Shape()
      reads this, bits
    {
      bits.Length == MAP_BITS && Shaped(View()) && bits[0]
    }

    /** An empty volume: the map marks the reserved blocks, every block is zero. */
    constructor (reserved: set<nat>)
      requires 0 in reserved && forall i :: 1024 <= i < MAP_BITS ==> i in reserved
      ensures Valid() && this.reserved == reserved && inodes == map[] && fresh(bits)
    {
      this.reserved := reserved;
      blocks := seq(NR_BLOCKS, i => ZeroBlock());
      bits := new bool[MAP_BITS](i => i in reserved);
      inodes := map[];
      new;
      EmptyVolumeInv(reserved);
      assert View() == EmptyVolume(reserved);
    }

    /**
     A new inode in memory (fs/bitmap.c:113-162), with the size the slab object still has: it maps
     nothing, and is a file without holes if and only if that size is 0.
     */
    method AddInode(n: nat, leftover: nat)
      requires Valid() && n !in inodes
      modifies `inodes
      ensures Valid() && inodes == old(inodes)[n := NewInode(leftover)]
      ensures inodes[n].dirty && inodes[n].size == leftover && inodes[n].area == [0, 0, 0, 0, 0, 0, 0, 0, 0]
      ensures IsFile(View(), n) <==> leftover == 0
      ensures (leftover == 0 ==> Contents(View(), n) == []) && OthersIntact(old(View()), View(), n)
    {
      NewInodeKeeps(View(), reserved, n, leftover);
      inodes := inodes[n := NewInode(leftover)];
    }

    /** new_block on a volume with one map (fs/bitmap.c:67-110); -1 reads as 65535 where it is stored. */
    method NewBlock() returns (block: nat)
      requires Shape() && |blocks| == NR_BLOCKS
      modifies bits, `blocks
      ensures var k := FirstZero(old(bits[..]), 0);
        if k == MAP_BITS then block == NO_BLOCK && bits[..] == old(bits[..]) && blocks == old(blocks)
        else block == k && bits[..] == old(bits[..])[k := true] && blocks == old(blocks)[k := ZeroBlock()]
      ensures block != 0
    {
      var index := FindFirstZero(bits);
      var i := 0;
      if index >= MAP_BITS {
        return NO_BLOCK;
      }
      bits[index] := true;
      block := i * BLOCK_SIZE + index;
      blocks := blocks[block := ZeroBlock()];
    }

    /** free_block (fs/bitmap.c:44-64): the bit is addressed in units of 1024. */
    method FreeBlock(block: nat)
      requires bits.Length == MAP_BITS && block < BLOCK_SIZE
      modifies bits
      ensures bits[..] == old(bits[..])[block := false]
    {
      bits[block % BLOCK_SIZE] := false;
    }

    /** A new block for an empty place in the inode (fs/inode.c:296-300, 309-313, 334-338). */
    method FillArea(n: nat, i: nat, ghost s: Slot)
      requires Shape() && n in inodes && SlotOk(s) && InInode(s) && i == AreaIndex(s)
      modifies this, bits
      ensures Shape() && View() == Ensure(old(View()), n, s) && inodes.Keys == old(inodes.Keys)
      ensures inodes[n].area[i] != 0 && inodes[n].area[i] == Got(old(View()), n, s)
    {
      EnsureShaped(View(), n, s);
      if inodes[n].area[i] == 0 {
        var block := NewBlock();
        var node := inodes[n];
        inodes := inodes[n := node.(area := node.area[i := block], dirty := true)];
      }
    }

    /** A new block for an empty entry of table t (fs/inode.c:318-326, 344-353, 360-368). */
    method FillEntry(n: nat, t: nat, i: nat, ghost s: Slot) returns (block: nat)
      requires Shape() && n in inodes && SlotOk(s) && !InInode(s) && i == TableIndex(s)
      requires t == TableOf(blocks, inodes[n].area, s) && t != 0
      modifies this, bits
      ensures Shape() && View() == Ensure(old(View()), n, s) && inodes == old(inodes)
      ensures block == Got(old(View()), n, s) && block != 0 && block == Entry(blocks[t], i)
    {
      EnsureShaped(View(), n, s);
      HeldThroughParent(blocks, inodes[n].area, s);
      block := Entry(blocks[t], i);
      if block == 0 {
        block := NewBlock();
        if block != 0 {
          blocks := blocks[t := SetEntry(blocks[t], i, block)];
        }
      }
    }

    /** The single-indirect branch (fs/inode.c:307-330). */
    method CreateIndirect(n: nat, i: nat) returns (block: nat)
      requires Shape() && n in inodes && i < PER_TABLE
      modifies this, bits
      ensures Shape() && View() == EnsureAll(old(View()), n, [Ind, IndLeaf(i)])
      ensures n in inodes && block == GotLast(old(View()), n, [Ind, IndLeaf(i)]) && block != 0
    {
      ghost var v := View();
      EnsureTwo(v, n, Ind, IndLeaf(i));
      FillArea(n, 7, Ind);
      block := FillEntry(n, inodes[n].area[7], i, IndLeaf(i));
    }

    /** The double-indirect branch (fs/inode.c:332-370), offset and test of lines 332-334 as meant. */
    method CreateDouble(n: nat, i: nat) returns (block: nat)
      requires Shape() && n in inodes && i < PER_TABLE * PER_TABLE
      modifies this, bits
      ensures Shape() && n in inodes
      ensures View() == EnsureAll(old(View()), n, DoublePath(i))
      ensures block == GotLast(old(View()), n, DoublePath(i)) && block != 0
    {
      ghost var v := View();
      ghost var mid, leaf := DblMid(i / PER_TABLE), DblLeaf(i / PER_TABLE, i % PER_TABLE);
      EnsureThree(v, n, Dbl, mid, leaf);
      FillArea(n, 8, Dbl);
      var t := FillEntry(n, inodes[n].area[8], i / PER_TABLE, mid);
      block := FillEntry(n, t, i % PER_TABLE, leaf);
    }

    /** create_block (fs/inode.c:288-381 with create set). */
    method CreatePath(n: nat, b: nat) returns (block: nat)
      requires Shape() && n in inodes && b < MAX_INDEX
      modifies this, bits
      ensures Shape() && View() == Create(old(View()), n, b)
      ensures block == GotLast(old(View()), n, Path(b)) && block != 0
    {
      if b < DIRECT {
        EnsureOne(View(), n, Direct(b));
        FillArea(n, b, Direct(b));
        block := inodes[n].area[b];
      } else if b - DIRECT < PER_TABLE {
        block := CreateIndirect(n, b - DIRECT);
      } else {
        block := CreateDouble(n, b - DIRECT - PER_TABLE);
      }
    }

    /** bmap (fs/inode.c:288-371 with create clear, offset of line 332 as meant). */
    method BmapRead(n: nat, b: nat) returns (block: nat)
      requires Shape() && n in inodes && b < MAX_INDEX
      ensures block == Bmap(View(), n, b)
    {
      var area := inodes[n].area;
      if b < DIRECT {
        return area[b];
      }
      var i := b - DIRECT;
      if i < PER_TABLE {
        return Entry(blocks[area[7]], i);
      }
      i := i - PER_TABLE;
      var t := Entry(blocks[area[8]], i / PER_TABLE);
      return Entry(blocks[t], i % PER_TABLE);
    }

    /** create_block: what it maps, what it leaves alone, and when it keeps the volume sound. */
    method CreateBlock(n: nat, b: nat) returns (block: nat)
      requires Valid() && n in inodes && b < MAX_INDEX
      modifies this, bits
      ensures Shape() && inodes.Keys == old(inodes.Keys)
      ensures Marked(old(inodes[n]), inodes[n]) && forall m :: m in inodes && m != n ==> inodes[m] == old(inodes)[m]
      ensures Inv(View(), reserved) <==> old(Missing(View(), n, Path(b)) <= FreeCount(bits[..]))
      ensures Inv(View(), reserved) ==>
        && block == Bmap(View(), n, b) && OnlyMapped(old(View()), View(), n, b)
        && DataKept(old(View()), View())
    {
      ghost var v := View();
      block := CreatePath(n, b);
      EnsureAllMarks(v, n, Path(b));
      EnsureAllInodes(v, n, Path(b));
      CreateNeedsSpace(v, reserved, n, b);
      if Inv(View(), reserved) {
        PathChained(b);
        GotLastHeld(v, reserved, n, Path(b));
        CreateCorrect(v, reserved, n, b);
        CreateData(v, reserved, n, b);
        BmapIsLeaf(View(), n, b);
      }
    }

    /** What the release loops rely on: v is the volume at the start, log the blocks released so far. */
    ghost predicate Releasing(v: Volume, n: nat, r: nat, log: seq<nat>)
      reads this, bits
    {
      && bits.Length == MAP_BITS && Inv(v, reserved) && n in v.inodes
      && blocks == v.blocks && inodes == v.inodes
      && Cleared(v.bits, bits[..], log) && Logged(v, n, r, log)
    }

    /** if(*p) free_block(*p). */
    method Visit(k: nat, ghost v: Volume, n: nat, ghost s: Slot, ghost log: seq<nat>) returns (ghost log': seq<nat>)
      requires SlotOk(s) && Releasing(v, n, Rank(s), log) && k == Held(v, n, s)
      modifies bits
      ensures Releasing(v, n, Rank(s) + 1, log')
    {
      LogStep(v, n, s, log);
      log' := log;
      if k != 0 {
        HeldInRange(v, reserved, n, s);
        ghost var before := bits[..];
        FreeBlock(k);
        ClearedStep(v.bits, before, bits[..], log, k);
        log' := log + [k];
      }
    }

    /** The blocks listed in table t, then the table (fs/inode.c:69-83 and 98-113). */
    method FreeLeaves(t: nat, ghost v: Volume, n: nat, ghost i: nat, ghost log: seq<nat>)
      returns (ghost log': seq<nat>)
      requires i < PER_TABLE && Releasing(v, n, 520 + 513 * i, log)
      requires t == Held(v, n, DblMid(i)) && t != 0
      modifies bits
      ensures Releasing(v, n, 520 + 513 * (i + 1), log')
    {
      log' := log;
      for j := 0 to PER_TABLE
        invariant Releasing(v, n, 520 + 513 * i + j, log')
      {
        log' := Visit(Entry(blocks[t], j), v, n, DblLeaf(i, j), log');
      }
      log' := Visit(t, v, n, DblMid(i), log');
    }

    method FreeIndirect(ghost v: Volume, n: nat, ghost log: seq<nat>) returns (ghost log': seq<nat>)
      requires Releasing(v, n, 7, log)
      modifies bits
      ensures Releasing(v, n, 520, log')
    {
      log' := log;
      var t := inodes[n].area[7];
      if t != 0 {
        for i := 0 to PER_TABLE
          invariant Releasing(v, n, 7 + i, log')
        {
          log' := Visit(Entry(blocks[t], i), v, n, IndLeaf(i), log');
        }
        log' := Visit(t, v, n, Ind, log');
      } else {
        LogSkip(v, n, 7, 520, log);
      }
    }

    method FreeDouble(ghost v: Volume, n: nat, ghost log: seq<nat>) returns (ghost log': seq<nat>)
      requires Releasing(v, n, 520, log)
      modifies bits
      ensures Releasing(v, n, RANKS, log')
    {
      log' := log;
      var t := inodes[n].area[8];
      if t != 0 {
        for i := 0 to PER_TABLE
          invariant Releasing(v, n, 520 + 513 * i, log')
        {
          var m := Entry(blocks[t], i);
          if m != 0 {
            log' := FreeLeaves(m, v, n, i, log');
          } else {
            LogSkip(v, n, 520 + 513 * i, 520 + 513 * (i + 1), log');
          }
        }
        log' := Visit(t, v, n, Dbl, log');
      } else {
        LogSkip(v, n, 520, RANKS, log);
      }
    }

    /**
     free_inode_block (fs/inode.c:52-125): every data and table block of the inode is released
     exactly once and nothing else is; without the inode the map is exact again.
     */
    method FreeInodeBlock(n: nat) returns (ghost log: seq<nat>)
      requires Valid() && n in inodes
      modifies this, bits
      ensures blocks == old(blocks) && inodes == old(inodes)[n := old(inodes[n]).(dirty := true)]
      ensures ReleasedExactly(old(View()), n, log) && Cleared(old(bits[..]), bits[..], log)
      ensures Inv(View().(inodes := inodes - {n}), reserved)
    {
      ghost var v := View();
      log := [];
      LogEmpty(v, n);
      for i := 0 to DIRECT
        invariant Releasing(v, n, i, log)
      {
        log := Visit(inodes[n].area[i], v, n, Direct(i), log);
      }
      log := FreeIndirect(v, n, log);
      log := FreeDouble(v, n, log);
      LogComplete(v, n, log);
      ReleaseKeeps(v, reserved, n, bits[..], log);
      inodes := inodes[n := inodes[n].(dirty := true)];
      assert inodes - {n} == v.inodes - {n};
    }
  }

  lemma ClearedStep(before: seq<bool>, bits: seq<bool>, bits': seq<bool>, log: seq<nat>, k: nat)
    requires Cleared(before, bits, log) && k < |bits| && bits' == bits[k := false]
    ensures Cleared(before, bits', log + [k])
  {
  }

  function DoublePath(i: nat): (p: seq<Slot>)
    requires i < PER_TABLE * PER_TABLE
    ensures |p| == 3 && forall j :: 0 <= j < 3 ==> SlotOk(p[j])
  {
    [Dbl, DblMid(i / PER_TABLE), DblLeaf(i / PER_TABLE, i % PER_TABLE)]
  }
}
