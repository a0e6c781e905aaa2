/**
 What a file is over the block map: its bytes in order, the shape of a file that was only
 ever appended to, and how creating and writing one block changes both.
 */
module FileContents {
  import opened Basics
  import opened BlockMap
  import opened BlockAlloc

  const MAX_BYTES: nat := MAX_INDEX * BLOCK_SIZE

  function BlocksIn(size: nat): nat {
    (size + BLOCK_SIZE - 1) / BLOCK_SIZE
  }

  /** A file of e blocks without holes or spare tables uses exactly these slots. */
  predicate Wanted(s: Slot, e: nat) {
    match s
    case Direct(i) => i < e
    case Ind => DIRECT < e
    case IndLeaf(i) => DIRECT + i < e
    case Dbl => 519 < e
    case DblMid(i) => 519 + 512 * i < e
    case DblLeaf(i, j) => 519 + 512 * i + j < e
  }

  ghost predicate Compact(v: Volume, n: nat, e: nat)
    requires Shaped(v) && n in v.inodes
  {
    forall s :: SlotOk(s) ==> (Held(v, n, s) != 0 <==> Wanted(s, e))
  }

  /** An inode in memory that describes a file built by appending. */
  ghost predicate IsFile(v: Volume, n: nat) {
    Shaped(v) && n in v.inodes && v.inodes[n].size <= MAX_BYTES && Compact(v, n, BlocksIn(v.inodes[n].size))
  }

  function ByteAt(v: Volume, n: nat, p: nat): Byte
    requires Shaped(v) && n in v.inodes && p < MAX_BYTES
  {
    v.blocks[Held(v, n, LeafSlot(p / BLOCK_SIZE))][p % BLOCK_SIZE]
  }

  function Contents(v: Volume, n: nat): (c: seq<Byte>)
    requires Shaped(v) && n in v.inodes && v.inodes[n].size <= MAX_BYTES
    ensures |c| == v.inodes[n].size
  {
    seq(v.inodes[n].size, p requires 0 <= p < v.inodes[n].size => ByteAt(v, n, p))
  }

  /** One more block means exactly the slots on its path. */
  lemma WantedNext(s: Slot, e: nat)
    requires SlotOk(s) && e < MAX_INDEX
    ensures Wanted(s, e + 1) <==> Wanted(s, e) || s in Path(e)
  {
  }

  lemma LeafWanted(b: nat, e: nat)
    requires b < MAX_INDEX
    ensures Wanted(LeafSlot(b), e) <==> b < e
  {
  }

  /** Blocks taken from the map when block e is appended: itself and any table it is first in. */
  function NewAt(e: nat): nat {
    1 + (if e == 7 then 1 else 0) + (if e == 519 then 1 else 0)
      + (if e >= 519 && (e - 519) % 512 == 0 then 1 else 0)
  }

  function SpaceFor(e: nat, e': nat): nat
    decreases e' - e
  {
    if e >= e' then 0 else NewAt(e) + SpaceFor(e + 1, e')
  }

  lemma MissingIs(v: Volume, n: nat, e: nat)
    requires Shaped(v) && n in v.inodes && e < MAX_INDEX && Compact(v, n, e)
    ensures Missing(v, n, Path(e)) == NewAt(e)
  {
    var p := Path(e);
    match LeafSlot(e) {
      case Direct(i) =>
        MissingOne(v, n, Direct(i));
      case IndLeaf(i) =>
        MissingTwo(v, n, Ind, IndLeaf(i));
      case DblLeaf(i, j) =>
        MissingThree(v, n, Dbl, DblMid(i), DblLeaf(i, j));
    }
  }

  function Lacks(v: Volume, n: nat, s: Slot): nat
    requires Shaped(v) && n in v.inodes && SlotOk(s)
  {
    if Held(v, n, s) == 0 then 1 else 0
  }

  lemma MissingOne(v: Volume, n: nat, s: Slot)
    requires Shaped(v) && n in v.inodes && SlotOk(s)
    ensures Missing(v, n, [s]) == Lacks(v, n, s)
  {
    assert [s][1..] == [];
  }

  lemma MissingTwo(v: Volume, n: nat, s: Slot, s': Slot)
    requires Shaped(v) && n in v.inodes && SlotOk(s) && SlotOk(s')
    ensures Missing(v, n, [s, s']) == Lacks(v, n, s) + Lacks(v, n, s')
  {
    MissingOne(v, n, s');
    assert [s, s'][1..] == [s'];
  }

  lemma MissingThree(v: Volume, n: nat, s: Slot, s': Slot, s'': Slot)
    requires Shaped(v) && n in v.inodes && SlotOk(s) && SlotOk(s') && SlotOk(s'')
    ensures Missing(v, n, [s, s', s'']) == Lacks(v, n, s) + Lacks(v, n, s') + Lacks(v, n, s'')
  {
    MissingTwo(v, n, s', s'');
    assert [s, s', s''][1..] == [s', s''];
  }

  /** The first size bytes of n, and every other file, read the same. */
  ghost predicate BytesKept(v: Volume, w: Volume, n: nat, size: nat)
    requires Shaped(v) && Shaped(w) && w.inodes.Keys == v.inodes.Keys && n in v.inodes && size <= MAX_BYTES
  {
    && (forall p :: 0 <= p < size ==> ByteAt(w, n, p) == ByteAt(v, n, p))
    && OthersIntact(v, w, n)
  }

  /** Appending block e to a file of e blocks: it is mapped and no byte of any file changes. */
  lemma AppendBlock(v: Volume, reserved: set<nat>, n: nat, e: nat)
    requires Inv(v, reserved) && n in v.inodes && e < MAX_INDEX && Compact(v, n, e)
    requires NewAt(e) <= FreeCount(v.bits)
    ensures Inv(Create(v, n, e), reserved) && Compact(Create(v, n, e), n, e + 1)
    ensures BytesKept(v, Create(v, n, e), n, e * BLOCK_SIZE)
    ensures FreeCount(Create(v, n, e).bits) == FreeCount(v.bits) - NewAt(e)
  {
    MissingIs(v, n, e);
    CreateCorrect(v, reserved, n, e);
    CreateData(v, reserved, n, e);
    EnsureAllInodes(v, n, Path(e));
    AppendCompact(v, Create(v, n, e), n, e);
    AppendBytes(v, Create(v, n, e), n, e);
  }

  lemma AppendCompact(v: Volume, w: Volume, n: nat, e: nat)
    requires Shaped(v) && Shaped(w) && w.inodes.Keys == v.inodes.Keys && n in v.inodes && e < MAX_INDEX
    requires Compact(v, n, e) && OthersKept(v, w, n, Path(e)) && PathFilled(v, w, n, Path(e))
    ensures Compact(w, n, e + 1)
  {
    forall s | SlotOk(s) ensures Held(w, n, s) != 0 <==> Wanted(s, e + 1) {
      WantedNext(s, e);
    }
  }

  lemma AppendBytes(v: Volume, w: Volume, n: nat, e: nat)
    requires Shaped(v) && Shaped(w) && w.inodes.Keys == v.inodes.Keys && n in v.inodes && e < MAX_INDEX
    requires Compact(v, n, e) && OthersKept(v, w, n, Path(e)) && DataKept(v, w)
    requires forall n' :: n' in v.inodes && n' != n ==> w.inodes[n'] == v.inodes[n']
    ensures BytesKept(v, w, n, e * BLOCK_SIZE)
  {
    forall p | 0 <= p < e * BLOCK_SIZE ensures ByteAt(w, n, p) == ByteAt(v, n, p) {
      LeafWanted(p / BLOCK_SIZE, e);
      SameByte(v, w, n, n, e, p);
    }
    forall n' | n' in v.inodes && n' != n && IsFile(v, n')
      ensures IsFile(w, n') && Contents(w, n') == Contents(v, n')
    {
      OtherFile(v, w, n, e, n');
    }
  }

  lemma OtherFile(v: Volume, w: Volume, n: nat, e: nat, n': nat)
    requires Shaped(v) && Shaped(w) && w.inodes.Keys == v.inodes.Keys && e < MAX_INDEX
    requires OthersKept(v, w, n, Path(e)) && DataKept(v, w)
    requires n' in v.inodes && n' != n && w.inodes[n'] == v.inodes[n'] && IsFile(v, n')
    ensures IsFile(w, n') && Contents(w, n') == Contents(v, n')
  {
    forall p | 0 <= p < v.inodes[n'].size ensures ByteAt(w, n', p) == ByteAt(v, n', p) {
      LeafWanted(p / BLOCK_SIZE, BlocksIn(v.inodes[n'].size));
      SameByte(v, w, n, n', e, p);
    }
    assert forall s :: SlotOk(s) ==> Held(w, n', s) == Held(v, n', s);
  }

  lemma SameByte(v: Volume, w: Volume, n: nat, n': nat, e: nat, p: nat)
    requires Shaped(v) && Shaped(w) && w.inodes.Keys == v.inodes.Keys && n' in v.inodes && e < MAX_INDEX
    requires OthersKept(v, w, n, Path(e)) && DataKept(v, w) && p < MAX_BYTES
    requires n' == n ==> p < e * BLOCK_SIZE
    requires Held(v, n', LeafSlot(p / BLOCK_SIZE)) != 0
    ensures ByteAt(w, n', p) == ByteAt(v, n', p)
  {
    LeafIndex(p / BLOCK_SIZE);
    LeafIndex(e);
    PathChained(e);
  }

  // ------------------------------------------------------------ writing into a data block

  /** Overwrites one block of the store. */
  function Overwrite(v: Volume, k: nat, blk: Blk): Volume
    requires |v.blocks| == NR_BLOCKS && k < NR_BLOCKS
  {
    v.(blocks := v.blocks[k := blk])
  }

  /** A data block is no table: overwriting it changes no slot of any inode. */
  lemma {:induction false} OverwriteHeld(v: Volume, n: nat, leaf: Slot, blk: Blk, n': nat, s: Slot)
    requires Shaped(v) && DistinctBlocks(v) && n in v.inodes && SlotOk(leaf) && IsLeaf(leaf)
    requires Held(v, n, leaf) != 0 && n' in v.inodes && SlotOk(s)
    ensures Held(Overwrite(v, Held(v, n, leaf), blk), n', s) == Held(v, n', s)
    decreases match s case DblLeaf(_, _) => 2 case DblMid(_) => 1 case IndLeaf(_) => 1 case _ => 0
  {
    var w := Overwrite(v, Held(v, n, leaf), blk);
    if !InInode(s) {
      OverwriteHeld(v, n, leaf, blk, n', ParentSlot(s));
      HeldThroughParent(v.blocks, v.inodes[n'].area, s);
      HeldThroughParent(w.blocks, w.inodes[n'].area, s);
      assert Apart(v, n', ParentSlot(s), n, leaf);
    }
  }

  lemma OverwriteKeeps(v: Volume, reserved: set<nat>, n: nat, leaf: Slot, blk: Blk)
    requires Inv(v, reserved) && n in v.inodes && SlotOk(leaf) && IsLeaf(leaf) && Held(v, n, leaf) != 0
    ensures Inv(Overwrite(v, Held(v, n, leaf), blk), reserved)
    ensures SameSlots(v, Overwrite(v, Held(v, n, leaf), blk))
  {
    var w := Overwrite(v, Held(v, n, leaf), blk);
    forall n', s | n' in v.inodes && SlotOk(s) ensures Held(w, n', s) == Held(v, n', s) {
      OverwriteHeld(v, n, leaf, blk, n', s);
    }
    SameSlotsKeep(v, w, reserved);
  }

  ghost predicate SameSlots(v: Volume, w: Volume) {
    && Shaped(v) && Shaped(w) && w.inodes.Keys == v.inodes.Keys
    && forall n, s :: n in v.inodes && SlotOk(s) ==> Held(w, n, s) == Held(v, n, s)
  }

  /** The volume invariant depends only on the slots, the map and block 0. */
  lemma SameSlotsKeep(v: Volume, w: Volume, reserved: set<nat>)
    requires Inv(v, reserved) && SameSlots(v, w) && w.bits == v.bits && w.blocks[0] == v.blocks[0]
    ensures Inv(w, reserved)
  {
    forall n, s ensures HoldsOk(w, reserved, n, s) {
      assert HoldsOk(v, reserved, n, s);
    }
    forall n, s, n', s' ensures Apart(w, n, s, n', s') {
      assert Apart(v, n, s, n', s');
    }
    forall i: nat ensures BitOk(w, reserved, i) {
      assert BitOk(v, reserved, i);
      if Owned(v, i) {
        var n, s :| n in v.inodes && SlotOk(s) && Held(v, n, s) == i;
        assert Held(w, n, s) == i;
      }
      if Owned(w, i) {
        var n, s :| n in w.inodes && SlotOk(s) && Held(w, n, s) == i;
        assert Held(v, n, s) == i;
      }
    }
  }

  /** The block with a chunk copied in at an offset. */
  function Patch(blk: Blk, offset: nat, chunk: seq<Byte>): (r: Blk)
    requires offset + |chunk| <= BLOCK_SIZE
    ensures forall i :: 0 <= i < BLOCK_SIZE ==>
      r[i] == if offset <= i < offset + |chunk| then chunk[i - offset] else blk[i]
  {
    blk[..offset] + chunk + blk[offset + |chunk|..]
  }

  /** The volume after a chunk was written at the end of file n, inside its last block. */
  function AppendChunk(v: Volume, n: nat, chunk: seq<Byte>): Volume
    requires Shaped(v) && n in v.inodes && v.inodes[n].size + |chunk| <= MAX_BYTES
    requires 0 < |chunk| && v.inodes[n].size % BLOCK_SIZE + |chunk| <= BLOCK_SIZE
  {
    var size := v.inodes[n].size;
    var k := Held(v, n, LeafSlot(size / BLOCK_SIZE));
    var w := Overwrite(v, k, Patch(v.blocks[k], size % BLOCK_SIZE, chunk));
    w.(inodes := v.inodes[n := v.inodes[n].(size := size + |chunk|, dirty := true)])
  }

  /** Bytes of a block that is not the overwritten one. */
  lemma OverwriteByte(v: Volume, n: nat, b: nat, blk: Blk, n': nat, p: nat)
    requires Shaped(v) && DistinctBlocks(v) && n in v.inodes && n' in v.inodes && b < MAX_INDEX && p < MAX_BYTES
    requires Held(v, n, LeafSlot(b)) != 0 && SameSlots(v, Overwrite(v, Held(v, n, LeafSlot(b)), blk))
    requires Held(v, n', LeafSlot(p / BLOCK_SIZE)) != 0
    ensures ByteAt(Overwrite(v, Held(v, n, LeafSlot(b)), blk), n', p)
      == if n' == n && p / BLOCK_SIZE == b then blk[p % BLOCK_SIZE] else ByteAt(v, n', p)
  {
    var c := p / BLOCK_SIZE;
    if Held(v, n, LeafSlot(b)) == Held(v, n', LeafSlot(c)) {
      SameHolder(v, n, LeafSlot(b), n', LeafSlot(c));
      LeafIndex(b);
      LeafIndex(c);
    }
  }

  /** Appending a chunk appends its bytes to the file and leaves every other file alone. */
  lemma AppendChunkCorrect(v: Volume, reserved: set<nat>, n: nat, chunk: seq<Byte>)
    requires Inv(v, reserved) && n in v.inodes && v.inodes[n].size + |chunk| <= MAX_BYTES
    requires 0 < |chunk| && v.inodes[n].size % BLOCK_SIZE + |chunk| <= BLOCK_SIZE
    requires Compact(v, n, v.inodes[n].size / BLOCK_SIZE + 1)
    ensures Inv(AppendChunk(v, n, chunk), reserved) && IsFile(AppendChunk(v, n, chunk), n)
    ensures Contents(AppendChunk(v, n, chunk), n) == Contents(v, n) + chunk
    ensures OthersIntact(v, AppendChunk(v, n, chunk), n)
  {
    ChunkKeeps(v, reserved, n, chunk);
    ChunkIsFile(v, n, chunk);
    ChunkBytes(v, n, chunk);
    ChunkOthers(v, n, chunk);
  }

  /** Every file but n reads the same. */
  ghost predicate OthersIntact(v: Volume, w: Volume, n: nat)
    requires Shaped(v)
  {
    forall n' :: n' in v.inodes && n' != n && IsFile(v, n') ==> IsFile(w, n') && Contents(w, n') == Contents(v, n')
  }

  lemma ChunkIsFile(v: Volume, n: nat, chunk: seq<Byte>)
    requires Shaped(v) && n in v.inodes && v.inodes[n].size + |chunk| <= MAX_BYTES
    requires 0 < |chunk| && v.inodes[n].size % BLOCK_SIZE + |chunk| <= BLOCK_SIZE
    requires Compact(v, n, v.inodes[n].size / BLOCK_SIZE + 1)
    requires SameSlots(v, AppendChunk(v, n, chunk))
    ensures IsFile(AppendChunk(v, n, chunk), n)
  {
    assert BlocksIn(v.inodes[n].size + |chunk|) == v.inodes[n].size / BLOCK_SIZE + 1;
  }

  lemma ChunkOthers(v: Volume, n: nat, chunk: seq<Byte>)
    requires Shaped(v) && DistinctBlocks(v) && n in v.inodes && v.inodes[n].size + |chunk| <= MAX_BYTES
    requires 0 < |chunk| && v.inodes[n].size % BLOCK_SIZE + |chunk| <= BLOCK_SIZE
    requires Compact(v, n, v.inodes[n].size / BLOCK_SIZE + 1)
    requires SameSlots(v, AppendChunk(v, n, chunk))
    ensures OthersIntact(v, AppendChunk(v, n, chunk), n)
  {
    forall n' | n' in v.inodes && n' != n && IsFile(v, n')
      ensures IsFile(AppendChunk(v, n, chunk), n') && Contents(AppendChunk(v, n, chunk), n') == Contents(v, n')
    {
      ChunkOther(v, n, chunk, n');
    }
  }

  lemma ChunkKeeps(v: Volume, reserved: set<nat>, n: nat, chunk: seq<Byte>)
    requires Inv(v, reserved) && n in v.inodes && v.inodes[n].size + |chunk| <= MAX_BYTES
    requires 0 < |chunk| && v.inodes[n].size % BLOCK_SIZE + |chunk| <= BLOCK_SIZE
    requires Compact(v, n, v.inodes[n].size / BLOCK_SIZE + 1)
    ensures Inv(AppendChunk(v, n, chunk), reserved) && SameSlots(v, AppendChunk(v, n, chunk))
  {
    var size := v.inodes[n].size;
    var b := size / BLOCK_SIZE;
    LeafWanted(b, b + 1);
    LeafIndex(b);
    var k := Held(v, n, LeafSlot(b));
    var blk := Patch(v.blocks[k], size % BLOCK_SIZE, chunk);
    var u, w := Overwrite(v, k, blk), AppendChunk(v, n, chunk);
    OverwriteKeeps(v, reserved, n, LeafSlot(b), blk);
    assert forall n', s :: n' in v.inodes && SlotOk(s) ==> Held(w, n', s) == Held(u, n', s);
    SameSlotsKeep(u, w, reserved);
  }

  lemma ChunkOther(v: Volume, n: nat, chunk: seq<Byte>, n': nat)
    requires Shaped(v) && DistinctBlocks(v) && n in v.inodes && v.inodes[n].size + |chunk| <= MAX_BYTES
    requires 0 < |chunk| && v.inodes[n].size % BLOCK_SIZE + |chunk| <= BLOCK_SIZE
    requires Compact(v, n, v.inodes[n].size / BLOCK_SIZE + 1)
    requires SameSlots(v, AppendChunk(v, n, chunk)) && n' in v.inodes && n' != n && IsFile(v, n')
    ensures IsFile(AppendChunk(v, n, chunk), n') && Contents(AppendChunk(v, n, chunk), n') == Contents(v, n')
  {
    var size, w := v.inodes[n].size, AppendChunk(v, n, chunk);
    var b := size / BLOCK_SIZE;
    var k := Held(v, n, LeafSlot(b));
    LeafWanted(b, b + 1);
    forall p | 0 <= p < v.inodes[n'].size ensures ByteAt(w, n', p) == ByteAt(v, n', p) {
      LeafWanted(p / BLOCK_SIZE, BlocksIn(v.inodes[n'].size));
      OverwriteByte(v, n, b, Patch(v.blocks[k], size % BLOCK_SIZE, chunk), n', p);
    }
  }

  lemma ChunkBytes(v: Volume, n: nat, chunk: seq<Byte>)
    requires Shaped(v) && DistinctBlocks(v) && n in v.inodes && v.inodes[n].size + |chunk| <= MAX_BYTES
    requires 0 < |chunk| && v.inodes[n].size % BLOCK_SIZE + |chunk| <= BLOCK_SIZE
    requires Compact(v, n, v.inodes[n].size / BLOCK_SIZE + 1)
    requires SameSlots(v, AppendChunk(v, n, chunk))
    ensures Contents(AppendChunk(v, n, chunk), n) == Contents(v, n) + chunk
  {
    var size := v.inodes[n].size;
    var b := size / BLOCK_SIZE;
    var k := Held(v, n, LeafSlot(b));
    var blk := Patch(v.blocks[k], size % BLOCK_SIZE, chunk);
    var w := AppendChunk(v, n, chunk);
    LeafWanted(b, b + 1);
    forall p | 0 <= p < size + |chunk|
      ensures ByteAt(w, n, p) == (Contents(v, n) + chunk)[p]
    {
      LeafWanted(p / BLOCK_SIZE, b + 1);
      OverwriteByte(v, n, b, blk, n, p);
    }
  }
}
