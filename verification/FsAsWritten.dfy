/**
 Where the written lines of fs/bitmap.c and fs/inode.c depart from the block map they keep,
 each with the exact extent of the departure.
 */
module FsAsWritten {
  import opened BlockMap
  import opened BlockAlloc

  /** The number new_block gives to bit index of map block i (fs/bitmap.c:94). */
  function WrittenNumber(i: nat, index: nat): nat {
    i * BLOCK_SIZE + index
  }

  /** The map block and bit free_block clears for a number (fs/bitmap.c:53-54). */
  function WrittenBit(block: nat): (nat, nat) {
    (block / BLOCK_SIZE, block % BLOCK_SIZE)
  }

  /** Freeing clears the bit that allocating set exactly for the first 1024 bits of a map block. */
  lemma FreeClearsWhatNewSet(i: nat, index: nat)
    requires index < MAP_BITS
    ensures WrittenBit(WrittenNumber(i, index)) == (i, index) <==> index < BLOCK_SIZE
  {
    if index < BLOCK_SIZE {
      assert (i * BLOCK_SIZE + index) / BLOCK_SIZE == i;
    }
  }

  /** Two bits get the same number exactly when they lie whole units of 1024 apart. */
  lemma NumbersCollide(i: nat, index: nat, i': nat, index': nat)
    ensures WrittenNumber(i, index) == WrittenNumber(i', index') <==> index - index' == (i' - i) * BLOCK_SIZE
  {
  }

  /** Without the table the lookup reads block 0: a hole reads as 0 exactly when that entry is 0. */
  lemma HoleReadsBlockZero(v: Volume, n: nat, i: nat)
    requires Shaped(v) && n in v.inodes && i < PER_TABLE && Held(v, n, Ind) == 0
    ensures Entry(v.blocks[v.inodes[n].area[7]], i) == Held(v, n, IndLeaf(i)) <==> Entry(v.blocks[0], i) == 0
  {
  }

  /** The same for a missing inner table (lines 357-360). */
  lemma MidHoleReadsBlockZero(v: Volume, n: nat, i: nat, j: nat)
    requires Shaped(v) && n in v.inodes && i < PER_TABLE && j < PER_TABLE
    requires Held(v, n, Dbl) != 0 && Held(v, n, DblMid(i)) == 0
    ensures Bmap(v, n, IndexOf(DblLeaf(i, j))) == Held(v, n, DblLeaf(i, j)) <==> Entry(v.blocks[0], j) == 0
  {
    IndexLeaf(DblLeaf(i, j));
  }

  /** And for a missing root (lines 340-360): block 0 is taken for the outer table. */
  lemma RootHoleReadsBlockZero(v: Volume, n: nat, i: nat, j: nat)
    requires Shaped(v) && n in v.inodes && i < PER_TABLE && j < PER_TABLE && Held(v, n, Dbl) == 0
    ensures Bmap(v, n, IndexOf(DblLeaf(i, j))) == Held(v, n, DblLeaf(i, j))
      <==> Entry(v.blocks[Entry(v.blocks[0], i)], j) == 0
  {
    IndexLeaf(DblLeaf(i, j));
  }
}
