/**
 Reading and appending (fs/file_dev.c): the chunk loops over 1 KiB blocks.
 */
module FileDev {
  import opened Basics
  import opened BlockMap
  import opened BlockAlloc
  import opened FileContents
  import opened FileSystem
  import opened VolumeRuns

  /** struct file, as far as reading moves it. */
  class OpenFile {
    var pos: nat
    constructor (pos: nat)
      ensures this.pos == pos
    {
      this.pos := pos;
    }
  }

  /** A round never leaves the block it starts in (lines 32-33 and 83-84). */
  function ChunkSize(pos: nat, count: nat): (chars: nat)
    requires count > 0
    ensures 0 < chars <= count && pos % BLOCK_SIZE + chars <= BLOCK_SIZE
    ensures chars == count || (pos + chars) % BLOCK_SIZE == 0
  {
    var chars := BLOCK_SIZE - pos % BLOCK_SIZE;
    if chars > count then count else chars
  }

  /** The inner loop of file_write (fs/file_dev.c:105-111). */
  method CopyIn(fs: Fs, k: nat, offset: nat, buf: seq<Byte>, from: nat, chars: nat)
    requires |fs.blocks| == NR_BLOCKS && k < NR_BLOCKS
    requires offset + chars <= BLOCK_SIZE && from + chars <= |buf|
    modifies fs`blocks
    ensures fs.blocks == old(fs.blocks)[k := Patch(old(fs.blocks[k]), offset, buf[from..from + chars])]
  {
    var data: seq<Byte> := fs.blocks[k];
    var i := 0;
    while i < chars
      invariant i <= chars && |data| == BLOCK_SIZE && fs.blocks == old(fs.blocks)
      invariant forall j :: 0 <= j < BLOCK_SIZE ==>
        data[j] == if offset <= j < offset + i then buf[from + j - offset] else fs.blocks[k][j]
    {
      data := data[offset + i := buf[from + i]];
      i := i + 1;
    }
    var want: seq<Byte> := Patch(fs.blocks[k], offset, buf[from..from + chars]);
    assert data == want;
    fs.blocks := fs.blocks[k := data];
  }

  /** Finds the block at the end of the file, creating it when it is not there (lines 86-88). */
  method BlockForAppend(fs: Fs, n: nat) returns (block: nat)
    requires fs.Valid() && IsFile(fs.View(), n) && fs.inodes[n].size < MAX_BYTES
    requires fs.inodes[n].size % BLOCK_SIZE == 0 ==> NewAt(fs.inodes[n].size / BLOCK_SIZE) <= FreeCount(fs.bits[..])
    modifies fs, fs.bits
    ensures fs.Valid() && n in fs.inodes && fs.inodes[n].size == old(fs.inodes[n].size)
    ensures Compact(fs.View(), n, fs.inodes[n].size / BLOCK_SIZE + 1)
    ensures block == Held(fs.View(), n, LeafSlot(fs.inodes[n].size / BLOCK_SIZE)) && block != 0
    ensures Contents(fs.View(), n) == old(Contents(fs.View(), n)) && OthersIntact(old(fs.View()), fs.View(), n)
    ensures FreeCount(fs.bits[..]) == old(FreeCount(fs.bits[..]))
      - (if fs.inodes[n].size % BLOCK_SIZE == 0 then NewAt(fs.inodes[n].size / BLOCK_SIZE) else 0)
  {
    ghost var v := fs.View();
    var b := fs.inodes[n].size / BLOCK_SIZE;
    block := fs.BmapRead(n, b);
    BmapIsLeaf(v, n, b);
    LeafWanted(b, BlocksIn(fs.inodes[n].size));
    if block == 0 {
      block := CreateAt(fs, n, b);
    }
  }

  /** create_block for the next block of a file. */
  method CreateAt(fs: Fs, n: nat, b: nat) returns (block: nat)
    requires fs.Valid() && n in fs.inodes && b < MAX_INDEX && fs.inodes[n].size == b * BLOCK_SIZE
    requires Compact(fs.View(), n, b) && NewAt(b) <= FreeCount(fs.bits[..])
    modifies fs, fs.bits
    ensures fs.Valid() && n in fs.inodes && fs.inodes[n].size == old(fs.inodes[n].size)
    ensures Compact(fs.View(), n, b + 1) && block == Held(fs.View(), n, LeafSlot(b)) && block != 0
    ensures Contents(fs.View(), n) == old(Contents(fs.View(), n)) && OthersIntact(old(fs.View()), fs.View(), n)
    ensures FreeCount(fs.bits[..]) == old(FreeCount(fs.bits[..])) - NewAt(b)
  {
    ghost var v := fs.View();
    AppendBlock(v, fs.reserved, n, b);
    EnsureAllInodes(v, n, Path(b));
    MissingIs(v, n, b);
    PathChained(b);
    GotLastHeld(v, fs.reserved, n, Path(b));
    block := fs.CreatePath(n, b);
    ContentsKept(v, fs.View(), n);
  }

  lemma ContentsKept(v: Volume, w: Volume, n: nat)
    requires Shaped(v) && Shaped(w) && w.inodes.Keys == v.inodes.Keys && n in v.inodes
    requires v.inodes[n].size <= MAX_BYTES && w.inodes[n].size == v.inodes[n].size
    requires BytesKept(v, w, n, v.inodes[n].size)
    ensures Contents(w, n) == Contents(v, n)
  {
  }

  /** The size update and the copy (lines 99-111). */
  method PutChunk(fs: Fs, n: nat, block: nat, buf: seq<Byte>, from: nat, chars: nat)
    requires fs.bits.Length == MAP_BITS && Shaped(fs.View()) && n in fs.inodes
    requires 0 < chars && from + chars <= |buf|
    requires fs.inodes[n].size + chars <= MAX_BYTES && fs.inodes[n].size % BLOCK_SIZE + chars <= BLOCK_SIZE
    requires block == Held(fs.View(), n, LeafSlot(fs.inodes[n].size / BLOCK_SIZE))
    modifies fs`inodes, fs`blocks
    ensures fs.View() == AppendChunk(old(fs.View()), n, buf[from..from + chars])
  {
    var pos := fs.inodes[n].size;
    var node := fs.inodes[n];
    fs.inodes := fs.inodes[n := node.(size := pos + chars, dirty := true)];
    CopyIn(fs, block, pos % BLOCK_SIZE, buf, from, chars);
  }

  /** One round of the loop of file_write (lines 83-111): at most the rest of one block. */
  method WriteChunk(fs: Fs, n: nat, buf: seq<Byte>, from: nat, chars: nat)
    requires fs.Valid() && IsFile(fs.View(), n) && 0 < chars && from + chars <= |buf|
    requires fs.inodes[n].size + chars <= MAX_BYTES && fs.inodes[n].size % BLOCK_SIZE + chars <= BLOCK_SIZE
    requires fs.inodes[n].size % BLOCK_SIZE == 0 ==> NewAt(fs.inodes[n].size / BLOCK_SIZE) <= FreeCount(fs.bits[..])
    modifies fs, fs.bits
    ensures fs.Valid() && IsFile(fs.View(), n) && fs.inodes[n].size == old(fs.inodes[n].size) + chars && fs.inodes[n].dirty
    ensures Contents(fs.View(), n) == old(Contents(fs.View(), n)) + buf[from..from + chars]
    ensures OthersIntact(old(fs.View()), fs.View(), n)
    ensures FreeCount(fs.bits[..]) == old(FreeCount(fs.bits[..]))
      - (if old(fs.inodes[n].size) % BLOCK_SIZE == 0 then NewAt(old(fs.inodes[n].size) / BLOCK_SIZE) else 0)
  {
    ghost var u := fs.View();
    var block := BlockForAppend(fs, n);
    ghost var v := fs.View();
    AppendChunkCorrect(v, fs.reserved, n, buf[from..from + chars]);
    PutChunk(fs, n, block, buf, from, chars);
    IntactTrans(u, v, fs.View(), n);
  }

  lemma IntactTrans(u: Volume, v: Volume, w: Volume, n: nat)
    requires Shaped(u) && Shaped(v) && OthersIntact(u, v, n) && OthersIntact(v, w, n)
    ensures OthersIntact(u, w, n)
  {
  }

  /** Blocks a round takes from the map when the file has the given size. */
  function NeedAt(size: nat): nat {
    if size % BLOCK_SIZE == 0 then NewAt(size / BLOCK_SIZE) else 0
  }

  /** Blocks still to be taken from the map after one more chunk. */
  lemma SpaceLeft(size: nat, chars: nat, end: nat)
    requires 0 < chars && size % BLOCK_SIZE + chars <= BLOCK_SIZE && size + chars <= end
    ensures SpaceFor(BlocksIn(size), BlocksIn(end))
      == NeedAt(size) + SpaceFor(BlocksIn(size + chars), BlocksIn(end))
  {
    assert BlocksIn(size + chars) == size / BLOCK_SIZE + 1;
    if size % BLOCK_SIZE == 0 {
      assert BlocksIn(size) == size / BLOCK_SIZE < BlocksIn(end);
    } else {
      assert BlocksIn(size) == size / BLOCK_SIZE + 1;
    }
  }

  /** The volume once the round has its block (fs/file_dev.c:86-88). */
  ghost function WithBlock(v: Volume, n: nat): (u: Volume)
    requires Shaped(v) && n in v.inodes && v.inodes[n].size < MAX_BYTES
    ensures Shaped(u) && n in u.inodes && u.inodes[n].size == v.inodes[n].size
  {
    var b := v.inodes[n].size / BLOCK_SIZE;
    if Bmap(v, n, b) == 0 then EnsureAllInodes(v, n, Path(b)); Create(v, n, b) else v
  }

  /** The volume invariant holds after every create_block and every copy of a write. */
  ghost predicate SoundThroughout(v: Volume, reserved: set<nat>, n: nat, buf: seq<Byte>)
    requires Shaped(v) && n in v.inodes && v.inodes[n].size + |buf| <= MAX_BYTES
    decreases |buf|
  {
    buf == [] ||
    var chars := ChunkSize(v.inodes[n].size, |buf|);
    var u := WithBlock(v, n);
    var w := AppendChunk(u, n, buf[..chars]);
    Inv(u, reserved) && Inv(w, reserved) && SoundThroughout(w, reserved, n, buf[chars..])
  }

  /** One round: sound if and only if the block it may need can be had, and then a file again. */
  lemma RoundExact(v: Volume, reserved: set<nat>, n: nat, chunk: seq<Byte>)
    requires Inv(v, reserved) && IsFile(v, n) && v.inodes[n].size + |chunk| <= MAX_BYTES
    requires 0 < |chunk| && v.inodes[n].size % BLOCK_SIZE + |chunk| <= BLOCK_SIZE
    ensures var need := NeedAt(v.inodes[n].size);
      var u := WithBlock(v, n);
      && (Inv(u, reserved) <==> need <= FreeCount(v.bits))
      && (Inv(u, reserved) ==>
            var w := AppendChunk(u, n, chunk);
            Inv(w, reserved) && IsFile(w, n) && FreeCount(w.bits) == FreeCount(v.bits) - need)
  {
    var e, u := v.inodes[n].size / BLOCK_SIZE, WithBlock(v, n);
    BmapIsLeaf(v, n, e);
    LeafWanted(e, BlocksIn(v.inodes[n].size));
    if v.inodes[n].size % BLOCK_SIZE == 0 {
      MissingIs(v, n, e);
      CreateNeedsSpace(v, reserved, n, e);
      if NewAt(e) <= FreeCount(v.bits) { AppendBlock(v, reserved, n, e); }
    }
    if Inv(u, reserved) { AppendChunkCorrect(u, reserved, n, chunk); }
  }

  /** Blocks the rounds of a write of count bytes take, from the given size on. */
  function Needed(size: nat, count: nat): nat
    decreases count
  {
    if count == 0 then 0 else NeedAt(size) + Needed(size + ChunkSize(size, count), count - ChunkSize(size, count))
  }

  lemma {:induction false} NeededIs(size: nat, count: nat, end: nat)
    requires end == size + count
    ensures Needed(size, count) == SpaceFor(BlocksIn(size), BlocksIn(end))
    decreases count
  {
    if count > 0 {
      var chars := ChunkSize(size, count);
      SpaceLeft(size, chars, end);
      NeededIs(size + chars, count - chars, end);
    }
  }

  /** Enough space keeps every round sound. */
  lemma {:induction false} SpaceSuffices(v: Volume, reserved: set<nat>, n: nat, buf: seq<Byte>)
    requires Inv(v, reserved) && IsFile(v, n) && v.inodes[n].size + |buf| <= MAX_BYTES
    requires Needed(v.inodes[n].size, |buf|) <= FreeCount(v.bits)
    ensures SoundThroughout(v, reserved, n, buf)
    decreases |buf|
  {
    if buf != [] {
      var chars := ChunkSize(v.inodes[n].size, |buf|);
      RoundExact(v, reserved, n, buf[..chars]);
      SpaceSuffices(AppendChunk(WithBlock(v, n), n, buf[..chars]), reserved, n, buf[chars..]);
    }
  }

  /** Without it some round is not sound. */
  lemma {:induction false} SpaceIsNeeded(v: Volume, reserved: set<nat>, n: nat, buf: seq<Byte>)
    requires Inv(v, reserved) && IsFile(v, n) && v.inodes[n].size + |buf| <= MAX_BYTES
    requires Needed(v.inodes[n].size, |buf|) > FreeCount(v.bits)
    ensures !SoundThroughout(v, reserved, n, buf)
    decreases |buf|
  {
    var chars := ChunkSize(v.inodes[n].size, |buf|);
    RoundExact(v, reserved, n, buf[..chars]);
    if Inv(WithBlock(v, n), reserved) {
      SpaceIsNeeded(AppendChunk(WithBlock(v, n), n, buf[..chars]), reserved, n, buf[chars..]);
    }
  }

  /** A write keeps the volume sound throughout if and only if the map has the blocks it takes. */
  lemma WriteNeedsSpace(v: Volume, reserved: set<nat>, n: nat, buf: seq<Byte>)
    requires Inv(v, reserved) && IsFile(v, n) && v.inodes[n].size + |buf| <= MAX_BYTES
    ensures SoundThroughout(v, reserved, n, buf) <==> Needed(v.inodes[n].size, |buf|) <= FreeCount(v.bits)
  {
    if Needed(v.inodes[n].size, |buf|) <= FreeCount(v.bits) {
      SpaceSuffices(v, reserved, n, buf);
    } else {
      SpaceIsNeeded(v, reserved, n, buf);
    }
  }

  /**
   The first round of a write to a new inode with a leftover size: the file is without holes from
   then on if and only if that size is below one block.
   */
  lemma LeftoverSizeExact(v: Volume, reserved: set<nat>, n: nat, size: nat)
    requires Inv(v, reserved) && n !in v.inodes && size < MAX_BYTES
    requires var w := v.(inodes := v.inodes[n := NewInode(size)]);
      Shaped(w) && Missing(w, n, Path(size / BLOCK_SIZE)) <= FreeCount(w.bits)
    ensures var u := WithBlock(v.(inodes := v.inodes[n := NewInode(size)]), n);
      && Inv(u, reserved) && Bmap(u, n, size / BLOCK_SIZE) != 0
      && (Compact(u, n, size / BLOCK_SIZE + 1) <==> size < BLOCK_SIZE)
      && (size >= BLOCK_SIZE ==> Bmap(u, n, 0) == 0)
  {
    var w, e := v.(inodes := v.inodes[n := NewInode(size)]), size / BLOCK_SIZE;
    NewInodeKeeps(v, reserved, n, size);
    forall s | SlotOk(s) ensures Held(w, n, s) == 0 { NewInodeEmpty(w, n, s); }
    BmapIsLeaf(w, n, e);
    CreateCorrect(w, reserved, n, e);
    var u := Create(w, n, e);
    if e == 0 {
      AppendCompact(w, u, n, 0);
    } else {
      BmapIsLeaf(w, n, 0);
      BmapIsLeaf(u, n, 0);
      LeafWanted(0, e + 1);
    }
  }

  /** A leftover size of 1024: the first byte written goes to index 1, index 0 stays unmapped. */
  lemma LeftoverSizeExample(v: Volume, reserved: set<nat>, n: nat)
    requires Inv(v, reserved) && n !in v.inodes && FreeCount(v.bits) > 0
    ensures var w := v.(inodes := v.inodes[n := NewInode(1024)]);
      && Shaped(w) && Bmap(WithBlock(w, n), n, 1) != 0 && Bmap(WithBlock(w, n), n, 0) == 0
  {
    var w := v.(inodes := v.inodes[n := NewInode(1024)]);
    NewInodeKeeps(v, reserved, n, 1024);
    assert Path(1) == [Direct(1)];
    MissingOne(w, n, Direct(1));
    LeftoverSizeExact(v, reserved, n, 1024);
  }

  /**
   file_write (fs/file_dev.c:60-116): the bytes are appended, the file stays free of holes and
   every other file is left alone.
   */
  method FileWrite(fs: Fs, n: nat, buf: seq<Byte>) returns (written: nat)
    requires fs.Valid() && IsFile(fs.View(), n) && fs.inodes[n].size + |buf| <= MAX_BYTES
    requires SpaceFor(BlocksIn(fs.inodes[n].size), BlocksIn(fs.inodes[n].size + |buf|)) <= FreeCount(fs.bits[..])
    modifies fs, fs.bits
    ensures fs.Valid() && IsFile(fs.View(), n) && written == |buf| && (buf != [] ==> fs.inodes[n].dirty)
    ensures Contents(fs.View(), n) == old(Contents(fs.View(), n)) + buf
    ensures OthersIntact(old(fs.View()), fs.View(), n)
  {
    ghost var u, was := fs.View(), Contents(fs.View(), n);
    ghost var end := fs.inodes[n].size + |buf|;
    written := 0;
    var count := |buf|;
    assert was + buf[..0] == was;
    while count > 0
      invariant 0 <= count && written + count == |buf| && fs.Valid() && IsFile(fs.View(), n)
      invariant fs.inodes[n].size + count == end
      invariant SpaceFor(BlocksIn(fs.inodes[n].size), BlocksIn(end)) <= FreeCount(fs.bits[..])
      invariant Contents(fs.View(), n) == was + buf[..written]
      invariant OthersIntact(u, fs.View(), n) && (written > 0 ==> fs.inodes[n].dirty)
    {
      var chars := WriteRound(fs, n, buf, written, count, u, end);
      Glue(was, buf, written, chars);
      written := written + chars;
      count := count - chars;
    }
    assert buf[..written] == buf;
  }

  lemma Glue(was: seq<Byte>, buf: seq<Byte>, i: nat, k: nat)
    requires i + k <= |buf|
    ensures was + buf[..i] + buf[i..i + k] == was + buf[..i + k]
  {
  }

  /** The chunk size of a round and the round itself (fs/file_dev.c:83-111). */
  method WriteRound(fs: Fs, n: nat, buf: seq<Byte>, written: nat, count: nat, ghost u: Volume, ghost end: nat)
    returns (chars: nat)
    requires fs.Valid() && IsFile(fs.View(), n) && 0 < count && written + count == |buf|
    requires fs.inodes[n].size + count == end <= MAX_BYTES
    requires SpaceFor(BlocksIn(fs.inodes[n].size), BlocksIn(end)) <= FreeCount(fs.bits[..])
    requires Shaped(u) && OthersIntact(u, fs.View(), n)
    modifies fs, fs.bits
    ensures 0 < chars <= count && fs.Valid() && IsFile(fs.View(), n)
    ensures fs.inodes[n].size == old(fs.inodes[n].size) + chars && fs.inodes[n].dirty
    ensures SpaceFor(BlocksIn(fs.inodes[n].size), BlocksIn(end)) <= FreeCount(fs.bits[..])
    ensures Contents(fs.View(), n) == old(Contents(fs.View(), n)) + buf[written..written + chars]
    ensures OthersIntact(u, fs.View(), n)
  {
    chars := ChunkSize(fs.inodes[n].size, count);
    SpaceLeft(fs.inodes[n].size, chars, end);
    ghost var v := fs.View();
    WriteChunk(fs, n, buf, written, chars);
    IntactTrans(u, v, fs.View(), n);
  }

  /**
   file_read (fs/file_dev.c:11-57): the bytes between the position and the position plus count,
   and the position moved by as much.
   */
  method FileRead(fs: Fs, n: nat, file: OpenFile, count: nat) returns (data: seq<Byte>)
    requires fs.Valid() && IsFile(fs.View(), n) && file.pos + count <= fs.inodes[n].size
    modifies file
    ensures data == Contents(fs.View(), n)[old(file.pos)..old(file.pos) + count]
    ensures file.pos == old(file.pos) + count
  {
    ghost var v, all, start := fs.View(), Contents(fs.View(), n), file.pos;
    data := [];
    var left := count;
    while left > 0
      invariant 0 <= left <= count && file.pos == start + (count - left)
      invariant fs.Valid() && fs.View() == v && data == all[start..file.pos]
    {
      var chars := ChunkSize(file.pos, left);
      var piece := ReadChunk(fs, n, file.pos, chars);
      SliceGlue(all, start, file.pos, file.pos + chars);
      data := data + piece;
      left := left - chars;
      file.pos := file.pos + chars;
    }
  }

  lemma SliceGlue(s: seq<Byte>, a: nat, b: nat, c: nat)
    requires a <= b <= c <= |s|
    ensures s[a..b] + s[b..c] == s[a..c]
  {
  }

  /** One round of the loop of file_read (lines 32-53): bytes of a single block. */
  method ReadChunk(fs: Fs, n: nat, pos: nat, chars: nat) returns (piece: seq<Byte>)
    requires fs.Valid() && IsFile(fs.View(), n) && pos + chars <= fs.inodes[n].size
    requires 0 < chars && pos % BLOCK_SIZE + chars <= BLOCK_SIZE
    ensures piece == Contents(fs.View(), n)[pos..pos + chars]
  {
    var b := pos / BLOCK_SIZE;
    var block := fs.BmapRead(n, b);
    BmapIsLeaf(fs.View(), n, b);
    LeafWanted(b, BlocksIn(fs.inodes[n].size));
    piece := [];
    var i := 0;
    while i < chars
      invariant i <= chars && |piece| == i
      invariant forall j :: 0 <= j < i ==> piece[j] == fs.blocks[block][pos % BLOCK_SIZE + j]
    {
      piece := piece + [fs.blocks[block][pos % BLOCK_SIZE + i]];
      i := i + 1;
    }
    SliceOfBlock(fs.View(), n, pos, chars, piece);
  }

  lemma SliceOfBlock(v: Volume, n: nat, pos: nat, chars: nat, piece: seq<Byte>)
    requires Shaped(v) && n in v.inodes && v.inodes[n].size <= MAX_BYTES && pos + chars <= v.inodes[n].size
    requires 0 < chars == |piece| && pos % BLOCK_SIZE + chars <= BLOCK_SIZE
    requires forall j :: 0 <= j < chars ==>
      piece[j] == v.blocks[Held(v, n, LeafSlot(pos / BLOCK_SIZE))][pos % BLOCK_SIZE + j]
    ensures piece == Contents(v, n)[pos..pos + chars]
  {
    forall j | 0 <= j < chars ensures piece[j] == Contents(v, n)[pos..pos + chars][j] {
      assert (pos + j) / BLOCK_SIZE == pos / BLOCK_SIZE && (pos + j) % BLOCK_SIZE == pos % BLOCK_SIZE + j;
    }
  }
}
