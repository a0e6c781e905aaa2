/**
 The inode table on disk (fs/inode.c:153-215): 32-byte records, 32 to a block, behind the
 super block and the two maps; and the numbers new_inode hands out (fs/bitmap.c:113-162).
 */
module InodeTable {
  import opened Basics
  import opened BlockMap
  import opened BitScan

  const INODES_PER_BLOCK: nat := 32
  const INODE_SIZE: nat := 32

  type U16 = x: nat | x < 0x1_0000
  type U32 = x: nat | x < 0x1_0000_0000

  /** struct s_inode. */
  datatype DiskInode = DiskInode(mode: U16, uid: U16, size: U32, time: U32, gid: Byte, nlinks: Byte, area: seq<U16>)

  predicate Nine(d: DiskInode) {
    |d.area| == 9
  }

  function Lo(x: U16): Byte { x % 256 }
  function Hi(x: U16): Byte { x / 256 }
  function LowHalf(x: U32): U16 { x % 0x1_0000 }
  function HighHalf(x: U32): U16 { x / 0x1_0000 }

  /** The record, little-endian, field by field. */
  function Encode(d: DiskInode): (r: seq<Byte>)
    requires Nine(d)
    ensures |r| == INODE_SIZE
  {
    var a := d.area;
    [Lo(d.mode), Hi(d.mode), Lo(d.uid), Hi(d.uid),
     Lo(LowHalf(d.size)), Hi(LowHalf(d.size)), Lo(HighHalf(d.size)), Hi(HighHalf(d.size)),
     Lo(LowHalf(d.time)), Hi(LowHalf(d.time)), Lo(HighHalf(d.time)), Hi(HighHalf(d.time)),
     d.gid, d.nlinks,
     Lo(a[0]), Hi(a[0]), Lo(a[1]), Hi(a[1]), Lo(a[2]), Hi(a[2]), Lo(a[3]), Hi(a[3]), Lo(a[4]), Hi(a[4]),
     Lo(a[5]), Hi(a[5]), Lo(a[6]), Hi(a[6]), Lo(a[7]), Hi(a[7]), Lo(a[8]), Hi(a[8])]
  }

  function Word(b: seq<Byte>, i: nat): U16
    requires i + 1 < |b|
  {
    var lo: nat, hi: nat := b[i], b[i + 1];
    lo + 256 * hi
  }

  function Long(b: seq<Byte>, i: nat): U32
    requires i + 3 < |b|
  {
    var lo: nat, hi: nat := Word(b, i), Word(b, i + 2);
    lo + 0x1_0000 * hi
  }

  function Decode(b: seq<Byte>): (d: DiskInode)
    requires |b| == INODE_SIZE
    ensures Nine(d)
  {
    DiskInode(Word(b, 0), Word(b, 2), Long(b, 4), Long(b, 8), b[12], b[13],
              [Word(b, 14), Word(b, 16), Word(b, 18), Word(b, 20), Word(b, 22),
               Word(b, 24), Word(b, 26), Word(b, 28), Word(b, 30)])
  }

  lemma DecodeEncode(d: DiskInode)
    requires Nine(d)
    ensures Decode(Encode(d)) == d
  {
    var r := Decode(Encode(d));
    assert r.area == d.area;
  }

  /** Byte i of a record as a number. */
  function Num(r: seq<Byte>, i: nat): nat
    requires i < |r|
  {
    r[i]
  }

  /** The offsets of the fields (include/fs/fs.h:98-110), for every record. */
  lemma RecordOffsets(r: seq<Byte>)
    requires |r| == INODE_SIZE
    ensures var d := Decode(r);
      && d.mode == Num(r, 0) + 256 * Num(r, 1) && d.uid == Num(r, 2) + 256 * Num(r, 3)
      && d.size == Num(r, 4) + 0x100 * Num(r, 5) + 0x1_0000 * Num(r, 6) + 0x100_0000 * Num(r, 7)
      && d.time == Num(r, 8) + 0x100 * Num(r, 9) + 0x1_0000 * Num(r, 10) + 0x100_0000 * Num(r, 11)
      && d.gid == r[12] && d.nlinks == r[13]
      && |d.area| == 9 && forall i :: 0 <= i < 9 ==> d.area[i] == Num(r, 14 + 2 * i) + 256 * Num(r, 15 + 2 * i)
  {
  }

  lemma WordBytes(r: seq<Byte>, i: nat)
    requires i + 1 < |r|
    ensures Lo(Word(r, i)) == r[i] && Hi(Word(r, i)) == r[i + 1]
  {
  }

  lemma LongBytes(r: seq<Byte>, i: nat)
    requires i + 3 < |r|
    ensures LowHalf(Long(r, i)) == Word(r, i) && HighHalf(Long(r, i)) == Word(r, i + 2)
  {
  }

  lemma SameWord(r: seq<Byte>, r': seq<Byte>, k: nat)
    requires |r| == |r'| == INODE_SIZE && Decode(r) == Decode(r') && k < 31 && k % 2 == 0 && k != 12
    ensures Word(r, k) == Word(r', k)
  {
    LongBytes(r, 4);
    LongBytes(r, 8);
    LongBytes(r', 4);
    LongBytes(r', 8);
    if k >= 14 {
      var i := (k - 14) / 2;
      assert Decode(r).area[i] == Word(r, k) && Decode(r').area[i] == Word(r', k);
    }
  }

  /** Different records have different fields. */
  lemma DecodeInjective(r: seq<Byte>, r': seq<Byte>)
    requires |r| == |r'| == INODE_SIZE && Decode(r) == Decode(r')
    ensures r == r'
  {
    forall j | 0 <= j < INODE_SIZE ensures r[j] == r'[j] {
      var k := j - j % 2;
      if k != 12 {
        SameWord(r, r', k);
        WordBytes(r, k);
        WordBytes(r', k);
      }
    }
  }

  /** Every record is the record of its fields. */
  lemma EncodeDecode(r: seq<Byte>)
    requires |r| == INODE_SIZE
    ensures Encode(Decode(r)) == r
  {
    DecodeEncode(Decode(r));
    DecodeInjective(Encode(Decode(r)), r);
  }

  // ------------------------------------------------------------ placement

  /** The block an inode lives in, as an unsigned short (fs/inode.c:167-170 and 202-205). */
  function BlockOf(imapBlocks: nat, zmapBlocks: nat, ino: nat): U16 {
    (imapBlocks + zmapBlocks + 1 + (ino + INODES_PER_BLOCK - 1) / INODES_PER_BLOCK) % 0x1_0000
  }

  function IndexIn(ino: nat): (i: nat)
    requires ino >= 1
    ensures i < INODES_PER_BLOCK
  {
    (ino - 1) % INODES_PER_BLOCK
  }

  /** From 1 up, every number has a place of its own inside the table that follows the maps. */
  lemma Placement(imapBlocks: nat, zmapBlocks: nat, count: U16, ino: nat)
    requires imapBlocks <= 8 && zmapBlocks <= 8 && 1 <= ino <= count
    ensures var first := 2 + imapBlocks + zmapBlocks;
      first <= BlockOf(imapBlocks, zmapBlocks, ino) < first + (count + INODES_PER_BLOCK - 1) / INODES_PER_BLOCK
    ensures ino - 1 == (BlockOf(imapBlocks, zmapBlocks, ino) - (2 + imapBlocks + zmapBlocks)) * INODES_PER_BLOCK + IndexIn(ino)
  {
  }

  lemma PlacesDiffer(imapBlocks: nat, zmapBlocks: nat, ino: U16, ino': U16)
    requires imapBlocks <= 8 && zmapBlocks <= 8 && ino >= 1 && ino' >= 1 && ino != ino'
    ensures BlockOf(imapBlocks, zmapBlocks, ino) != BlockOf(imapBlocks, zmapBlocks, ino') || IndexIn(ino) != IndexIn(ino')
  {
    Placement(imapBlocks, zmapBlocks, ino, ino);
    Placement(imapBlocks, zmapBlocks, ino', ino');
  }

  /** Number 0 falls outside: it is placed in the last block of the map. */
  lemma ZeroIsOutside(imapBlocks: nat, zmapBlocks: nat)
    requires imapBlocks <= 8 && zmapBlocks <= 8
    ensures BlockOf(imapBlocks, zmapBlocks, 0) == imapBlocks + zmapBlocks + 1
  {
  }

  function Record(b: Blk, i: nat): (r: seq<Byte>)
    requires i < INODES_PER_BLOCK
    ensures |r| == INODE_SIZE
  {
    b[INODE_SIZE * i..INODE_SIZE * (i + 1)]
  }

  function PutRecord(b: Blk, i: nat, r: seq<Byte>): (b': Blk)
    requires i < INODES_PER_BLOCK && |r| == INODE_SIZE
    ensures Record(b', i) == r
    ensures forall j :: 0 <= j < INODES_PER_BLOCK && j != i ==> Record(b', j) == Record(b, j)
  {
    var b': Blk := b[..INODE_SIZE * i] + r + b[INODE_SIZE * (i + 1)..];
    assert forall j :: 0 <= j < INODES_PER_BLOCK && j != i ==> Record(b', j) == Record(b, j) by {
      forall j | 0 <= j < INODES_PER_BLOCK && j != i ensures Record(b', j) == Record(b, j) {
        assert j < i || j >= i + 1;
      }
    }
    b'
  }

  function ReadAt(blocks: seq<Blk>, imapBlocks: nat, zmapBlocks: nat, ino: nat): (d: DiskInode)
    requires |blocks| == NR_BLOCKS && ino >= 1
    ensures Nine(d)
  {
    Decode(Record(blocks[BlockOf(imapBlocks, zmapBlocks, ino)], IndexIn(ino)))
  }

  /** Where the fields of an inode are on disk. */
  lemma ReadAtBytes(blocks: seq<Blk>, imapBlocks: nat, zmapBlocks: nat, ino: nat)
    requires |blocks| == NR_BLOCKS && imapBlocks <= 8 && zmapBlocks <= 8 && 1 <= ino < NR_BLOCKS
    ensures var d, b, o := ReadAt(blocks, imapBlocks, zmapBlocks, ino),
        blocks[imapBlocks + zmapBlocks + 2 + (ino - 1) / 32], 32 * ((ino - 1) % 32);
      && d.mode == Num(b, o) + 256 * Num(b, o + 1) && d.gid == b[o + 12] && d.nlinks == b[o + 13]
      && d.area[0] == Num(b, o + 14) + 256 * Num(b, o + 15)
  {
    RecordOffsets(Record(blocks[BlockOf(imapBlocks, zmapBlocks, ino)], IndexIn(ino)));
  }

  function WriteAt(blocks: seq<Blk>, imapBlocks: nat, zmapBlocks: nat, ino: nat, d: DiskInode): seq<Blk>
    requires |blocks| == NR_BLOCKS && ino >= 1 && Nine(d)
  {
    var b := BlockOf(imapBlocks, zmapBlocks, ino);
    blocks[b := PutRecord(blocks[b], IndexIn(ino), Encode(d))]
  }

  /** What was written is read back, and every other inode reads as before. */
  lemma WriteThenRead(blocks: seq<Blk>, imapBlocks: nat, zmapBlocks: nat, ino: U16, d: DiskInode, ino': U16)
    requires |blocks| == NR_BLOCKS && imapBlocks <= 8 && zmapBlocks <= 8 && ino >= 1 && ino' >= 1 && Nine(d)
    ensures ReadAt(WriteAt(blocks, imapBlocks, zmapBlocks, ino, d), imapBlocks, zmapBlocks, ino')
      == if ino' == ino then d else ReadAt(blocks, imapBlocks, zmapBlocks, ino')
  {
    DecodeEncode(d);
    if ino' != ino { PlacesDiffer(imapBlocks, zmapBlocks, ino, ino'); }
  }

  // ------------------------------------------------------------ the operations

  /** struct m_inode, as far as it is written back. */
  class MInode {
    var ino: nat
    var disk: DiskInode
    var dirty: bool

    constructor (ino: nat, disk: DiskInode, dirty: bool)
      ensures this.ino == ino && this.disk == disk && this.dirty == dirty
    {
      this.ino, this.disk, this.dirty := ino, disk, dirty;
    }
  }

  class Table {
    var blocks: seq<Blk>
    const imapBlocks: nat
    const zmapBlocks: nat
    const inodeBits: array<bool>

    ghost predicate Valid()
      reads this
    {
      |blocks| == NR_BLOCKS && imapBlocks <= 8 && zmapBlocks <= 8 && inodeBits.Length == MAP_BITS
    }

    /** The maps and the blocks of a mounted volume. */
    constructor (blocks: seq<Blk>, imapBlocks: nat, zmapBlocks: nat, inodeBits: array<bool>)
      requires |blocks| == NR_BLOCKS && imapBlocks <= 8 && zmapBlocks <= 8 && inodeBits.Length == MAP_BITS
      ensures Valid() && this.blocks == blocks && this.inodeBits == inodeBits
      ensures this.imapBlocks == imapBlocks && this.zmapBlocks == zmapBlocks
    {
      this.blocks, this.imapBlocks, this.zmapBlocks, this.inodeBits := blocks, imapBlocks, zmapBlocks, inodeBits;
    }

    /** write_inode (fs/inode.c:153-187). */
    method WriteInode(node: MInode)
      requires Valid() && 1 <= node.ino < NR_BLOCKS && Nine(node.disk)
      modifies `blocks, node`dirty
      ensures Valid() && !node.dirty
      ensures blocks == if old(node.dirty) then WriteAt(old(blocks), imapBlocks, zmapBlocks, node.ino, node.disk) else old(blocks)
      ensures old(node.dirty) ==> ReadAt(blocks, imapBlocks, zmapBlocks, node.ino) == node.disk
      ensures forall i :: 1 <= i < NR_BLOCKS && i != node.ino ==>
        ReadAt(blocks, imapBlocks, zmapBlocks, i) == ReadAt(old(blocks), imapBlocks, zmapBlocks, i)
    {
      if !node.dirty {
        return;
      }
      ghost var was := blocks;
      var block := BlockOf(imapBlocks, zmapBlocks, node.ino);
      var i := IndexIn(node.ino);
      blocks := blocks[block := PutRecord(blocks[block], i, Encode(node.disk))];
      node.dirty := false;
      WriteThenRead(was, imapBlocks, zmapBlocks, node.ino, node.disk, node.ino);
      forall j | 1 <= j < NR_BLOCKS && j != node.ino
        ensures ReadAt(blocks, imapBlocks, zmapBlocks, j) == ReadAt(was, imapBlocks, zmapBlocks, j)
      {
        WriteThenRead(was, imapBlocks, zmapBlocks, node.ino, node.disk, j);
      }
    }

    /** read_inode (fs/inode.c:194-215). */
    method ReadInode(node: MInode)
      requires Valid() && 1 <= node.ino < NR_BLOCKS
      modifies node`disk
      ensures node.disk == ReadAt(blocks, imapBlocks, zmapBlocks, node.ino)
    {
      var block := BlockOf(imapBlocks, zmapBlocks, node.ino);
      node.disk := Decode(Record(blocks[block], IndexIn(node.ino)));
    }

    /** The number part of new_inode on a volume with one inode map (fs/bitmap.c:129-145). */
    method NewInodeNumber() returns (ok: bool, ino: nat)
      requires Valid() && inodeBits[0]
      modifies inodeBits
      ensures ok <==> exists i :: 0 <= i < MAP_BITS && !old(inodeBits[i])
      ensures ok ==> 1 <= ino < MAP_BITS && !old(inodeBits[ino]) && forall i :: 0 <= i < ino ==> old(inodeBits[i])
      ensures inodeBits[..] == if ok then old(inodeBits[..])[ino := true] else old(inodeBits[..])
    {
      ino := FindFirstZero(inodeBits);
      if ino >= MAP_BITS {
        return false, 0;
      }
      inodeBits[ino] := true;
      ok := true;
    }
  }
}
