/**
 The block map of fs/inode.c over an abstract block store: seven direct blocks, one
 indirect table and one double-indirect table of 512 little-endian 16-bit entries.
 A slot is a place where an inode or one of its tables holds a block number.
 */
module BlockMap {
  import opened Basics

  const BLOCK_SIZE: nat := 1024
  const NR_BLOCKS: nat := 65536
  const MAP_BITS: nat := 8192
  const DIRECT: nat := 7
  const PER_TABLE: nat := 512
  /** One past the largest logical index: 7 + 512 + 512 * 512. */
  const MAX_INDEX: nat := 262663
  /** What new_block's -1 becomes in an unsigned short. */
  const NO_BLOCK: nat := 65535

  type Blk = b: seq<Byte> | |b| == BLOCK_SIZE ghost witness seq(BLOCK_SIZE, i => 0)

  function ZeroBlock(): (b: Blk)
    ensures forall i :: 0 <= i < PER_TABLE ==> Entry(b, i) == 0
  {
    var b: seq<Byte> := seq(BLOCK_SIZE, i => 0);
    b
  }

  function Entry(b: Blk, i: nat): (v: nat)
    requires i < PER_TABLE
    ensures v < NR_BLOCKS
  {
    var lo: nat, hi: nat := b[2 * i], b[2 * i + 1];
    lo + 256 * hi
  }

  /** Stores one entry; the others keep their values. */
  function SetEntry(b: Blk, i: nat, v: nat): (b': Blk)
    requires i < PER_TABLE && v < NR_BLOCKS
    ensures Entry(b', i) == v
    ensures forall j :: 0 <= j < PER_TABLE && j != i ==> Entry(b', j) == Entry(b, j)
  {
    b[2 * i := v % 256][2 * i + 1 := v / 256]
  }

  /** Entries are stored low byte first, entry i in bytes 2i and 2i + 1. */
  lemma EntryBytes(b: Blk, i: nat, v: nat)
    requires i < PER_TABLE && v < NR_BLOCKS
    ensures var b' := SetEntry(b, i, v); b'[2 * i] == v % 256 && b'[2 * i + 1] == v / 256
    ensures forall j :: 0 <= j < BLOCK_SIZE && j / 2 != i ==> SetEntry(b, i, v)[j] == b[j]
    ensures Entry(b, i) % 256 == b[2 * i] && Entry(b, i) / 256 == b[2 * i + 1]
  {
  }

  /** The part of an inode the block map works on. */
  datatype Inode = Inode(area: seq<nat>, size: nat, dirty: bool)

  datatype Volume = Volume(blocks: seq<Blk>, bits: seq<bool>, inodes: map<nat, Inode>)

  datatype Slot =
    | Direct(i: nat)
    | Ind
    | IndLeaf(i: nat)
    | Dbl
    | DblMid(i: nat)
    | DblLeaf(i: nat, j: nat)

  predicate SlotOk(s: Slot) {
    match s
    case Direct(i) => i < DIRECT
    case Ind => true
    case IndLeaf(i) => i < PER_TABLE
    case Dbl => true
    case DblMid(i) => i < PER_TABLE
    case DblLeaf(i, j) => i < PER_TABLE && j < PER_TABLE
  }

  predicate AreaOk(area: seq<nat>) {
    |area| == 9 && forall i :: 0 <= i < 9 ==> area[i] < NR_BLOCKS
  }

  /** An entry of table t, where table 0 stands for no table. */
  function Through(blocks: seq<Blk>, t: nat, i: nat): (v: nat)
    requires |blocks| == NR_BLOCKS && t < NR_BLOCKS && i < PER_TABLE
    ensures v < NR_BLOCKS
  {
    if t == 0 then 0 else Entry(blocks[t], i)
  }

  /** The block number held in a slot, 0 when there is none. */
  function At(blocks: seq<Blk>, area: seq<nat>, s: Slot): (v: nat)
    requires |blocks| == NR_BLOCKS && AreaOk(area) && SlotOk(s)
    ensures v < NR_BLOCKS
  {
    match s
    case Direct(i) => area[i]
    case Ind => area[7]
    case IndLeaf(i) => Through(blocks, area[7], i)
    case Dbl => area[8]
    case DblMid(i) => Through(blocks, area[8], i)
    case DblLeaf(i, j) => Through(blocks, Through(blocks, area[8], i), j)
  }

  function LeafSlot(b: nat): (s: Slot)
    requires b < MAX_INDEX
    ensures SlotOk(s)
  {
    if b < DIRECT then Direct(b)
    else if b - DIRECT < PER_TABLE then IndLeaf(b - DIRECT)
    else DblLeaf((b - DIRECT - PER_TABLE) / PER_TABLE, (b - DIRECT - PER_TABLE) % PER_TABLE)
  }

  predicate IsLeaf(s: Slot) {
    s.Direct? || s.IndLeaf? || s.DblLeaf?
  }

  /** The logical index of a leaf. */
  function IndexOf(s: Slot): nat
    requires IsLeaf(s)
  {
    match s
    case Direct(i) => i
    case IndLeaf(i) => DIRECT + i
    case DblLeaf(i, j) => DIRECT + PER_TABLE + i * PER_TABLE + j
  }

  /** Logical indices and leaf slots correspond one to one. */
  lemma LeafIndex(b: nat)
    requires b < MAX_INDEX
    ensures IsLeaf(LeafSlot(b)) && IndexOf(LeafSlot(b)) == b
  {
  }

  lemma IndexLeaf(s: Slot)
    requires SlotOk(s) && IsLeaf(s)
    ensures IndexOf(s) < MAX_INDEX && LeafSlot(IndexOf(s)) == s
  {
  }

  ghost predicate Shaped(v: Volume) {
    && |v.blocks| == NR_BLOCKS && |v.bits| == MAP_BITS
    && forall n :: n in v.inodes ==> AreaOk(v.inodes[n].area)
  }

  function Held(v: Volume, n: nat, s: Slot): nat
    requires |v.blocks| == NR_BLOCKS && n in v.inodes && AreaOk(v.inodes[n].area) && SlotOk(s)
  {
    At(v.blocks, v.inodes[n].area, s)
  }

  ghost predicate Owned(v: Volume, k: nat)
    requires Shaped(v)
  {
    k != 0 && exists n, s :: n in v.inodes && SlotOk(s) && Held(v, n, s) == k
  }

  /**
   The invariant of a one-map volume.  reserved holds block 0, the metadata and every number
   the volume does not have; block 0 reads as zeros.
   */
  ghost predicate Inv(v: Volume, reserved: set<nat>) {
    && Shaped(v) && v.blocks[0] == ZeroBlock()
    && 0 in reserved && (forall i :: 1024 <= i < MAP_BITS ==> i in reserved)
    && InRange(v, reserved) && DistinctBlocks(v) && BitsMatch(v, reserved)
  }

  /** A slot holds nothing, or a block of the volume that is not reserved. */
  ghost predicate HoldsOk(v: Volume, reserved: set<nat>, n: nat, s: Slot)
    requires Shaped(v)
  {
    n in v.inodes && SlotOk(s) && Held(v, n, s) != 0 ==> Held(v, n, s) < 1024 && Held(v, n, s) !in reserved
  }

  ghost predicate InRange(v: Volume, reserved: set<nat>)
    requires Shaped(v)
  {
    forall n, s :: HoldsOk(v, reserved, n, s)
  }

  /** Two slots that hold the same block are the same slot. */
  ghost predicate Apart(v: Volume, n: nat, s: Slot, n': nat, s': Slot)
    requires Shaped(v)
  {
    (n in v.inodes && n' in v.inodes && SlotOk(s) && SlotOk(s') && Held(v, n, s) != 0
     && Held(v, n, s) == Held(v, n', s')) ==> n == n' && s == s'
  }

  /** All data and table blocks of all inodes are pairwise distinct. */
  ghost predicate DistinctBlocks(v: Volume)
    requires Shaped(v)
  {
    forall n, s, n', s' :: Apart(v, n, s, n', s')
  }

  ghost predicate BitOk(v: Volume, reserved: set<nat>, i: nat)
    requires Shaped(v)
  {
    i < MAP_BITS ==> (v.bits[i] <==> i in reserved || Owned(v, i))
  }

  /** The set bits are the reserved blocks plus those owned by the inodes. */
  ghost predicate BitsMatch(v: Volume, reserved: set<nat>)
    requires Shaped(v)
  {
    forall i: nat :: BitOk(v, reserved, i)
  }

  // ------------------------------------------------------------ installing a block

  /** The table block a slot lives in, 0 for the slots of the inode itself. */
  function TableOf(blocks: seq<Blk>, area: seq<nat>, s: Slot): (t: nat)
    requires |blocks| == NR_BLOCKS && AreaOk(area) && SlotOk(s)
    ensures t < NR_BLOCKS
  {
    match s
    case IndLeaf(_) => area[7]
    case DblMid(_) => area[8]
    case DblLeaf(i, _) => Through(blocks, area[8], i)
    case _ => 0
  }

  predicate InInode(s: Slot) {
    s.Direct? || s.Ind? || s.Dbl?
  }

  function AreaIndex(s: Slot): (i: nat)
    requires SlotOk(s) && InInode(s)
    ensures i < 9
  {
    match s
    case Direct(i) => i
    case Ind => 7
    case Dbl => 8
  }

  function TableIndex(s: Slot): (i: nat)
    requires SlotOk(s) && !InInode(s)
    ensures i < PER_TABLE
  {
    match s
    case IndLeaf(i) => i
    case DblMid(i) => i
    case DblLeaf(_, j) => j
  }

  /** Takes block k from the map, clears it and stores its number in slot s of inode n. */
  function Install(v: Volume, n: nat, s: Slot, k: nat): Volume
    requires |v.blocks| == NR_BLOCKS && |v.bits| == MAP_BITS && n in v.inodes && AreaOk(v.inodes[n].area)
    requires SlotOk(s) && k < MAP_BITS
  {
    var node := v.inodes[n];
    var blocks := v.blocks[k := ZeroBlock()];
    if InInode(s) then
      Volume(blocks, v.bits[k := true],
             v.inodes[n := node.(area := node.area[AreaIndex(s) := k], dirty := true)])
    else
      var t := TableOf(v.blocks, node.area, s);
      Volume(blocks[t := SetEntry(blocks[t], TableIndex(s), k)], v.bits[k := true], v.inodes)
  }

  /** The slot that holds the table a slot lives in. */
  function ParentSlot(s: Slot): (p: Slot)
    requires SlotOk(s) && !InInode(s)
    ensures SlotOk(p) && !IsLeaf(p)
  {
    match s
    case IndLeaf(_) => Ind
    case DblMid(_) => Dbl
    case DblLeaf(i, _) => DblMid(i)
  }

  lemma HeldThroughParent(blocks: seq<Blk>, area: seq<nat>, s: Slot)
    requires |blocks| == NR_BLOCKS && AreaOk(area) && SlotOk(s) && !InInode(s)
    ensures TableOf(blocks, area, s) == At(blocks, area, ParentSlot(s))
    ensures At(blocks, area, s) == Through(blocks, At(blocks, area, ParentSlot(s)), TableIndex(s))
  {
  }

  /** A block whose bit is clear is held nowhere. */
  lemma FreshNotHeld(v: Volume, reserved: set<nat>, k: nat, n: nat, s: Slot)
    requires Inv(v, reserved) && 0 < k < MAP_BITS && !v.bits[k] && n in v.inodes && SlotOk(s)
    ensures Held(v, n, s) != k
  {
    assert BitOk(v, reserved, k);
    if Held(v, n, s) == k { assert Owned(v, k); }
  }

  lemma SameHolder(v: Volume, n: nat, s: Slot, n': nat, s': Slot)
    requires Shaped(v) && DistinctBlocks(v) && n in v.inodes && n' in v.inodes && SlotOk(s) && SlotOk(s')
    requires Held(v, n, s) == Held(v, n', s') && Held(v, n, s) != 0
    ensures n == n' && s == s'
  {
    assert Apart(v, n, s, n', s');
  }

  lemma HeldInRange(v: Volume, reserved: set<nat>, n: nat, s: Slot)
    requires Inv(v, reserved) && n in v.inodes && SlotOk(s) && Held(v, n, s) != 0
    ensures Held(v, n, s) < 1024 && Held(v, n, s) !in reserved
  {
    assert HoldsOk(v, reserved, n, s);
  }

  /** Bit 0 is always set. */
  lemma BootBit(v: Volume, reserved: set<nat>)
    requires Inv(v, reserved)
    ensures v.bits[0]
  {
    assert BitOk(v, reserved, 0);
  }

  /** A place that can be filled: nothing is there yet, but the table around it is. */
  predicate Empty(v: Volume, n: nat, s: Slot)
    requires |v.blocks| == NR_BLOCKS && n in v.inodes && AreaOk(v.inodes[n].area) && SlotOk(s)
  {
    Held(v, n, s) == 0 && (InInode(s) || Held(v, n, ParentSlot(s)) != 0)
  }

  lemma InstallShaped(v: Volume, n: nat, s: Slot, k: nat)
    requires Shaped(v) && n in v.inodes && SlotOk(s) && k < MAP_BITS
    ensures Shaped(Install(v, n, s, k))
    ensures Install(v, n, s, k).inodes.Keys == v.inodes.Keys
  {
  }

  /** What a slot held before is what it holds after, except for the slot that was filled. */
  lemma {:induction false} InstallHeld(v: Volume, reserved: set<nat>, n: nat, s: Slot, k: nat, n': nat, s': Slot)
    requires Inv(v, reserved) && n in v.inodes && SlotOk(s) && 0 < k < MAP_BITS && !v.bits[k]
    requires Empty(v, n, s) && n' in v.inodes && SlotOk(s') && Shaped(Install(v, n, s, k))
    ensures Held(Install(v, n, s, k), n', s') == if n' == n && s' == s then k else Held(v, n', s')
    decreases match s' case DblLeaf(_, _) => 2 case DblMid(_) => 1 case IndLeaf(_) => 1 case _ => 0
  {
    var w := Install(v, n, s, k);
    if !InInode(s') {
      var p := ParentSlot(s');
      InstallHeld(v, reserved, n, s, k, n', p);
      HeldThroughParent(v.blocks, v.inodes[n'].area, s');
      HeldThroughParent(w.blocks, w.inodes[n'].area, s');
      var t' := Held(v, n', p);
      if t' != 0 {
        FreshNotHeld(v, reserved, k, n', p);
      }
      if !InInode(s) {
        HeldThroughParent(v.blocks, v.inodes[n].area, s);
        FreshNotHeld(v, reserved, k, n, ParentSlot(s));
        if t' != 0 && t' == Held(v, n, ParentSlot(s)) {
          SameHolder(v, n', p, n, ParentSlot(s));
          SiblingSlots(s, s');
        }
      }
    }
  }

  lemma SiblingSlots(s: Slot, s': Slot)
    requires SlotOk(s) && SlotOk(s') && !InInode(s) && !InInode(s') && ParentSlot(s) == ParentSlot(s')
    ensures TableIndex(s) == TableIndex(s') <==> s == s'
  {
  }

  /** Installing a fresh block keeps the volume invariant. */
  lemma InstallKeeps(v: Volume, reserved: set<nat>, n: nat, s: Slot, k: nat)
    requires Inv(v, reserved) && n in v.inodes && SlotOk(s) && 0 < k < MAP_BITS && !v.bits[k]
    requires Empty(v, n, s)
    ensures Inv(Install(v, n, s, k), reserved)
    ensures Filled(v, Install(v, n, s, k), n, s, k)
  {
    var w := Install(v, n, s, k);
    InstallShaped(v, n, s, k);
    forall n', s' | n' in v.inodes && SlotOk(s')
      ensures Held(w, n', s') == if n' == n && s' == s then k else Held(v, n', s')
    {
      InstallHeld(v, reserved, n, s, k, n', s');
    }
    if !InInode(s) { FreshNotHeld(v, reserved, k, n, ParentSlot(s)); }
    InstallDistinct(v, w, reserved, n, s, k);
  }

  /** The invariant clauses that depend only on what the slots hold. */
  lemma InstallDistinct(v: Volume, w: Volume, reserved: set<nat>, n: nat, s: Slot, k: nat)
    requires Inv(v, reserved) && Shaped(w) && w.inodes.Keys == v.inodes.Keys && n in v.inodes && SlotOk(s)
    requires 0 < k < MAP_BITS && !v.bits[k] && w.bits == v.bits[k := true] && w.blocks[0] == v.blocks[0]
    requires Held(v, n, s) == 0 && Filled(v, w, n, s, k)
    ensures Inv(w, reserved)
  {
    forall n', s' ensures HoldsOk(w, reserved, n', s') {
      assert HoldsOk(v, reserved, n', s') && BitOk(v, reserved, k);
    }
    forall n1, s1, n2, s2 ensures Apart(w, n1, s1, n2, s2) {
      if n1 in w.inodes && n2 in w.inodes && SlotOk(s1) && SlotOk(s2)
        && Held(w, n1, s1) != 0 && Held(w, n1, s1) == Held(w, n2, s2) {
        FreshNotHeld(v, reserved, k, n1, s1);
        FreshNotHeld(v, reserved, k, n2, s2);
        assert Apart(v, n1, s1, n2, s2);
      }
    }
    forall i: nat ensures BitOk(w, reserved, i) {
      assert BitOk(v, reserved, i);
      OwnedAfter(v, w, n, s, k, i);
    }
  }

  /** w holds in every slot what v does, and k in slot s of inode n. */
  ghost predicate Filled(v: Volume, w: Volume, n: nat, s: Slot, k: nat)
    requires Shaped(v) && Shaped(w) && w.inodes.Keys == v.inodes.Keys
  {
    forall n', s' :: n' in v.inodes && SlotOk(s') ==>
      Held(w, n', s') == if n' == n && s' == s then k else Held(v, n', s')
  }

  lemma OwnedAfter(v: Volume, w: Volume, n: nat, s: Slot, k: nat, i: nat)
    requires Shaped(v) && Shaped(w) && w.inodes.Keys == v.inodes.Keys && n in v.inodes && SlotOk(s)
    requires k != 0 && Held(v, n, s) == 0 && Filled(v, w, n, s, k)
    ensures Owned(w, i) <==> Owned(v, i) || i == k
  {
    if Owned(w, i) && i != k {
      var n', s' :| n' in w.inodes && SlotOk(s') && Held(w, n', s') == i;
      assert Held(v, n', s') == i;
    }
    if Owned(v, i) {
      var n', s' :| n' in v.inodes && SlotOk(s') && Held(v, n', s') == i;
      assert Held(w, n', s') == i;
    }
    assert Held(w, n, s) == k;
  }
}
