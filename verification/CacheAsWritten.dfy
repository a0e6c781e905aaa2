/**
 Where drivers/block_buffer.c and the raw block numbers of fs/bitmap.c depart from a cache that
 agrees with a plain array, each with its exact extent.
 */
module CacheAsWritten {
  import opened Basics
  import opened Lists
  import opened Chains
  import Rings
  import opened BufferCache

  // ------------------------------------------------------------ raw block numbers

  /** A buffer in use, or just taken, that gets data d and the dirty flag. */
  lemma DirtyKeeps(bufs: seq<Buffer>, mid: seq<Buffer>, hash: seq<seq<nat>>, ring: seq<nat>, disk: seq<Data>, b: nat, d: Data)
    requires OneEach(bufs) && CleanShowsDisk(bufs, disk) && |disk| <= MAX_BLOCK
    requires HashOk(mid, hash) && RingOk(mid, ring) && OneEach(mid) && FreeClean(mid)
    requires Active(mid, b) && |mid| == |bufs| && mid == bufs[b := mid[b]] && mid[b].block < |disk|
    requires Active(bufs, b) ==> bufs[b].block == mid[b].block
    requires !Active(bufs, b) ==> Holder(bufs, mid[b].block, 0) == |bufs|
    ensures var bufs' := mid[b := mid[b].(data := d, dirty := true)];
      CacheOk(bufs', hash, ring, disk) && OnlyChanged(bufs, disk, bufs', disk, mid[b].block, d)
  {
    var bufs' := mid[b := mid[b].(data := d, dirty := true)];
    SameUse(mid, bufs', hash, ring);
    HolderIs(bufs', mid[b].block, b);
    forall y | 0 <= y < |disk| && y != mid[b].block ensures PlainAt(bufs', disk, y) == PlainAt(bufs, disk, y) {
      OtherHolder(bufs, bufs', b, y, 0);
    }
  }

  /**
   The end of new_block (fs/bitmap.c:103-107): the buffer is taken for the raw number k, without
   the partition offset, cleared, marked dirty and released.
   */
  method ClearRaw(c: Cache, k: nat, zeros: Data) returns (ok: bool)
    requires c.Valid() && k < |c.disk|
    modifies c
    ensures ok <==> Holder(old(c.bufs), k, 0) < |old(c.bufs)| || old(c.ring) != []
    ensures c.Valid() && |c.disk| == |old(c.disk)|
    ensures ok ==> OnlyChanged(old(c.bufs), old(c.disk), c.bufs, c.disk, k, zeros)
  {
    ghost var was := c.bufs;
    var b;
    ok, b := c.AllocBuffer(k);
    if ok {
      DirtyKeeps(was, c.bufs, c.hash, c.ring, c.disk, b, zeros);
      c.bufs := c.bufs[b := c.bufs[b].(data := zeros, dirty := true)];
      c.Brelse(b);
    }
  }

  /** What a buffer taken for block k holds before it is read: the holder's data, or the last user's. */
  function Leftover(bufs: seq<Buffer>, ring: seq<nat>, k: nat): Data
    requires Holder(bufs, k, 0) < |bufs| || (ring != [] && ring[0] < |bufs|)
  {
    var b := Holder(bufs, k, 0);
    if b < |bufs| then bufs[b].data else bufs[ring[0]].data
  }

  /**
   The buffer part of free_block (fs/bitmap.c:51 and 62-63): a buffer is taken for the raw number
   k, not read, marked dirty and released.
   */
  method FreeRaw(c: Cache, k: nat) returns (ok: bool)
    requires c.Valid() && k < |c.disk|
    modifies c
    ensures ok <==> Holder(old(c.bufs), k, 0) < |old(c.bufs)| || old(c.ring) != []
    ensures c.Valid() && |c.disk| == |old(c.disk)| && |c.bufs| == |old(c.bufs)|
    ensures ok ==> (old(c.ring) != [] ==> old(c.ring)[0] < |old(c.bufs)|)
    ensures ok ==> OnlyChanged(old(c.bufs), old(c.disk), c.bufs, c.disk, k, Leftover(old(c.bufs), old(c.ring), k))
    ensures ok && Holder(old(c.bufs), k, 0) == |old(c.bufs)| ==> |c.ring| == |old(c.ring)|
  {
    ghost var was := c.bufs;
    assert c.ring != [] ==> c.ring[0] in c.ring;
    var b;
    ok, b := c.AllocBuffer(k);
    if ok {
      DirtyKeeps(was, c.bufs, c.hash, c.ring, c.disk, b, c.bufs[b].data);
      c.bufs := c.bufs[b := c.bufs[b].(dirty := true)];
      c.Brelse(b);
    }
  }

  /**
   A write of d to raw block k instead of file-system block k, which is raw block k + 128: block k
   reads as d if and only if it did before, every block is kept if and only if raw block k held d
   already, and from 128 on it is block k - 128 of the file system that gets d.
   */
  lemma RawWriteExact(bufs: seq<Buffer>, disk: seq<Data>, bufs': seq<Buffer>, disk': seq<Data>, k: nat, d: Data)
    requires k + NR_FS_START < |disk| && OnlyChanged(bufs, disk, bufs', disk', k, d)
    ensures PlainAt(bufs', disk', k + NR_FS_START) == d <==> PlainAt(bufs, disk, k + NR_FS_START) == d
    ensures SamePlain(bufs, disk, bufs', disk') <==> PlainAt(bufs, disk, k) == d
    ensures OnlyChanged(bufs, disk, bufs', disk', k + NR_FS_START, d)
      <==> PlainAt(bufs, disk, k) == d && PlainAt(bufs, disk, k + NR_FS_START) == d
    ensures k >= NR_FS_START ==> PlainAt(bufs', disk', (k - NR_FS_START) + NR_FS_START) == d
  {
    assert PlainAt(bufs', disk', k) == d;
    assert PlainAt(bufs', disk', k + NR_FS_START) == PlainAt(bufs, disk, k + NR_FS_START);
  }

  /** After block 1 was read and released, freeing block 128 overwrites block 0 with block 1. */
  method FreeRawExample() returns (before: Data, after: Data)
    ensures before == [128] && after == [129]
  {
    var disk: seq<Data> := seq(257, i requires 0 <= i < 257 => [i]);
    var c := new Cache(1, disk);
    before := c.disk[0 + NR_FS_START];
    OneBuffer(c.bufs, c.hash, c.ring, c.disk);
    var ok, b := c.BreadBlock(1);
    c.Brelse(b);
    OneBuffer(c.bufs, c.hash, c.ring, c.disk);
    ok := FreeRaw(c, 128);
    OneBuffer(c.bufs, c.hash, c.ring, c.disk);
    ok, b := c.BreadBlock(0);
    after := c.bufs[b].data;
  }

  lemma OneBuffer(bufs: seq<Buffer>, hash: seq<seq<nat>>, ring: seq<nat>, disk: seq<Data>)
    requires CacheOk(bufs, hash, ring, disk) && |bufs| == 1 && |ring| == 1
    ensures ring[0] == 0 && !Active(bufs, 0)
    ensures forall x :: 0 <= x < |disk| ==> Holder(bufs, x, 0) == 1 && PlainAt(bufs, disk, x) == disk[x]
  {
    assert ring[0] in ring;
  }

  // ------------------------------------------------------------ reads that stop short

  /**
   A read that leaves d in the buffer of a block keeps the cache sound if and only if d is what
   the disk has; HdDriver.ReadComplete says when that is so after eight errors in a row.
   */
  lemma RefillExact(bufs: seq<Buffer>, mid: seq<Buffer>, hash: seq<seq<nat>>, ring: seq<nat>, disk: seq<Data>, b: nat, d: Data)
    requires OneEach(bufs) && CleanShowsDisk(bufs, disk) && |disk| <= MAX_BLOCK
    requires HashOk(mid, hash) && RingOk(mid, ring) && OneEach(mid) && FreeClean(mid)
    requires Active(mid, b) && |mid| == |bufs| && mid == bufs[b := mid[b]] && mid[b].block < |disk| && !mid[b].dirty
    requires Active(bufs, b) ==> bufs[b].block == mid[b].block
    requires !Active(bufs, b) ==> Holder(bufs, mid[b].block, 0) == |bufs|
    ensures CacheOk(mid[b := mid[b].(data := d)], hash, ring, disk) <==> d == disk[mid[b].block]
  {
    var bufs' := mid[b := mid[b].(data := d)];
    if d == disk[mid[b].block] {
      RefillKeeps(bufs, mid, hash, ring, disk, b, d);
    } else {
      assert Active(bufs', b) && !CleanShowsDisk(bufs', disk);
    }
  }

  // ------------------------------------------------------------ a buffer that is never released

  /**
   What file_write does to one block (fs/file_dev.c:90-111) and the next fetch of that block: the
   buffer is edited and kept, the fetch finds it and reads the disk over it (lines 151-152 and
   217-218).  The bytes are still there if and only if a sync came between or the disk had them.
   */
  method WriteThenFetch(c: Cache, block: nat, d: Data, synced: bool) returns (ok: bool, after: Data)
    requires c.Valid() && block + NR_FS_START < |c.disk|
    modifies c
    ensures ok <==> Holder(old(c.bufs), block + NR_FS_START, 0) < |old(c.bufs)| || old(c.ring) != []
    ensures ok ==> after == if synced then d else old(c.disk)[block + NR_FS_START]
    ensures ok ==> (after == d <==> synced || old(c.disk)[block + NR_FS_START] == d)
  {
    var x := block + NR_FS_START;
    after := d;
    var b;
    ok, b := c.BreadBlock(block);
    if !ok {
      return;
    }
    c.Edit(b, d);
    HolderIs(c.bufs, x, b);
    if synced {
      SyncWrites(c.bufs, c.disk, x, b);
      c.SyncDev();
    }
    ok, b := c.BreadBlock(block);
    after := c.bufs[b].data;
  }

  /** A sync writes the data of the buffer that holds a block. */
  lemma SyncWrites(bufs: seq<Buffer>, disk: seq<Data>, x: nat, b: nat)
    requires OneEach(bufs) && FreeClean(bufs) && CleanShowsDisk(bufs, disk)
    requires x < |disk| && Active(bufs, b) && bufs[b].block == x && bufs[b].dirty
    ensures |WriteDirty(bufs, disk, |bufs|)| == |disk| && WriteDirty(bufs, disk, |bufs|)[x] == bufs[b].data
  {
    WriteDirtyAt(bufs, disk, |bufs|, x);
    var c := LastDirty(bufs, x, |bufs|);
    assert Active(bufs, c);
  }

  /** Block 0 holds [128]; [7] is written to it and read back as [128]. */
  method WriteThenFetchExample() returns (after: Data)
    ensures after == [128]
  {
    var disk: seq<Data> := seq(129, i requires 0 <= i < 129 => [i]);
    var c := new Cache(2, disk);
    var ok;
    ok, after := WriteThenFetch(c, 0, [7], false);
  }

  // ------------------------------------------------------------ the dirty flag

  /**
   sync_buffer leaves the dirty flag set, so a buffer that has gone back to the ring is written
   again by the next sync_dev.  For a block that nobody holds this is harmless exactly when the
   last such buffer still agrees with the disk.
   */
  lemma StaleWriteExact(bufs: seq<Buffer>, disk: seq<Data>, x: nat)
    requires x < |disk| && Holder(bufs, x, 0) == |bufs|
    ensures PlainAt(bufs, WriteDirty(bufs, disk, |bufs|), x) == PlainAt(bufs, disk, x)
      <==> (LastDirty(bufs, x, |bufs|) < |bufs| ==> bufs[LastDirty(bufs, x, |bufs|)].data == disk[x])
  {
    WriteDirtyAt(bufs, disk, |bufs|, x);
  }

  /** The cache without its chains, for runs in which the flag stays set. */
  datatype Raw = Raw(bufs: seq<Buffer>, ring: seq<nat>, disk: seq<Data>)

  /** A fetch of a block nobody holds into a clean buffer. */
  function FetchNext(r: Raw, x: nat): Raw
    requires r.ring != [] && r.ring[0] < |r.bufs| && x < |r.disk|
  {
    Raw(r.bufs[r.ring[0] := Buffer(r.disk[x], false, 1, x)], r.ring[1..], r.disk)
  }

  function EditRaw(r: Raw, b: nat, d: Data): Raw
    requires b < |r.bufs|
  {
    r.(bufs := r.bufs[b := r.bufs[b].(data := d, dirty := true)])
  }

  /** The last release, with sync_buffer leaving the flag as it is (lines 97-102 and 196-204). */
  function ReleaseFlagged(r: Raw, b: nat): Raw
    requires b < |r.bufs| && r.bufs[b].block < |r.disk|
  {
    Raw(r.bufs[b := r.bufs[b].(count := 0)], r.ring + [b],
        if r.bufs[b].dirty then r.disk[r.bufs[b].block := r.bufs[b].data] else r.disk)
  }

  /**
   A run that loses a write: block 1 is edited in buffer 1, then again in buffer 0, both are
   released, and a sync writes the older value last.
   */
  lemma StaleWriteRun()
    ensures var free := Buffer([], false, 0, 0);
      var r1 := FetchNext(FetchNext(Raw([free, free], [0, 1], [[0], [0]]), 0), 1);
      var r2 := ReleaseFlagged(ReleaseFlagged(EditRaw(r1, 1, [3]), 0), 1);
      r2.ring == [0, 1] && r2.disk == [[0], [3]] && !r2.bufs[0].dirty &&
      var r3 := ReleaseFlagged(EditRaw(FetchNext(r2, 1), 0, [4]), 0);
      r3.disk == [[0], [4]] && WriteDirty(r3.bufs, r3.disk, 2) == [[0], [3]]
  {
    var free := Buffer([], false, 0, 0);
    var r1 := FetchNext(FetchNext(Raw([free, free], [0, 1], [[0], [0]]), 0), 1);
    assert r1 == Raw([Buffer([0], false, 1, 0), Buffer([0], false, 1, 1)], [], [[0], [0]]);
    var r2 := ReleaseFlagged(ReleaseFlagged(EditRaw(r1, 1, [3]), 0), 1);
    assert r2 == Raw([Buffer([0], false, 0, 0), Buffer([3], true, 0, 1)], [0, 1], [[0], [3]]);
    var r3 := ReleaseFlagged(EditRaw(FetchNext(r2, 1), 0, [4]), 0);
    assert r3 == Raw([Buffer([4], true, 0, 1), Buffer([3], true, 0, 1)], [1, 0], [[0], [4]]);
    assert WriteDirty(r3.bufs, r3.disk, 1) == [[0], [4]];
  }

  // ------------------------------------------------------------ the hash chains

  datatype Links = Links(head: Option<nat>, next: map<nat, nat>, prev: map<nat, nat>)

  ghost predicate IsChain(v: Links, l: seq<nat>) {
    v.head == Head(l) && Chain(v.next, v.prev, l)
  }

  /** Lines 77-80: what is before b and what is behind it are joined. */
  function Joined(v: Links, b: nat): Links {
    var p, n := Link(v.prev, b), Link(v.next, b);
    v.(prev := if n.Some? then SetLink(v.prev, n.value, p) else v.prev,
       next := if p.Some? then SetLink(v.next, p.value, n) else v.next)
  }

  /** free_active_hash (lines 75-95); nothing when a null link is followed. */
  function WrittenUnhash(v: Links, b: nat): Option<Links> {
    var w := Joined(v, b);
    if w.head == Some(b) then Some(w.(head := Link(w.next, b)))
    else if Link(w.next, b).None? || Link(w.prev, b).None? then None
    else Some(Joined(w, b))
  }

  /**
   Lines 92-93 follow a null link exactly when the buffer is the tail of its chain and not its
   head; in every other case the chain has lost exactly that buffer.
   */
  lemma UnhashExact(v: Links, l: seq<nat>, i: nat)
    requires IsChain(v, l) && i < |l|
    ensures WrittenUnhash(v, l[i]).None? <==> 0 < i == |l| - 1
    ensures WrittenUnhash(v, l[i]).Some? ==> IsChain(WrittenUnhash(v, l[i]).value, Without(l, l[i]))
  {
    var w := Joined(v, l[i]);
    assert Chains.NextOk(v.next, l, i) && Chains.PrevOk(v.prev, l, i);
    JoinedChain(v, l, i);
    WithoutAt(l, i);
    if 0 < i < |l| - 1 { JoinedTwice(v, l[i]); }
  }

  /**
   A second release of the same buffer (fs/bitmap.c:60 and 100 release the map block on every
   use) runs through free_active_hash again: it follows a null link if and only if the buffer
   was the head of its chain, and otherwise changes nothing.
   */
  lemma SecondUnhashExact(v: Links, l: seq<nat>, i: nat)
    requires IsChain(v, l) && i < |l| && WrittenUnhash(v, l[i]).Some?
    ensures var w := WrittenUnhash(v, l[i]).value;
      && (WrittenUnhash(w, l[i]).None? <==> i == 0)
      && (i > 0 ==> WrittenUnhash(w, l[i]) == Some(w))
  {
    UnhashExact(v, l, i);
    JoinedChain(v, l, i);
    assert Chains.NextOk(v.next, l, i) && Chains.PrevOk(v.prev, l, i);
    if i == 0 {
      if |l| > 1 { assert l[1] != l[0]; }
    } else {
      JoinedTwice(v, l[i]);
      JoinedTwice(Joined(v, l[i]), l[i]);
    }
  }

  /** Lines 92-93 repeat lines 77-80. */
  lemma JoinedTwice(v: Links, b: nat)
    requires Link(v.next, b).Some? && Link(v.prev, b).Some? && v.next[b] != b && v.prev[b] != b
    ensures Joined(Joined(v, b), b) == Joined(v, b)
  {
    var n, p, w := v.next[b], v.prev[b], Joined(v, b);
    assert w.next[p := n] == w.next && w.prev[n := p] == w.prev;
  }

  /** The removed buffer keeps its own links. */
  lemma JoinedChain(v: Links, l: seq<nat>, i: nat)
    requires IsChain(v, l) && i < |l|
    ensures var w := Joined(v, l[i]);
      && Chain(w.next, w.prev, Without(l, l[i])) && w.head == v.head
      && Link(w.next, l[i]) == Behind(l, i) && Link(w.prev, l[i]) == Before(l, i)
  {
    assert Chains.NextOk(v.next, l, i) && Chains.PrevOk(v.prev, l, i);
    WithoutMeaning(l, l[i]);
    forall j: nat ensures Chains.NextOk(Joined(v, l[i]).next, Without(l, l[i]), j) {
      NextJoined(v.next, l, i, j);
    }
    forall j: nat ensures Chains.PrevOk(Joined(v, l[i]).prev, Without(l, l[i]), j) {
      PrevJoined(v.prev, l, i, j);
    }
  }

  lemma NextJoined(next: map<nat, nat>, l: seq<nat>, i: nat, j: nat)
    requires Reads(next, l) && i < |l|
    ensures Chains.NextOk(if i > 0 then SetLink(next, l[i - 1], Behind(l, i)) else next, Without(l, l[i]), j)
  {
    var k := Neighbours(l, i, j);
    if k < |l| {
      assert Chains.NextOk(next, l, k);
      if i > 0 && k != i - 1 { assert l[k] != l[i - 1]; }
    }
  }

  lemma PrevJoined(prev: map<nat, nat>, l: seq<nat>, i: nat, j: nat)
    requires Distinct(l) && (forall k: nat :: Chains.PrevOk(prev, l, k)) && i < |l|
    ensures Chains.PrevOk(if i + 1 < |l| then SetLink(prev, l[i + 1], Before(l, i)) else prev, Without(l, l[i]), j)
  {
    var k := Neighbours(l, i, j);
    if k < |l| {
      assert Chains.PrevOk(prev, l, k);
      if i + 1 < |l| && k != i + 1 { assert l[k] != l[i + 1]; }
    }
  }

  /** Where the entry at j was before entry i left, and what its neighbours are now. */
  lemma Neighbours(l: seq<nat>, i: nat, j: nat) returns (k: nat)
    requires Distinct(l) && i < |l|
    ensures var w := Without(l, l[i]);
      && k == (if j < i then j else j + 1) && |w| == |l| - 1
      && (k < |l| ==> w[j] == l[k])
      && (k < |l| ==> Before(w, j) == Before(l, if j == i then i else k))
      && (k < |l| ==> Behind(w, j) == Behind(l, if j + 1 == i then i else k))
  {
    WithoutAt(l, i);
    k := if j < i then j else j + 1;
    if k < |l| { CutNeighbours(l, Without(l, l[i]), i, j, k); }
  }

  lemma CutNeighbours(l: seq<nat>, w: seq<nat>, i: nat, j: nat, k: nat)
    requires i < |l| && w == l[..i] + l[i + 1..] && k == (if j < i then j else j + 1) && k < |l|
    ensures |w| == |l| - 1 && w[j] == l[k]
    ensures Before(w, j) == Before(l, if j == i then i else k)
    ensures Behind(w, j) == Behind(l, if j + 1 == i then i else k)
  {
    assert forall x :: 0 <= x < |w| ==> w[x] == l[if x < i then x else x + 1];
  }

  /** update_active_hash (lines 59-71): the links of the new buffer are not cleared first. */
  function WrittenHash(v: Links, b: nat): Links {
    match v.head
    case None => v.(head := Some(b))
    case Some(h) =>
      match Link(v.next, h)
      case Some(n) => v.(prev := v.prev[n := b][b := h], next := v.next[b := n][h := b])
      case None => v.(prev := v.prev[b := h], next := v.next[h := b])
  }

  /**
   The buffer joins the chain if and only if the links it still has are null where they are not
   overwritten: both on an empty chain, next on a chain of one.
   */
  lemma HashExact(v: Links, l: seq<nat>, b: nat)
    requires IsChain(v, l) && b !in l
    ensures IsChain(WrittenHash(v, b), Insert(l, b))
      <==> (|l| <= 1 ==> b !in v.next) && (l == [] ==> b !in v.prev)
  {
    var w, m := WrittenHash(v, b), Insert(l, b);
    InsertMeaning(l, b);
    if l != [] { assert Chains.NextOk(v.next, l, 0) && Chains.PrevOk(v.prev, l, 0); }
    if (|l| <= 1 ==> b !in v.next) && (l == [] ==> b !in v.prev) {
      forall j: nat ensures Chains.NextOk(w.next, m, j) && Chains.PrevOk(w.prev, m, j) {
        var k := if j <= 1 then 0 else j - 1;
        assert Chains.NextOk(v.next, l, k) && Chains.PrevOk(v.prev, l, k);
        assert Chains.NextOk(v.next, l, 1) && Chains.PrevOk(v.prev, l, 1);
      }
    } else {
      var j := |m| - 1;
      assert !(Chains.NextOk(w.next, m, j) && Chains.PrevOk(w.prev, m, j));
    }
  }

  // ------------------------------------------------------------ the free ring

  /** Taking the first free buffer (lines 154-155 and 50-54): the new head and links. */
  function WrittenTakeFree(k: Rings.Links, head: nat): (r: (nat, Rings.Links))
    requires head in k.next && head in k.prev
  {
    var n, p := k.next[head], k.prev[head];
    var next := k.next[p := n];
    var k' := Rings.Links(next, k.prev[(if head in next then next[head] else n) := p]);
    (n, k')
  }

  /** The first buffer leaves the ring, unless it is the only one: then it stays. */
  lemma TakeFreeExact(k: Rings.Links, l: seq<nat>)
    requires Rings.Ring(k, l)
    ensures l[0] in k.next && l[0] in k.prev
    ensures var r := WrittenTakeFree(k, l[0]);
      if |l| == 1 then r == (l[0], k) else r.0 == l[1] && Rings.Ring(r.1, l[1..])
  {
    assert Rings.NextOk(k.next, l, 0) && Rings.PrevOk(k.prev, l, 0);
    var r, m := WrittenTakeFree(k, l[0]), l[1..];
    if |l| == 1 {
      assert k.next[l[0] := l[0]] == k.next && k.prev[l[0] := l[0]] == k.prev;
    } else {
      forall i: nat ensures Rings.NextOk(r.1.next, m, i) && Rings.PrevOk(r.1.prev, m, i) {
        assert Rings.NextOk(k.next, l, i + 1) && Rings.PrevOk(k.prev, l, i + 1);
      }
      assert Distinct(m);
    }
  }

  /** The buffers that n fetches of blocks nobody holds get, nothing ever coming back (line 204). */
  ghost function HandedOut(k: Rings.Links, l: seq<nat>, n: nat): (out: seq<nat>)
    requires Rings.Ring(k, l)
    ensures |out| == n
    decreases n
  {
    if n == 0 then [] else
    TakeFreeExact(k, l);
    [l[0]] + HandedOut(WrittenTakeFree(k, l[0]).1, if |l| == 1 then l else l[1..], n - 1)
  }

  /** Each buffer once, and then the last one again and again. */
  lemma {:induction false} HandedOutIs(k: Rings.Links, l: seq<nat>, n: nat, i: nat)
    requires Rings.Ring(k, l) && i < n
    ensures HandedOut(k, l, n)[i] == l[if i < |l| then i else |l| - 1]
    decreases n
  {
    TakeFreeExact(k, l);
    if i > 0 {
      HandedOutIs(WrittenTakeFree(k, l[0]).1, if |l| == 1 then l else l[1..], n - 1, i - 1);
    }
  }

  /** Different fetches get different buffers if and only if there are at most as many as buffers. */
  lemma HandedOutDistinct(k: Rings.Links, l: seq<nat>, n: nat)
    requires Rings.Ring(k, l)
    ensures Distinct(HandedOut(k, l, n)) <==> n <= |l|
  {
    var out := HandedOut(k, l, n);
    forall i | 0 <= i < n ensures out[i] == l[if i < |l| then i else |l| - 1] {
      HandedOutIs(k, l, n, i);
    }
    if n > |l| { assert out[|l| - 1] == out[|l|]; }
  }
}
