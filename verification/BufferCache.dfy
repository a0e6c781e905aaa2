/**
 The buffer cache (drivers/block_buffer.c): hash chains over the buffers in use, a ring of
 free buffers, and the agreement of every run with a plain array of blocks.
 */
module BufferCache {
  import opened Lists

  const BUFFER_HASH_NO: nat := 400
  const NR_FS_START: nat := 128
  const MAX_BLOCK: nat := 65536

  type Data = seq<nat>

  /** struct buffer_head without its links. */
  datatype Buffer = Buffer(data: Data, dirty: bool, count: int, block: nat)

  function Bucket(block: nat): (j: nat)
    ensures j < BUFFER_HASH_NO
  {
    block % BUFFER_HASH_NO
  }

  predicate Active(bufs: seq<Buffer>, b: nat) {
    b < |bufs| && bufs[b].count > 0
  }

  /** Bucket j lists the active buffers whose block hashes to j, each once. */
  ghost predicate ChainOk(bufs: seq<Buffer>, chain: seq<nat>, j: nat) {
    && Distinct(chain)
    && forall b: nat :: b in chain <==> Active(bufs, b) && Bucket(bufs[b].block) == j
  }

  ghost predicate HashOk(bufs: seq<Buffer>, hash: seq<seq<nat>>) {
    |hash| == BUFFER_HASH_NO && forall j :: 0 <= j < BUFFER_HASH_NO ==> ChainOk(bufs, hash[j], j)
  }

  /** The ring lists the buffers that are not in use, each once. */
  ghost predicate RingOk(bufs: seq<Buffer>, ring: seq<nat>) {
    Distinct(ring) && forall b: nat :: b in ring <==> b < |bufs| && !Active(bufs, b)
  }

  /** At most one active buffer carries a given block number. */
  predicate OneEach(bufs: seq<Buffer>) {
    forall b, c :: 0 <= b < |bufs| && 0 <= c < |bufs| && Active(bufs, b) && Active(bufs, c) && b != c ==>
      bufs[b].block != bufs[c].block
  }

  /** Buffers not in use are clean: whatever was edited has been written back. */
  predicate FreeClean(bufs: seq<Buffer>) {
    forall b :: 0 <= b < |bufs| ==> Active(bufs, b) || !bufs[b].dirty
  }

  /** A buffer in use that was not edited shows the disk. */
  predicate CleanShowsDisk(bufs: seq<Buffer>, disk: seq<Data>) {
    forall b :: 0 <= b < |bufs| && Active(bufs, b) ==>
      bufs[b].block < |disk| && (!bufs[b].dirty ==> bufs[b].data == disk[bufs[b].block])
  }

  /** The active buffer with a block number, by a scan of all buffers; |bufs| if there is none. */
  function Holder(bufs: seq<Buffer>, x: nat, from: nat): (b: nat)
    requires from <= |bufs|
    ensures from <= b <= |bufs|
    ensures b < |bufs| ==> Active(bufs, b) && bufs[b].block == x
    ensures b == |bufs| ==> forall c :: from <= c < |bufs| && Active(bufs, c) ==> bufs[c].block != x
    decreases |bufs| - from
  {
    if from == |bufs| then from
    else if bufs[from].count > 0 && bufs[from].block == x then from
    else Holder(bufs, x, from + 1)
  }

  /** The plain block array a run of the cache stands for. */
  function PlainAt(bufs: seq<Buffer>, disk: seq<Data>, x: nat): Data
    requires x < |disk|
  {
    var b := Holder(bufs, x, 0);
    if b < |bufs| then bufs[b].data else disk[x]
  }

  lemma HolderIs(bufs: seq<Buffer>, x: nat, b: nat)
    requires OneEach(bufs) && Active(bufs, b) && bufs[b].block == x
    ensures Holder(bufs, x, 0) == b
  {
  }

  /** A scan of the chain finds a buffer exactly when a scan of all buffers does, and the same one. */
  lemma ChainAgrees(bufs: seq<Buffer>, hash: seq<seq<nat>>, x: nat, b: nat)
    requires HashOk(bufs, hash) && OneEach(bufs) && b < |bufs|
    ensures b in hash[Bucket(x)] && bufs[b].block == x <==> Holder(bufs, x, 0) == b
  {
    assert ChainOk(bufs, hash[Bucket(x)], Bucket(x));
    if b in hash[Bucket(x)] && bufs[b].block == x { HolderIs(bufs, x, b); }
  }

  lemma ChainMisses(bufs: seq<Buffer>, hash: seq<seq<nat>>, x: nat)
    requires HashOk(bufs, hash)
    requires forall b :: b in hash[Bucket(x)] ==> b < |bufs| && bufs[b].block != x
    ensures Holder(bufs, x, 0) == |bufs|
  {
    assert ChainOk(bufs, hash[Bucket(x)], Bucket(x));
  }

  /** A free buffer taken into use for block x. */
  lemma ActivateKeeps(bufs: seq<Buffer>, hash: seq<seq<nat>>, ring: seq<nat>, b: nat, x: nat, d: Data)
    requires HashOk(bufs, hash) && RingOk(bufs, ring) && ring != [] && ring[0] == b
    requires OneEach(bufs) && Holder(bufs, x, 0) == |bufs|
    ensures b < |bufs| && !Active(bufs, b)
    ensures var bufs' := bufs[b := Buffer(d, false, 1, x)];
      && HashOk(bufs', hash[Bucket(x) := Insert(hash[Bucket(x)], b)]) && RingOk(bufs', ring[1..]) && OneEach(bufs')
  {
    assert b in ring;
    var bufs' := bufs[b := Buffer(d, false, 1, x)];
    var k := Bucket(x);
    var hash' := hash[k := Insert(hash[k], b)];
    assert ChainOk(bufs, hash[k], k);
    InsertMeaning(hash[k], b);
    forall j | 0 <= j < BUFFER_HASH_NO ensures ChainOk(bufs', hash'[j], j) {
      assert ChainOk(bufs, hash[j], j);
    }
    assert ring == [b] + ring[1..];
    assert forall i :: 1 <= i < |ring| ==> ring[i] != ring[0];
    assert forall c: nat :: c in ring[1..] <==> c in ring && c != b;
  }

  /** An active buffer given back. */
  lemma ReleaseKeeps(bufs: seq<Buffer>, hash: seq<seq<nat>>, ring: seq<nat>, b: nat)
    requires HashOk(bufs, hash) && RingOk(bufs, ring) && OneEach(bufs) && Active(bufs, b)
    ensures var bufs' := bufs[b := bufs[b].(count := 0, dirty := false)];
      var k := Bucket(bufs[b].block);
      && HashOk(bufs', hash[k := Without(hash[k], b)]) && RingOk(bufs', ring + [b]) && OneEach(bufs')
  {
    var bufs' := bufs[b := bufs[b].(count := 0, dirty := false)];
    var k := Bucket(bufs[b].block);
    var hash' := hash[k := Without(hash[k], b)];
    assert ChainOk(bufs, hash[k], k);
    WithoutMeaning(hash[k], b);
    forall j | 0 <= j < BUFFER_HASH_NO ensures ChainOk(bufs', hash'[j], j) {
      assert ChainOk(bufs, hash[j], j);
    }
  }

  /** Block x has value d, every other block the value it had. */
  ghost predicate OnlyChanged(bufs: seq<Buffer>, disk: seq<Data>, bufs': seq<Buffer>, disk': seq<Data>, x: nat, d: Data) {
    && |disk| == |disk'|
    && forall y :: 0 <= y < |disk| ==> PlainAt(bufs', disk', y) == if y == x then d else PlainAt(bufs, disk, y)
  }

  /** No block changes its value. */
  ghost predicate SamePlain(bufs: seq<Buffer>, disk: seq<Data>, bufs': seq<Buffer>, disk': seq<Data>) {
    && |disk| == |disk'|
    && forall y :: 0 <= y < |disk| ==> PlainAt(bufs', disk', y) == PlainAt(bufs, disk, y)
  }

  ghost predicate CacheOk(bufs: seq<Buffer>, hash: seq<seq<nat>>, ring: seq<nat>, disk: seq<Data>) {
    && HashOk(bufs, hash) && RingOk(bufs, ring) && OneEach(bufs)
    && FreeClean(bufs) && CleanShowsDisk(bufs, disk) && |disk| <= MAX_BLOCK
  }

  class Cache {
    var bufs: seq<Buffer>
    var hash: seq<seq<nat>>
    var ring: seq<nat>
    var disk: seq<Data>

    ghost predicate Valid()
      reads this
    {
      CacheOk(bufs, hash, ring, disk)
    }

    /** buffer_init (lines 267-296): n free buffers in a ring. */
    constructor (n: nat, disk: seq<Data>)
      requires |disk| <= MAX_BLOCK
      ensures Valid() && this.disk == disk && |bufs| == n && |ring| == n
      ensures (forall i :: 0 <= i < n ==> ring[i] == i && bufs[i].count == 0 && !bufs[i].dirty) && forall j :: 0 <= j < |hash| ==> hash[j] == []
      ensures forall x :: 0 <= x < |disk| ==> PlainAt(bufs, disk, x) == disk[x]
    {
      this.disk := disk;
      bufs := seq(n, i => Buffer([], false, 0, 0));
      hash := seq(BUFFER_HASH_NO, j => []);
      ring := seq(n, i => i);
      new;
      assert forall j :: 0 <= j < BUFFER_HASH_NO ==> hash[j] == [];
      assert forall b: nat :: b in ring <==> b < n by {
        forall b: nat | b < n ensures b in ring { assert ring[b] == b; }
      }
    }

    /** get_hash_buffer (lines 123-143): walks the chain of the block and takes a reference. */
    method GetHashBuffer(x: nat) returns (b: nat)
      requires Valid() && x < MAX_BLOCK
      modifies `bufs
      ensures b == Holder(old(bufs), x, 0)
      ensures b < |old(bufs)| ==> bufs == old(bufs)[b := old(bufs)[b].(count := old(bufs)[b].count + 1)]
      ensures b == |old(bufs)| ==> bufs == old(bufs)
    {
      var chain := hash[Bucket(x)];
      assert ChainOk(bufs, chain, Bucket(x));
      assert forall j :: 0 <= j < |chain| ==> chain[j] in chain;
      var i := 0;
      while i < |chain|
        invariant 0 <= i <= |chain| && bufs == old(bufs)
        invariant forall j :: 0 <= j < |chain| ==> chain[j] < |bufs|
        invariant forall j :: 0 <= j < i ==> bufs[chain[j]].block != x
      {
        b := chain[i];
        assert b in chain;
        if bufs[b].block == x {
          ChainAgrees(bufs, hash, x, b);
          bufs := bufs[b := bufs[b].(count := bufs[b].count + 1)];
          return;
        }
        i := i + 1;
      }
      ChainMisses(bufs, hash, x);
      b := |bufs|;
    }

    /**
     alloc_buffer (lines 146-187): the buffer that holds the block, or the next of the ring.  A
     free buffer is clean, so its contents need no writing back.  Without a free buffer the
     caller would sleep.
     */
    method AllocBuffer(x: nat) returns (ok: bool, b: nat)
      requires Valid() && x < |disk|
      modifies `bufs, `hash, `ring
      ensures ok <==> Holder(old(bufs), x, 0) < |old(bufs)| || old(ring) != []
      ensures !ok ==> bufs == old(bufs) && hash == old(hash) && ring == old(ring)
      ensures ok ==> b < |bufs| == |old(bufs)| && Active(bufs, b) && bufs[b].block == x
      ensures ok ==> HashOk(bufs, hash) && RingOk(bufs, ring) && OneEach(bufs) && FreeClean(bufs)
      ensures ok ==> bufs == old(bufs)[b := bufs[b]]
      ensures ok && Holder(old(bufs), x, 0) < |old(bufs)| ==>
        b == Holder(old(bufs), x, 0) && bufs[b] == old(bufs)[b].(count := old(bufs)[b].count + 1)
      ensures ok && Holder(old(bufs), x, 0) == |old(bufs)| ==>
        b == old(ring)[0] && !Active(old(bufs), b) && bufs[b].count == 1 && bufs[b].data == old(bufs)[b].data
      ensures ok ==> |ring| == |old(ring)| - (if Holder(old(bufs), x, 0) == |old(bufs)| then 1 else 0)
      ensures ok && Holder(old(bufs), x, 0) == |old(bufs)| ==>
        ring == old(ring)[1..] && !bufs[b].dirty && |old(hash)| == |hash| == 400
        && hash == old(hash)[x % 400 := Insert(old(hash)[x % 400], b)]
      ensures ok && Holder(old(bufs), x, 0) < |old(bufs)| ==> ring == old(ring) && hash == old(hash)
    {
      b := GetHashBuffer(x);
      if b < |bufs| {
        CountKeeps(old(bufs), hash, ring, b);
        return true, b;
      }
      if ring == [] {
        return false, b;
      }
      b := ring[0];
      assert b in ring;
      ActivateKeeps(bufs, hash, ring, b, x, bufs[b].data);
      ring := ring[1..];
      bufs := bufs[b := Buffer(bufs[b].data, false, 1, x)];
      hash := hash[Bucket(x) := Insert(hash[Bucket(x)], b)];
      ok := true;
    }

    /**
     bread_block (lines 210-225): the buffer shows the block as it is on disk, and every other
     block reads as before.
     */
    method BreadBlock(block: nat) returns (ok: bool, b: nat)
      requires Valid() && block + NR_FS_START < |disk|
      modifies `bufs, `hash, `ring
      ensures Valid() && disk == old(disk)
      ensures ok <==> Holder(old(bufs), block + NR_FS_START, 0) < |old(bufs)| || old(ring) != []
      ensures !ok ==> bufs == old(bufs)
      ensures ok ==> Active(bufs, b) && bufs[b].block == block + NR_FS_START && bufs[b].data == disk[block + NR_FS_START]
      ensures ok ==> |bufs| == |old(bufs)| && bufs == old(bufs)[b := bufs[b]]
      ensures ok && Holder(old(bufs), block + NR_FS_START, 0) == |old(bufs)| ==>
        !Active(old(bufs), b) && bufs[b].count == 1 && !bufs[b].dirty && |ring| == |old(ring)| - 1
      ensures ok && Holder(old(bufs), block + NR_FS_START, 0) < |old(bufs)| ==>
        && b == Holder(old(bufs), block + NR_FS_START, 0) && ring == old(ring)
        && bufs[b].count == old(bufs)[b].count + 1 && bufs[b].dirty == old(bufs)[b].dirty
      ensures ok ==> OnlyChanged(old(bufs), disk, bufs, disk, block + NR_FS_START, disk[block + NR_FS_START])
    {
      var x := block + NR_FS_START;
      ok, b := AllocBuffer(x);
      if !ok {
        return;
      }
      ghost var mid := bufs;
      bufs := bufs[b := bufs[b].(data := disk[x])];
      RefillKeeps(old(bufs), mid, hash, ring, disk, b, disk[x]);
    }

    /** Changing the data of a buffer in use and marking it dirty. */
    method Edit(b: nat, d: Data)
      requires Valid() && Active(bufs, b)
      modifies `bufs
      ensures Valid() && |bufs| == |old(bufs)| && Active(bufs, b)
      ensures bufs == old(bufs)[b := old(bufs)[b].(data := d, dirty := true)]
      ensures OnlyChanged(old(bufs), disk, bufs, disk, bufs[b].block, d)
    {
      EditKeeps(bufs, hash, ring, disk, b, d);
      bufs := bufs[b := bufs[b].(data := d, dirty := true)];
    }

    /**
     brelse (lines 190-207): the last reference writes an edited buffer back, takes it off its
     chain and returns it to the ring; no block changes its value.
     */
    method Brelse(b: nat)
      requires Valid() && Active(bufs, b)
      modifies this
      ensures Valid() && |bufs| == |old(bufs)| && |disk| == |old(disk)|
      ensures bufs[b].count == old(bufs[b].count) - 1 && bufs[b].block == old(bufs[b].block)
      ensures bufs[b].data == old(bufs[b].data)
      ensures bufs == old(bufs)[b := bufs[b]]
      ensures |ring| == |old(ring)| + (if old(bufs[b].count) == 1 then 1 else 0)
      ensures ring == if old(bufs[b].count) == 1 then old(ring) + [b] else old(ring)
      ensures old(bufs[b].block) < |old(disk)| && disk ==
        if old(bufs[b].count) == 1 && old(bufs[b].dirty) then old(disk)[old(bufs[b].block) := old(bufs[b].data)] else old(disk)
      ensures bufs[b].dirty == (old(bufs[b].dirty) && old(bufs[b].count) > 1)
      ensures SamePlain(old(bufs), old(disk), bufs, disk)
    {
      if bufs[b].count > 1 {
        CountDownKeeps(bufs, hash, ring, disk, b);
        bufs := bufs[b := bufs[b].(count := bufs[b].count - 1)];
        return;
      }
      ghost var was, disk0 := bufs, disk;
      var x := bufs[b].block;
      if bufs[b].dirty {
        disk := disk[x := bufs[b].data];
      }
      ReleaseKeeps(bufs, hash, ring, b);
      bufs := bufs[b := bufs[b].(count := 0, dirty := false)];
      hash := hash[Bucket(x) := Without(hash[Bucket(x)], b)];
      ring := ring + [b];
      ReleasedPlain(was, bufs, disk0, disk, b);
    }

    /** sync_dev (lines 104-121): every dirty buffer is written; no block changes its value. */
    method SyncDev()
      requires Valid()
      modifies `disk
      ensures Valid() && disk == WriteDirty(bufs, old(disk), |bufs|)
      ensures SamePlain(bufs, old(disk), bufs, disk)
    {
      for i := 0 to |bufs|
        invariant |disk| == |old(disk)| && disk == WriteDirty(bufs, old(disk), i)
      {
        if bufs[i].dirty {
          assert Active(bufs, i);
          disk := disk[bufs[i].block := bufs[i].data];
        }
      }
      SyncKeeps(bufs, old(disk), |bufs|);
    }
  }

  // ------------------------------------------------------------ runs against a plain array

  datatype Op = Fetch(block: nat) | Write(block: nat, data: Data) | Release(block: nat)

  /** Fetches of a block are separated by its release; only fetched blocks are written or released. */
  predicate Allowed(op: Op, held: set<nat>, size: nat) {
    match op
    case Fetch(x) => x + NR_FS_START < size && x !in held
    case Write(x, _) => x in held
    case Release(x) => x in held
  }

  function HeldAfter(op: Op, held: set<nat>): set<nat> {
    match op
    case Fetch(x) => held + {x}
    case Write(_, _) => held
    case Release(x) => held - {x}
  }

  predicate Disciplined(ops: seq<Op>, held: set<nat>, size: nat)
    decreases |ops|
  {
    ops == [] || (Allowed(ops[0], held, size) && Disciplined(ops[1..], HeldAfter(ops[0], held), size))
  }

  /** The most blocks held at once. */
  function Peak(ops: seq<Op>, held: set<nat>): nat
    decreases |ops|
  {
    if ops == [] then |held| else
    var rest := Peak(ops[1..], HeldAfter(ops[0], held));
    if |held| > rest then |held| else rest
  }

  /** What one operation returns, and does, on a plain array of blocks. */
  function PlainOut(op: Op, plain: seq<Data>): seq<Data> {
    if op.Fetch? && op.block + NR_FS_START < |plain| then [plain[op.block + NR_FS_START]] else []
  }

  function PlainAfter(op: Op, plain: seq<Data>): seq<Data> {
    if op.Write? && op.block + NR_FS_START < |plain| then plain[op.block + NR_FS_START := op.data] else plain
  }

  /** What a plain array of blocks returns for the fetches of a script. */
  function PlainRun(ops: seq<Op>, plain: seq<Data>): seq<Data>
    decreases |ops|
  {
    if ops == [] then [] else PlainOut(ops[0], plain) + PlainRun(ops[1..], PlainAfter(ops[0], plain))
  }

  /** held says which buffer was handed out for each fetched block. */
  ghost predicate HeldOk(bufs: seq<Buffer>, held: map<nat, nat>, size: nat) {
    (forall x: nat :: Handed(bufs, held, size, x)) && forall b: nat :: Known(bufs, held, b)
  }

  predicate Handed(bufs: seq<Buffer>, held: map<nat, nat>, size: nat, x: nat) {
    x in held ==>
      && x + NR_FS_START < size && held[x] < |bufs|
      && bufs[held[x]].count == 1 && bufs[held[x]].block == x + NR_FS_START
  }

  predicate Known(bufs: seq<Buffer>, held: map<nat, nat>, b: nat) {
    Active(bufs, b) ==>
      && bufs[b].block >= NR_FS_START && bufs[b].block - NR_FS_START in held
      && held[bufs[b].block - NR_FS_START] == b
  }

  ghost predicate Shows(bufs: seq<Buffer>, disk: seq<Data>, plain: seq<Data>) {
    |plain| == |disk| && forall y :: 0 <= y < |disk| ==> PlainAt(bufs, disk, y) == plain[y]
  }

  /** The cache stands for the plain array, with the held blocks handed out. */
  ghost predicate Tracks(c: Cache, held: map<nat, nat>, plain: seq<Data>)
    reads c
  {
    && c.Valid() && HeldOk(c.bufs, held, |c.disk|) && Shows(c.bufs, c.disk, plain)
    && |c.ring| + |held.Keys| == |c.bufs|
  }

  /**
   Every disciplined run of fetches, edits and releases that never holds more blocks than there
   are buffers returns exactly what a plain array of blocks would.
   */
  method RunScript(c: Cache, ops: seq<Op>) returns (out: seq<Data>)
    requires c.Valid() && HeldOk(c.bufs, map[], |c.disk|) && |c.ring| == |c.bufs|
    requires Disciplined(ops, {}, |c.disk|) && Peak(ops, {}) <= |c.bufs|
    modifies c
    ensures c.Valid() && out == PlainRun(ops, old(c.disk))
  {
    NobodyHolds(c.bufs, c.disk);
    out := RunFrom(c, ops, map[], c.disk);
  }

  /** The rest of a run, with the blocks already held. */
  method RunFrom(c: Cache, ops: seq<Op>, held: map<nat, nat>, ghost plain: seq<Data>) returns (out: seq<Data>)
    requires Tracks(c, held, plain)
    requires Disciplined(ops, held.Keys, |c.disk|) && Peak(ops, held.Keys) <= |c.bufs|
    modifies c
    ensures c.Valid() && out == PlainRun(ops, plain)
    decreases |ops|
  {
    if ops == [] {
      return [];
    }
    PeakGrows(ops[1..], HeldAfter(ops[0], held.Keys));
    var first, held' := DoOp(c, ops[0], held, plain);
    var rest := RunFrom(c, ops[1..], held', PlainAfter(ops[0], plain));
    out := first + rest;
  }

  lemma PeakGrows(ops: seq<Op>, held: set<nat>)
    ensures Peak(ops, held) >= |held|
  {
  }

  lemma CountKeeps(bufs: seq<Buffer>, hash: seq<seq<nat>>, ring: seq<nat>, b: nat)
    requires HashOk(bufs, hash) && RingOk(bufs, ring) && OneEach(bufs) && FreeClean(bufs) && Active(bufs, b)
    ensures var bufs' := bufs[b := bufs[b].(count := bufs[b].count + 1)];
      HashOk(bufs', hash) && RingOk(bufs', ring) && OneEach(bufs') && FreeClean(bufs')
  {
    SameUse(bufs, bufs[b := bufs[b].(count := bufs[b].count + 1)], hash, ring);
  }

  /** Who is active with which block decides everything about chains and ring. */
  lemma SameUse(bufs: seq<Buffer>, bufs': seq<Buffer>, hash: seq<seq<nat>>, ring: seq<nat>)
    requires HashOk(bufs, hash) && RingOk(bufs, ring) && OneEach(bufs) && |bufs'| == |bufs|
    requires forall c: nat :: c < |bufs| ==> (Active(bufs', c) <==> Active(bufs, c)) && bufs'[c].block == bufs[c].block
    ensures HashOk(bufs', hash) && RingOk(bufs', ring) && OneEach(bufs')
    ensures forall x :: Holder(bufs', x, 0) == Holder(bufs, x, 0)
  {
    forall j | 0 <= j < BUFFER_HASH_NO ensures ChainOk(bufs', hash[j], j) {
      assert ChainOk(bufs, hash[j], j);
    }
    forall x: nat ensures Holder(bufs', x, 0) == Holder(bufs, x, 0) {
      SameHolder(bufs, bufs', x, 0);
    }
  }

  lemma {:induction false} SameHolder(bufs: seq<Buffer>, bufs': seq<Buffer>, x: nat, from: nat)
    requires |bufs'| == |bufs| && from <= |bufs|
    requires forall c: nat :: c < |bufs| ==> (Active(bufs', c) <==> Active(bufs, c)) && bufs'[c].block == bufs[c].block
    ensures Holder(bufs', x, from) == Holder(bufs, x, from)
    decreases |bufs| - from
  {
    if from < |bufs| {
      assert Active(bufs', from) <==> Active(bufs, from);
      SameHolder(bufs, bufs', x, from + 1);
    }
  }

  lemma CountDownKeeps(bufs: seq<Buffer>, hash: seq<seq<nat>>, ring: seq<nat>, disk: seq<Data>, b: nat)
    requires CacheOk(bufs, hash, ring, disk) && Active(bufs, b) && bufs[b].count > 1
    ensures var bufs' := bufs[b := bufs[b].(count := bufs[b].count - 1)];
      && CacheOk(bufs', hash, ring, disk)
      && SamePlain(bufs, disk, bufs', disk)
  {
    SameUse(bufs, bufs[b := bufs[b].(count := bufs[b].count - 1)], hash, ring);
  }

  lemma EditKeeps(bufs: seq<Buffer>, hash: seq<seq<nat>>, ring: seq<nat>, disk: seq<Data>, b: nat, d: Data)
    requires CacheOk(bufs, hash, ring, disk) && Active(bufs, b)
    ensures var bufs' := bufs[b := bufs[b].(data := d, dirty := true)];
      && CacheOk(bufs', hash, ring, disk)
      && OnlyChanged(bufs, disk, bufs', disk, bufs[b].block, d)
  {
    SameUse(bufs, bufs[b := bufs[b].(data := d, dirty := true)], hash, ring);
    HolderIs(bufs, bufs[b].block, b);
  }

  /** A buffer taken for its block and filled from disk. */
  lemma RefillKeeps(bufs: seq<Buffer>, mid: seq<Buffer>, hash: seq<seq<nat>>, ring: seq<nat>, disk: seq<Data>, b: nat, d: Data)
    requires OneEach(bufs) && CleanShowsDisk(bufs, disk) && |disk| <= MAX_BLOCK
    requires HashOk(mid, hash) && RingOk(mid, ring) && OneEach(mid) && FreeClean(mid)
    requires Active(mid, b) && |mid| == |bufs| && mid == bufs[b := mid[b]] && mid[b].block < |disk| && d == disk[mid[b].block]
    requires Active(bufs, b) ==> bufs[b].block == mid[b].block
    requires !Active(bufs, b) ==> Holder(bufs, mid[b].block, 0) == |bufs|
    ensures var bufs' := mid[b := mid[b].(data := d)];
      && CacheOk(bufs', hash, ring, disk)
      && OnlyChanged(bufs, disk, bufs', disk, mid[b].block, d)
  {
    var bufs' := mid[b := mid[b].(data := d)];
    SameUse(mid, bufs', hash, ring);
    HolderIs(bufs', mid[b].block, b);
    forall y | 0 <= y < |disk| && y != mid[b].block ensures PlainAt(bufs', disk, y) == PlainAt(bufs, disk, y) {
      OtherHolder(bufs, bufs', b, y, 0);
    }
  }

  /** A change to one buffer leaves the holder of every other block alone. */
  lemma {:induction false} OtherHolder(bufs: seq<Buffer>, bufs': seq<Buffer>, b: nat, y: nat, from: nat)
    requires |bufs'| == |bufs| && b < |bufs| && from <= |bufs| && bufs' == bufs[b := bufs'[b]]
    requires Active(bufs, b) ==> bufs[b].block != y
    requires Active(bufs', b) ==> bufs'[b].block != y
    ensures Holder(bufs', y, from) == Holder(bufs, y, from)
    ensures Holder(bufs, y, from) != b
    decreases |bufs| - from
  {
    if from < |bufs| { OtherHolder(bufs, bufs', b, y, from + 1); }
  }

  /** After the last release the disk shows what the buffer showed. */
  lemma ReleasedPlain(was: seq<Buffer>, bufs: seq<Buffer>, disk0: seq<Data>, disk: seq<Data>, b: nat)
    requires OneEach(was) && FreeClean(was) && CleanShowsDisk(was, disk0) && Active(was, b)
    requires bufs == was[b := was[b].(count := 0, dirty := false)]
    requires disk == if was[b].dirty then disk0[was[b].block := was[b].data] else disk0
    ensures FreeClean(bufs) && CleanShowsDisk(bufs, disk)
    ensures SamePlain(was, disk0, bufs, disk)
  {
    var x := was[b].block;
    HolderIs(was, x, b);
    forall y | 0 <= y < |disk| ensures PlainAt(bufs, disk, y) == PlainAt(was, disk0, y) {
      if y == x {
        assert forall c: nat :: c < |bufs| && Active(bufs, c) ==> Active(was, c) && c != b;
      } else {
        OtherHolder(was, bufs, b, y, 0);
      }
    }
  }

  /** The disk after the first n buffers were written out where dirty, in order. */
  function WriteDirty(bufs: seq<Buffer>, disk: seq<Data>, n: nat): (d: seq<Data>)
    requires n <= |bufs|
    ensures |d| == |disk|
  {
    if n == 0 then disk else
    var d := WriteDirty(bufs, disk, n - 1);
    if bufs[n - 1].dirty && bufs[n - 1].block < |disk| then d[bufs[n - 1].block := bufs[n - 1].data] else d
  }

  /** The last dirty buffer among the first n that carries block x; n if there is none. */
  function LastDirty(bufs: seq<Buffer>, x: nat, n: nat): (b: nat)
    requires n <= |bufs|
    ensures b <= n && (b < n ==> bufs[b].dirty && bufs[b].block == x)
    ensures b == n ==> forall c :: 0 <= c < n ==> !(bufs[c].dirty && bufs[c].block == x)
  {
    if n == 0 then 0
    else if bufs[n - 1].dirty && bufs[n - 1].block == x then n - 1
    else if LastDirty(bufs, x, n - 1) == n - 1 then n else LastDirty(bufs, x, n - 1)
  }

  lemma {:induction false} WriteDirtyAt(bufs: seq<Buffer>, disk: seq<Data>, n: nat, x: nat)
    requires n <= |bufs| && x < |disk|
    ensures WriteDirty(bufs, disk, n)[x] == if LastDirty(bufs, x, n) < n then bufs[LastDirty(bufs, x, n)].data else disk[x]
  {
    if n > 0 { WriteDirtyAt(bufs, disk, n - 1, x); }
  }

  lemma SyncKeeps(bufs: seq<Buffer>, disk: seq<Data>, n: nat)
    requires OneEach(bufs) && FreeClean(bufs) && CleanShowsDisk(bufs, disk) && n == |bufs|
    ensures CleanShowsDisk(bufs, WriteDirty(bufs, disk, n))
    ensures SamePlain(bufs, disk, bufs, WriteDirty(bufs, disk, n))
  {
    forall y | 0 <= y < |disk| ensures PlainAt(bufs, WriteDirty(bufs, disk, n), y) == PlainAt(bufs, disk, y) {
      WriteDirtyAt(bufs, disk, n, y);
    }
    forall b | 0 <= b < |bufs| && Active(bufs, b) && !bufs[b].dirty
      ensures bufs[b].data == WriteDirty(bufs, disk, n)[bufs[b].block]
    {
      WriteDirtyAt(bufs, disk, n, bufs[b].block);
    }
  }

  lemma NobodyHolds(bufs: seq<Buffer>, disk: seq<Data>)
    requires HeldOk(bufs, map[], |disk|)
    ensures Shows(bufs, disk, disk)
  {
    forall y | 0 <= y < |disk| ensures PlainAt(bufs, disk, y) == disk[y] {
      forall b: nat ensures !Active(bufs, b) { assert Known(bufs, map[], b); }
    }
  }

  lemma Unheld(bufs: seq<Buffer>, held: map<nat, nat>, size: nat, x: nat)
    requires HeldOk(bufs, held, size) && x !in held
    ensures Holder(bufs, x + NR_FS_START, 0) == |bufs|
  {
    var b := Holder(bufs, x + NR_FS_START, 0);
    assert Known(bufs, held, b);
  }

  /** Replacing one buffer and recording who has it. */
  lemma HeldMore(bufs: seq<Buffer>, bufs': seq<Buffer>, held: map<nat, nat>, size: nat, x: nat, b: nat)
    requires HeldOk(bufs, held, size) && x !in held && |bufs'| == |bufs| && b < |bufs| && bufs' == bufs[b := bufs'[b]]
    requires !Active(bufs, b) && bufs'[b].count == 1 && bufs'[b].block == x + NR_FS_START < size
    ensures HeldOk(bufs', held[x := b], size)
  {
    var held' := held[x := b];
    forall y: nat ensures Handed(bufs', held', size, y) {
      assert Handed(bufs, held, size, y);
    }
    forall c: nat ensures Known(bufs', held', c) {
      assert Known(bufs, held, c);
    }
  }

  lemma HeldLess(bufs: seq<Buffer>, bufs': seq<Buffer>, held: map<nat, nat>, size: nat, x: nat)
    requires HeldOk(bufs, held, size) && x in held && |bufs'| == |bufs|
    requires held[x] < |bufs| && bufs' == bufs[held[x] := bufs'[held[x]]] && bufs'[held[x]].count == 0
    ensures HeldOk(bufs', held - {x}, size)
  {
    var held' := held - {x};
    assert Handed(bufs, held, size, x);
    forall y: nat ensures Handed(bufs', held', size, y) {
      assert Handed(bufs, held, size, y);
    }
    forall c: nat ensures Known(bufs', held', c) {
      assert Known(bufs, held, c);
    }
  }

  lemma HeldSame(bufs: seq<Buffer>, bufs': seq<Buffer>, held: map<nat, nat>, size: nat, b: nat)
    requires HeldOk(bufs, held, size) && |bufs'| == |bufs| && b < |bufs| && bufs' == bufs[b := bufs'[b]]
    requires bufs'[b].count == bufs[b].count && bufs'[b].block == bufs[b].block
    ensures HeldOk(bufs', held, size)
  {
    forall y: nat ensures Handed(bufs', held, size, y) {
      assert Handed(bufs, held, size, y);
    }
    forall c: nat ensures Known(bufs', held, c) {
      assert Known(bufs, held, c);
    }
  }

  method DoFetch(c: Cache, op: Op, held: map<nat, nat>, ghost plain: seq<Data>) returns (out: seq<Data>, held': map<nat, nat>)
    requires op.Fetch?
    requires Tracks(c, held, plain)
    requires Allowed(op, held.Keys, |c.disk|) && |HeldAfter(op, held.Keys)| <= |c.bufs|
    modifies c
    ensures Tracks(c, held', PlainAfter(op, plain)) && |c.disk| == |old(c.disk)| && |c.bufs| == |old(c.bufs)|
    ensures held'.Keys == HeldAfter(op, held.Keys)
    ensures out == PlainOut(op, plain)
  {
    var x := op.block;
    assert |held.Keys + {x}| == |held.Keys| + 1 && c.ring != [];
    Unheld(c.bufs, held, |c.disk|, x);
    ghost var bufs0 := c.bufs;
    var ok, b := c.BreadBlock(x);
    out := [c.bufs[b].data];
    held' := held[x := b];
    HeldMore(bufs0, c.bufs, held, |c.disk|, x, b);
    assert PlainAt(bufs0, c.disk, x + NR_FS_START) == c.disk[x + NR_FS_START];
    assert Shows(c.bufs, c.disk, plain);
    assert held'.Keys == held.Keys + {x};
  }

  method DoWrite(c: Cache, op: Op, held: map<nat, nat>, ghost plain: seq<Data>) returns (out: seq<Data>, held': map<nat, nat>)
    requires op.Write?
    requires Tracks(c, held, plain)
    requires Allowed(op, held.Keys, |c.disk|) && |HeldAfter(op, held.Keys)| <= |c.bufs|
    modifies c
    ensures Tracks(c, held', PlainAfter(op, plain)) && |c.disk| == |old(c.disk)| && |c.bufs| == |old(c.bufs)|
    ensures held'.Keys == HeldAfter(op, held.Keys)
    ensures out == PlainOut(op, plain)
  {
    var x := op.block;
    assert Handed(c.bufs, held, |c.disk|, x);
    c.Edit(held[x], op.data);
    HeldSame(old(c.bufs), c.bufs, held, |c.disk|, held[x]);
    out, held' := [], held;
  }

  method DoRelease(c: Cache, op: Op, held: map<nat, nat>, ghost plain: seq<Data>) returns (out: seq<Data>, held': map<nat, nat>)
    requires op.Release?
    requires Tracks(c, held, plain)
    requires Allowed(op, held.Keys, |c.disk|) && |HeldAfter(op, held.Keys)| <= |c.bufs|
    modifies c
    ensures Tracks(c, held', PlainAfter(op, plain)) && |c.disk| == |old(c.disk)| && |c.bufs| == |old(c.bufs)|
    ensures held'.Keys == HeldAfter(op, held.Keys)
    ensures out == PlainOut(op, plain)
  {
    var x := op.block;
    assert Handed(c.bufs, held, |c.disk|, x);
    c.Brelse(held[x]);
    HeldLess(old(c.bufs), c.bufs, held, |c.disk|, x);
    out, held' := [], held - {x};
    assert held'.Keys == held.Keys - {x};
  }

  /** One operation of a run: the same answer and the same change as on the plain array. */
  method DoOp(c: Cache, op: Op, held: map<nat, nat>, ghost plain: seq<Data>) returns (out: seq<Data>, held': map<nat, nat>)
    requires Tracks(c, held, plain)
    requires Allowed(op, held.Keys, |c.disk|) && |HeldAfter(op, held.Keys)| <= |c.bufs|
    modifies c
    ensures Tracks(c, held', PlainAfter(op, plain)) && |c.disk| == |old(c.disk)| && |c.bufs| == |old(c.bufs)|
    ensures held'.Keys == HeldAfter(op, held.Keys)
    ensures out == PlainOut(op, plain)
  {
    match op {
      case Fetch(_) => out, held' := DoFetch(c, op, held, plain);
      case Write(_, _) => out, held' := DoWrite(c, op, held, plain);
      case Release(_) => out, held' := DoRelease(c, op, held, plain);
    }
  }
}
