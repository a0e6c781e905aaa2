/**
 The geometry of slabs (mm/slab.c:105-261, 280 and 300-305): how many objects fit, which
 order a cache uses, where header, index array and objects lie, and the arithmetic that
 takes an object's index to its address and back.
 */
module Slab {
  import opened Basics

  const PAGE_SIZE: nat := 4096
  const WORD: nat := 4
  /** sizeof(struct slab_struct) and sizeof(unsigned short). */
  const HEADER: nat := 16
  const INDEX: nat := 2
  const SLAB_END: nat := 65535
  const MAX_SIZE: nat := 65532

  function PagesBytes(order: nat): (n: nat)
    ensures n % PAGE_SIZE == 0 && n >= PAGE_SIZE
  {
    if order == 0 then PAGE_SIZE else 2 * PagesBytes(order - 1)
  }

  /** Bytes taken by n objects with header and index array, before rounding. */
  function Used(n: nat, size: nat): nat {
    n * size + (HEADER + n * INDEX)
  }

  lemma UsedStep(n: nat, size: nat)
    ensures Used(n + 1, size) == Used(n, size) + size + INDEX
  {
    assert (n + 1) * size == n * size + size;
  }

  lemma {:induction false} UsedMonotone(n: nat, m: nat, size: nat)
    requires n <= m
    ensures Used(n, size) <= Used(m, size)
    decreases m
  {
    if n < m {
      UsedMonotone(n, m - 1, size);
      UsedStep(m - 1, size);
    }
  }

  /** The largest number of objects that fits. */
  ghost predicate MaxFit(n: nat, size: nat, bytes: nat) {
    Used(n, size) <= bytes < Used(n + 1, size)
  }

  lemma MaxFitIsMax(n: nat, size: nat, bytes: nat, m: nat)
    requires MaxFit(n, size, bytes)
    ensures Used(m, size) <= bytes <==> m <= n
  {
    if m <= n { UsedMonotone(m, n, size); } else { UsedMonotone(n + 1, m, size); }
  }

  /** cache_estimate (mm/slab.c:105-125): the capacity is maximal and the rest is what is left over. */
  method CacheEstimate(order: nat, size: nat) returns (num: nat, leftOver: nat)
    ensures MaxFit(num, size, PagesBytes(order))
    ensures leftOver == PagesBytes(order) - Used(num, size) && leftOver < size + INDEX
  {
    var pageSize := PagesBytes(order);
    var i := 1;
    assert Used(0, size) == HEADER;
    while i * size + (HEADER + i * INDEX) <= pageSize
      invariant i >= 1 && Used(i - 1, size) <= pageSize
      decreases pageSize - i
    {
      assert Used(i, size) <= pageSize;
      assert i <= pageSize;
      i := i + 1;
    }
    i := i - 1;
    num := i;
    UsedStep(num, size);
    leftOver := pageSize - ((size * i) + (i * INDEX) + HEADER);
  }

  /** Rounding a byte count up to a word (mm/slab.c:139-143 and 182-186). */
  function RoundUp(n: nat): (r: nat)
    ensures r % WORD == 0 && n <= r < n + WORD
  {
    if n % WORD != 0 then (n + WORD) / WORD * WORD else n
  }

  lemma RoundUpLeast(n: nat, m: nat)
    requires n <= m && m % WORD == 0
    ensures RoundUp(n) <= m
  {
  }

  /** struct kmem_cache_struct, as far as the layout goes. */
  datatype Cache = Cache(objSize: nat, objNum: nat, slabSize: nat, order: nat)

  /**
   What a cache promises: the objects behind the rounded header and index array stay inside
   the pages, no further object would fit, and a multi-page slab wastes less than an eighth.
   */
  ghost predicate SoundCache(c: Cache) {
    && c.objSize % WORD == 0 && c.order <= 7
    && MaxFit(c.objNum, c.objSize, PagesBytes(c.order))
    && HEADER + c.objNum * INDEX <= c.slabSize
    && c.slabSize % WORD == 0 && c.slabSize + c.objNum * c.objSize <= PagesBytes(c.order)
    && (c.objSize < PAGE_SIZE ==> c.order == 0)
    && (c.objSize >= PAGE_SIZE ==>
          c.objNum >= 1 && (PagesBytes(c.order) - Used(c.objNum, c.objSize)) * 8 < PagesBytes(c.order))
  }

  lemma OrderSeven()
    ensures PagesBytes(7) == 524288
  {
    assert PagesBytes(3) == 32768 && PagesBytes(5) == 131072;
  }

  /** At order 7 the search always stops. */
  lemma StopsAtSeven(size: nat, num: nat, leftOver: nat)
    requires PAGE_SIZE <= size <= MAX_SIZE && MaxFit(num, size, PagesBytes(7))
    requires leftOver == PagesBytes(7) - Used(num, size) < size + INDEX
    ensures num != 0 && leftOver * 8 < PagesBytes(7)
  {
    OrderSeven();
    UsedStep(0, size);
    assert Used(0, size) == HEADER;
  }

  /** Header and index array, rounded up, still leave room for the objects. */
  lemma RoundedFits(num: nat, size: nat, bytes: nat)
    requires Used(num, size) <= bytes && size % WORD == 0 && bytes % WORD == 0
    ensures RoundUp(num * INDEX + HEADER) + num * size <= bytes
  {
    MultipleOfWord(num, size);
    RoomLeft(num * size, num * INDEX + HEADER, bytes);
  }

  lemma RoomLeft(objects: nat, head: nat, bytes: nat)
    requires objects % WORD == 0 && bytes % WORD == 0 && objects + head <= bytes
    ensures RoundUp(head) + objects <= bytes
  {
    RoundUpLeast(head, bytes - objects);
  }

  lemma MultipleOfWord(num: nat, size: nat)
    requires size % WORD == 0
    ensures (num * size) % WORD == 0
  {
    var q := size / WORD;
    calc {
      num * size;
      num * (WORD * q);
      WORD * (num * q);
    }
  }

  /** Below a page, an object fits exactly up to 4076 bytes. */
  lemma SmallCapacity(num: nat, size: nat)
    requires size < PAGE_SIZE && size % WORD == 0 && MaxFit(num, size, PAGE_SIZE)
    ensures num >= 1 <==> size <= 4076
  {
    MaxFitIsMax(num, size, PAGE_SIZE, 1);
    assert Used(1, size) == size + 18;
  }

  lemma CacheIsSound(size: nat, num: nat, order: nat)
    requires size % WORD == 0 && order <= 7 && MaxFit(num, size, PagesBytes(order))
    requires size < PAGE_SIZE ==> order == 0
    requires size >= PAGE_SIZE ==> num >= 1 && (PagesBytes(order) - Used(num, size)) * 8 < PagesBytes(order)
    ensures SoundCache(Cache(size, num, RoundUp(num * INDEX + HEADER), order))
  {
    RoundedFits(num, size, PagesBytes(order));
  }

  /** kmem_cache_create (mm/slab.c:131-204): the rounding, the order search and the layout. */
  method KmemCacheCreate(requested: nat) returns (c: Cache)
    requires RoundUp(requested) <= MAX_SIZE
    ensures c.objSize == RoundUp(requested) && c.slabSize == RoundUp(c.objNum * INDEX + HEADER)
    ensures SoundCache(c)
    ensures c.objNum >= 1 <==> c.objSize <= 4076 || c.objSize >= PAGE_SIZE
    ensures c.objSize >= PAGE_SIZE ==> forall o :: 0 <= o < c.order ==> Rejected(o, c.objSize)
  {
    var size := RoundUp(requested);
    var order, num, leftOver := 0, 0, 0;
    if size < PAGE_SIZE {
      num, leftOver := CacheEstimate(0, size);
      SmallCapacity(num, size);
    } else {
      order, num, leftOver := FindOrder(size);
    }
    var slabSize := RoundUp(num * INDEX + HEADER);
    CacheIsSound(size, num, order);
    c := Cache(size, num, slabSize, order);
  }

  /** The search for an order (mm/slab.c:160-178). */
  method FindOrder(size: nat) returns (order: nat, num: nat, leftOver: nat)
    requires PAGE_SIZE <= size <= MAX_SIZE
    ensures order <= 7 && MaxFit(num, size, PagesBytes(order)) && num >= 1
    ensures leftOver == PagesBytes(order) - Used(num, size) && leftOver * 8 < PagesBytes(order)
    ensures forall o :: 0 <= o < order ==> Rejected(o, size)
  {
    order := 0;
    while true
      invariant order <= 7 && forall o :: 0 <= o < order ==> Rejected(o, size)
      decreases 7 - order
    {
      num, leftOver := CacheEstimate(order, size);
      if num != 0 && !(leftOver * 8 >= PagesBytes(order)) {
        return;
      }
      if order == 7 {
        StopsAtSeven(size, num, leftOver);
        assert false;
      }
      order := order + 1;
    }
  }

  /** An order holds no object or wastes an eighth or more. */
  ghost predicate Rejected(order: nat, size: nat) {
    exists num: nat :: MaxFit(num, size, PagesBytes(order))
      && (num == 0 || (PagesBytes(order) - Used(num, size)) * 8 >= PagesBytes(order))
  }

  // ------------------------------------------------------------ addresses

  /** Address of object i (mm/slab.c:231 and 280). */
  function ObjectAddr(c: Cache, base: nat, i: nat): nat {
    base + c.slabSize + i * c.objSize
  }

  /** Index of the object at an address (mm/slab.c:305). */
  function ObjectIndex(c: Cache, base: nat, addr: nat): nat
    requires c.objSize > 0 && base + c.slabSize <= addr
  {
    (addr - (base + c.slabSize)) / c.objSize
  }

  lemma AddrIndex(c: Cache, base: nat, i: nat)
    requires c.objSize > 0
    ensures base + c.slabSize <= ObjectAddr(c, base, i) && ObjectIndex(c, base, ObjectAddr(c, base, i)) == i
  {
    DivOfMultiple(i, c.objSize);
  }

  lemma DivOfMultiple(a: nat, n: nat)
    requires n > 0
    ensures (a * n) / n == a
  {
    var q, r := (a * n) / n, (a * n) % n;
    assert a * n == q * n + r;
    assert (a - q) * n == r;
    if a > q { MulAtLeast(a - q, n); }
  }

  /** Objects of a slab are disjoint, clear of the header, and inside the pages of the slab. */
  lemma ObjectsApart(c: Cache, base: nat, i: nat, j: nat)
    requires SoundCache(c) && i < j < c.objNum
    ensures base + HEADER + c.objNum * INDEX <= ObjectAddr(c, base, i)
    ensures ObjectAddr(c, base, i) + c.objSize <= ObjectAddr(c, base, j)
    ensures ObjectAddr(c, base, j) + c.objSize <= base + PagesBytes(c.order)
  {
    RowsApart(i, j, c.objSize);
    RowsApart(j, c.objNum, c.objSize);
  }

  lemma RowsApart(i: nat, j: nat, n: nat)
    requires i < j
    ensures i * n + n <= j * n
  {
    assert j * n == i * n + n + (j - i - 1) * n;
    assert (j - i - 1) * n >= 0;
  }

  /** The page of an object is one of the pages that record the slab (mm/slab.c:234-246 and 300-303). */
  lemma ObjectPage(c: Cache, base: nat, i: nat)
    requires SoundCache(c) && base % PAGE_SIZE == 0 && i < c.objNum && c.objSize > 0
    ensures base / PAGE_SIZE <= ObjectAddr(c, base, i) / PAGE_SIZE
    ensures ObjectAddr(c, base, i) / PAGE_SIZE < base / PAGE_SIZE + PagesBytes(c.order) / PAGE_SIZE
  {
    RowsApart(i, c.objNum, c.objSize);
  }

  /** The index array of a new slab links every object and ends (mm/slab.c:250-256). */
  method FreeChain(objNum: nat) returns (chain: array<nat>)
    requires 1 <= objNum < SLAB_END
    ensures fresh(chain) && chain.Length == objNum && chain[objNum - 1] == SLAB_END
    ensures forall i :: 0 <= i < objNum - 1 ==> chain[i] == i + 1
  {
    chain := new nat[objNum](i => 0);
    var i := 0;
    while i < objNum
      invariant i <= objNum && forall j :: 0 <= j < i ==> chain[j] == j + 1
    {
      chain[i] := i + 1;
      i := i + 1;
    }
    chain[i - 1] := SLAB_END;
  }
}
