/**
 The page allocator of mm/page_alloc.c: mem_map and free_area changed in place.
 */
module BuddyAllocator {
  import opened Lists
  import opened BuddyBlocks
  import opened FreeLists
  import opened BuddyModel
  import opened BuddyTiling

  class Buddy {
    const count: array<nat>
    const order: array<nat>
    const freeList: array<seq<nat>>
    const nrFree: array<nat>
    const start: nat
    const limit: nat
    ghost var live: set<Block>

    ghost predicate Shape()
      reads this
    {
      && count.Length == NR_PAGES && order.Length == NR_PAGES
      && freeList.Length == MAX_ORDER && nrFree.Length == MAX_ORDER
      && count != order && count != nrFree && order != nrFree
      && start <= limit <= NR_PAGES && limit % TOP_PAGES == 0
    }

    ghost function Free(): set<nat>
      reads this, count
    {
      FreeSet(count[..], limit)
    }

    ghost function State(): BuddyState
      reads this, count
    {
      BuddyState(start, limit, Free(), live)
    }

    ghost predicate ListsMatch(free: set<nat>)
      requires Shape()
      reads this, freeList, nrFree
    {
      && ListsCanonical(freeList[..], free)
      && forall k :: 0 <= k < MAX_ORDER ==> nrFree[k] == |freeList[k]|
    }

    ghost predicate Valid()
      reads this, count, order, freeList, nrFree
    {
      && Shape()
      && Inv(State())
      && ListsMatch(Free())
      && forall x :: x in live ==> First(x) < NR_PAGES && order[First(x)] == x.order
    }

    /** mem_init (mm/memory.c:259-285): pages below start are in use, the rest are free. */
    constructor (start: nat, end: nat)
      requires start <= end <= NR_PAGES && end % TOP_PAGES == 0 && start + TOP_PAGES <= NR_PAGES
      ensures Valid() && this.start == start && limit == end
      ensures live == {} && Free() == Range(start, end)
      ensures forall i :: 0 <= i < NR_PAGES ==> count[i] == if i < start then 1 else 0
      ensures forall i :: 0 <= i < start ==> order[i] == 9
      ensures fresh(count) && fresh(order) && fresh(freeList) && fresh(nrFree)
    {
      this.start, limit, live := start, end, {};
      count := new nat[NR_PAGES](i => if i < start then 1 else 0);
      order := new nat[NR_PAGES](i => MAX_ORDER);
      freeList := new seq<nat>[MAX_ORDER](i => []);
      nrFree := new nat[MAX_ORDER](i => 0);
      new;
      InitBuddyPages();
      assert Free() == Range(start, end);
    }

    /**
     init_buddy_pages (mm/page_alloc.c:247-269): freeing from the cursor tiles [start, limit).
     The cursor advances by the returned count and so lands inside the next block.
     */
    method InitBuddyPages()
      requires Shape() && start + TOP_PAGES <= NR_PAGES
      requires forall i :: 0 <= i < NR_PAGES ==> (count[i] == 0 <==> start <= i)
      requires forall k :: 0 <= k < MAX_ORDER ==> freeList[k] == []
      modifies count, order, freeList, nrFree
      ensures count[..] == old(count[..]) && ListsMatch(Range(start, limit))
      ensures forall i :: 0 <= i < NR_PAGES && count[i] > 0 ==> order[i] == old(order[i])
    {
      for k := 0 to MAX_ORDER
        invariant forall j :: 0 <= j < k ==> nrFree[j] == 0
        invariant count[..] == old(count[..]) && freeList[..] == old(freeList[..]) && order[..] == old(order[..])
      {
        nrFree[k] := 0;
      }
      ghost var s, last := start, Block(0, 0);      // [start, s) is tiled
      NothingListed(freeList[..]);
      assert Range(start, s) == {};
      FirstCursor(start);
      var i := start;
      while i < limit
        invariant start <= s <= i && s <= limit
        invariant count[..] == old(count[..]) && ListsMatch(Range(start, s))
        invariant At(start, s, last) && CursorInside(start, s, i)
        invariant forall i :: 0 <= i < NR_PAGES && count[i] > 0 ==> order[i] == old(order[i])
        decreases NR_PAGES - s
      {
        i, s, last := TileOnce(i, s, last);
      }
      CursorPastEnd(start, s, last, i, limit);
    }

    /** One round of the initialisation loop (mm/page_alloc.c:263-265). */
    method TileOnce(i: nat, ghost s: nat, ghost last: Block) returns (i': nat, ghost s': nat, ghost x: Block)
      requires Shape() && start + TOP_PAGES <= NR_PAGES && start <= s <= i < limit
      requires forall i :: 0 <= i < NR_PAGES ==> (count[i] == 0 <==> start <= i)
      requires ListsMatch(Range(start, s)) && At(start, s, last) && CursorInside(start, s, i)
      modifies count, order, freeList, nrFree
      ensures count[..] == old(count[..]) && ListsMatch(Range(start, s'))
      ensures forall i :: 0 <= i < NR_PAGES && count[i] > 0 ==> order[i] == old(order[i])
      ensures s < s' <= limit && s' <= i' && At(start, s', x) && CursorInside(start, s', i')
    {
      x := BlockHere(start, s, last);
      Advance(start, s, x, i, limit);
      assert FreeSet(count[..], NR_PAGES) == Range(start, NR_PAGES);
      var n := FreeAsWritten(i, x, Range(start, s));
      i' := i + n;
      s' := s + Pow2(x.order);
    }

    /** Links page p into the list of order k (mm/page_alloc.c:6-28). */
    method AddFreeArea(p: nat, k: nat)
      requires Shape() && p < NR_PAGES && k < MAX_ORDER
      requires nrFree[k] == |freeList[k]|
      modifies order, freeList, nrFree
      ensures order[..] == old(order[..])[p := k]
      ensures freeList[..] == old(freeList[..])[k := Insert(old(freeList[k]), p)]
      ensures nrFree[..] == old(nrFree[..])[k := old(nrFree[k]) + 1]
    {
      order[p] := k;
      if freeList[k] == [] {
        freeList[k] := [p];
      } else {
        freeList[k] := [freeList[k][0], p] + freeList[k][1..];
      }
      nrFree[k] := nrFree[k] + 1;
    }

    /** Walks the list of order k and unlinks page p if it is there (mm/page_alloc.c:30-51). */
    method RemoveFreeArea(p: nat, k: nat)
      requires Shape() && k < MAX_ORDER && Distinct(freeList[k])
      requires nrFree[k] == |freeList[k]|
      modifies freeList, nrFree
      ensures freeList[..] == old(freeList[..])[k := Without(old(freeList[k]), p)]
      ensures nrFree[..] == old(nrFree[..])[k := |Without(old(freeList[k]), p)|]
    {
      var l := freeList[k];
      var i := 0;
      while i < |l|
        invariant 0 <= i <= |l|
        invariant p !in l[..i]
        invariant freeList[..] == old(freeList[..]) && nrFree[..] == old(nrFree[..])
      {
        if l[i] == p {
          WithoutAt(l, i);
          freeList[k] := l[..i] + l[i + 1..];
          nrFree[k] := nrFree[k] - 1;
          return;
        }
        i := i + 1;
      }
      assert l[..i] == l;
      WithoutAbsent(l, p);
    }

    /** Writes order k on the n - 1 pages behind p (mm/page_alloc.c:75-81). */
    method StampTail(p: nat, n: nat, k: nat)
      requires Shape() && n > 0 && p + n <= NR_PAGES
      modifies order
      ensures forall j :: 0 <= j <= p || p + n <= j < NR_PAGES ==> order[j] == old(order[j])
      ensures forall j :: p < j < p + n ==> order[j] == k
    {
      var i := n - 1;
      while i > 0
        invariant 0 <= i < n
        invariant forall j :: 0 <= j <= p + i || p + n <= j < NR_PAGES ==> order[j] == old(order[j])
        invariant forall j :: p + i < j < p + n ==> order[j] == k
      {
        order[p + i] := k;
        i := i - 1;
      }
    }

    /** One round of expand: the upper half of the taken block c becomes listed. */
    method SplitOnce(k: nat, page: nat, ghost free: set<nat>, ghost c: Block) returns (ghost lower: Block)
      requires Shape() && page == First(c) && c.order == k + 1 <= TOP
      requires Pages(c) <= free && page + Pow2(k + 1) <= NR_PAGES
      requires ListsMatch(free - Pages(c))
      modifies order, freeList, nrFree
      ensures lower.order == k && First(lower) == page && Pages(lower) <= Pages(c)
      ensures ListsMatch(free - Pages(lower))
      ensures forall i: nat :: i < NR_PAGES && (i < page + Pow2(k) || page + 2 * Pow2(k) <= i) ==> order[i] == old(order[i])
      ensures forall i: nat :: i < NR_PAGES && InUpper(page, k, i) ==> order[i] == k
      ensures freeList[..] == old(freeList[..])[k := Insert(old(freeList[..])[k], page + Pow2(k))]
    {
      ghost var upper;
      lower, upper := HalveFirst(free, c, page);
      var nrPages := Pow2(k);
      var p := page + nrPages;
      StampTail(p, nrPages, k);
      AddFreeArea(p, k);
      AddBlock(old(freeList[..]), free - Pages(lower), upper);
      InsertMeaning(old(freeList[k]), p);
    }

    /**
     Splits the block of order high at page down to order low, listing the upper
     half at every level (mm/page_alloc.c:57-84).  The pages of the current lower
     half count as taken.
     */
    method Expand(low: nat, high: nat, page: nat, ghost free: set<nat>, ghost b: Block)
      requires Shape() && low <= high <= TOP && page == First(b) && b.order == high
      requires Pages(b) <= free && page + Pow2(high) <= NR_PAGES
      requires ListsMatch(free - Pages(b))
      modifies order, freeList, nrFree
      ensures ListsMatch(free - Pages(BlockAt(low, page)))
      ensures Aligned(low, page) && Pages(BlockAt(low, page)) <= Pages(b)
      ensures Stamped(old(order[..]), order[..], low, high, page)
      ensures freeList[..] == Halved(old(freeList[..]), low, high, page)
    {
      var h := high;
      ghost var c := b;
      StampedStart(order[..], high, page);
      while low < h
        invariant low <= h <= high
        invariant c.order == h && First(c) == page && Pages(c) <= Pages(b)
        invariant ListsMatch(free - Pages(c))
        invariant Stamped(old(order[..]), order[..], h, high, page)
        invariant freeList[..] == Halved(old(freeList[..]), h, high, page)
      {
        PowMonotone(h, high);
        ghost var mid := order[..];
        h := h - 1;
        c := SplitOnce(h, page, free, c);
        StampedStep(old(order[..]), mid, order[..], h, high, page);
      }
      BlockFirst(c);
    }

    /** Marks n pages from p as in use (mm/page_alloc.c:115-121). */
    method MarkUsed(p: nat, n: nat)
      requires Shape() && p + n <= NR_PAGES
      modifies count
      ensures forall j :: 0 <= j < NR_PAGES ==> count[j] == if p <= j < p + n then 1 else old(count[j])
    {
      for i := 0 to n
        invariant forall j :: 0 <= j < NR_PAGES ==> count[j] == if p <= j < p + i then 1 else old(count[j])
      {
        count[p + i] := 1;
      }
    }

    /** Takes the entry behind the head of the list of order j, or the head when it is alone. */
    method TakeBlock(j: nat, ghost free: set<nat>) returns (p: nat)
      requires Shape() && j < MAX_ORDER && nrFree[j] > 0 && ListsMatch(free)
      modifies freeList, nrFree
      ensures p in old(freeList[j]) && Listed(free, j, p)
      ensures p == if |old(freeList[j])| > 1 then old(freeList[j])[1] else old(freeList[j])[0]
      ensures freeList[..] == old(freeList[..])[j := Without(old(freeList[..])[j], p)]
      ensures ListsMatch(free - Pages(BlockAt(j, p)))
    {
      var l := freeList[j];
      assert ListCanonical(l, j, free);
      var at := if |l| > 1 then 1 else 0;
      p := l[at];
      WithoutAt(l, at);
      WithoutMeaning(l, p);
      freeList[j] := l[..at] + l[at + 1..];
      nrFree[j] := nrFree[j] - 1;
      FirstBlock(j, p);
      RemoveBlock(old(freeList[..]), free, BlockAt(j, p));
    }

    /** Takes a block of order j and splits it down to order k. */
    method CarveBlock(k: nat, j: nat, ghost free: set<nat>) returns (p: nat)
      requires Shape() && k <= j <= TOP && nrFree[j] > 0 && ListsMatch(free)
      requires forall i :: i in free ==> i < limit
      modifies order, freeList, nrFree
      ensures Listed(free, j, p) && Aligned(k, p) && Pages(BlockAt(k, p)) <= Pages(BlockAt(j, p))
      ensures p + Pow2(j) <= limit && First(BlockAt(k, p)) == p == First(BlockAt(j, p))
      ensures ListsMatch(free - Pages(BlockAt(k, p)))
      ensures p < NR_PAGES && Stamped(old(order[..])[p := k], order[..], k, j, p)
      ensures old(|freeList[j]|) > 0 && p == if |old(freeList[j])| > 1 then old(freeList[j])[1] else old(freeList[j])[0]
      ensures SplitLists(old(freeList[..]), freeList[..], k, j, p)
    {
      p := TakeBlock(j, free);
      ListedInside(free, limit, j, p);
      order[p] := k;
      Expand(k, j, p, free, BlockAt(j, p));
      FirstBlock(k, p);
    }

    /** Marks the carved block a, cut from the free block b, as allocated. */
    method CommitAlloc(p: nat, n: nat, ghost a: Block, ghost b: Block, ghost order0: seq<nat>)
      requires Shape() && Inv(State()) && p == First(a) == First(b) && n == Pow2(a.order)
      requires a.order <= TOP && Pages(a) <= Pages(b) <= Free() && p + n <= limit
      requires ListsMatch(Free() - Pages(a))
      requires |order0| == NR_PAGES && order[p] == a.order
      requires forall i :: 0 <= i < NR_PAGES && !(p <= i < p + Pow2(b.order)) ==> order[i] == order0[i]
      requires forall x :: x in live ==> First(x) < NR_PAGES && order0[First(x)] == x.order
      modifies count, `live
      ensures Valid() && AllocStep(old(State()), a, State())
      ensures forall i :: 0 <= i < NR_PAGES ==> count[i] == if p <= i < p + n then 1 else old(count[i])
    {
      ghost var s, count0 := State(), count[..];
      MarkUsed(p, n);
      UsedPages(count0, count[..], limit, a);
      live := live + {a};
      AllocKeeps(s, a, State());
      OrdersKept(order0, order[..], s, a, b);
    }

    /** The successful branch of the search. */
    method AllocFrom(k: nat, j: nat) returns (p: nat)
      requires Valid() && k <= j <= TOP && nrFree[j] > 0
      modifies count, order, freeList, nrFree, `live
      ensures Valid()
      ensures Aligned(k, p) && AllocStep(old(State()), BlockAt(k, p), State())
      ensures SplitLists(old(freeList[..]), freeList[..], k, j, p)
      ensures old(|freeList[j]|) > 0 && p == if |old(freeList[j])| > 1 then old(freeList[j])[1] else old(freeList[j])[0]
      ensures p < NR_PAGES && Stamped(old(order[..])[p := k], order[..], k, j, p)
      ensures forall i :: 0 <= i < NR_PAGES ==> count[i] == if p <= i < p + Pow2(k) then 1 else old(count[i])
    {
      ghost var order0 := order[..];
      p := CarveBlock(k, j, Free());
      PowMonotone(k, j);
      StampedOutside(order0, order[..], k, j, p);
      CommitAlloc(p, Pow2(k), BlockAt(k, p), BlockAt(j, p), order0);
    }

    /**
     __alloc_pages (mm/page_alloc.c:87-134): searches upwards for the smallest order
     with a listed block and splits that block.
     */
    method AllocPages(k: nat) returns (ok: bool, p: nat, ghost from: nat)
      requires Valid()
      modifies count, order, freeList, nrFree, `live
      ensures Valid()
      ensures ok <==> exists x: Block :: x.order == k && k <= TOP && Pages(x) <= old(Free())
      ensures !ok ==> State() == old(State()) && freeList[..] == old(freeList[..])
      ensures !ok ==> count[..] == old(count[..]) && order[..] == old(order[..])
      ensures ok ==> from < MAX_ORDER && old(|freeList[from]|) > 0
      ensures ok ==> p == if |old(freeList[from])| > 1 then old(freeList[from])[1] else old(freeList[from])[0]
      ensures ok ==> p < NR_PAGES && Stamped(old(order[..])[p := k], order[..], k, from, p)
      ensures ok ==> forall i :: 0 <= i < NR_PAGES ==> count[i] == if p <= i < p + Pow2(k) then 1 else old(count[i])
      ensures ok ==> k <= from <= TOP && Aligned(k, p) && AllocStep(old(State()), BlockAt(k, p), State())
      ensures ok ==> SplitLists(old(freeList[..]), freeList[..], k, from, p)
      ensures ok ==> forall m :: k <= m < from ==> old(freeList[m]) == []
    {
      var newOrder := k;
      while newOrder < MAX_ORDER
        invariant k <= newOrder
        invariant forall m :: k <= m < newOrder && m < MAX_ORDER ==> freeList[m] == []
      {
        if nrFree[newOrder] > 0 {
          p := AllocFrom(k, newOrder);
          ok, from := true, newOrder;
          assert BlockAt(k, p).order == k && Pages(BlockAt(k, p)) <= old(Free());
          return;
        }
        newOrder := newOrder + 1;
      }
      ok, p, from := false, 0, 0;
      if k <= TOP { NoRunLeft(freeList[..], Free(), k); }
    }

    /**
     The scan of a merge (mm/page_alloc.c:197-202): stops at the first page in use and
     writes the order on the free pages before it.
     */
    method ScanBuddy(startIdx: nat, n: nat, k: nat) returns (allFree: bool)
      requires Shape() && startIdx + n <= NR_PAGES
      modifies order
      ensures allFree <==> forall i :: startIdx <= i < startIdx + n ==> count[i] == 0
      ensures forall i :: 0 <= i < NR_PAGES && count[i] > 0 ==> order[i] == old(order[i])
      ensures forall i: nat :: i < NR_PAGES ==>
        order[i] == if startIdx <= i < startIdx + n && ZeroThrough(count[..], startIdx, i) then k else old(order[i])
    {
      for i := startIdx to startIdx + n
        invariant forall j :: startIdx <= j < i ==> count[j] == 0
        invariant forall j :: 0 <= j < NR_PAGES ==> order[j] == if startIdx <= j < i then k else old(order[j])
      {
        if count[i] > 0 {
          assert count[..][i] > 0;
          return false;
        }
        order[i] := k;
      }
      return true;
    }

    /** Clears the pages of a freed block (mm/page_alloc.c:221-229, with the block's own bounds). */
    method ClearBlock(p: nat, n: nat, k: nat)
      requires Shape() && p + n <= NR_PAGES
      modifies count, order
      ensures forall j :: 0 <= j < NR_PAGES ==> count[j] == if p <= j < p + n then 0 else old(count[j])
      ensures forall j :: 0 <= j < NR_PAGES && !(p <= j < p + n) ==> order[j] == old(order[j])
      ensures forall j :: p <= j < p + n ==> order[j] == k
    {
      for i := 0 to n
        invariant forall j :: p <= j < p + i ==> order[j] == k
        invariant forall j :: 0 <= j < NR_PAGES ==> count[j] == if p <= j < p + i then 0 else old(count[j])
        invariant forall j :: 0 <= j < NR_PAGES && !(p <= j < p + n) ==> order[j] == old(order[j])
      {
        order[p + i] := k;
        count[p + i] := 0;
      }
    }

    /**
     One round of the merge loop (mm/page_alloc.c:188-213) on the block x = Block(o, cur), with
     the buddy unlinked.  G is the free set after the call; x counts as not yet free.
     */
    method TryMerge(cur: nat, o: nat, ghost b: Block, ghost G: set<nat>) returns (merge: bool)
      requires Shape() && o < TOP && Pages(b) <= Pages(Block(o, cur)) <= G
      requires Free() == G - Pages(b) && ListsMatch(G - Pages(Block(o, cur)))
      requires forall p :: p in G ==> p < limit
      modifies order, freeList, nrFree
      ensures merge <==> old(First(Sibling(Block(o, cur))) in freeList[o])
      ensures freeList[..] == if merge then old(freeList[..])[o := Without(old(freeList[..])[o], First(Sibling(Block(o, cur))))] else old(freeList[..])
      ensures merge ==> Pages(Block(o, cur)) <= Pages(Block(o + 1, cur / 2)) <= G
      ensures merge ==> ListsMatch(G - Pages(Block(o + 1, cur / 2)))
      ensures !merge ==> Canonical(G, Block(o, cur)) && ListsMatch(G - Pages(Block(o, cur)))
      ensures forall i :: 0 <= i < NR_PAGES && count[i] > 0 ==> order[i] == old(order[i])
      ensures merge ==> Pages(Sibling(Block(o, cur))) <= Pages(Block(o + 1, cur / 2))
      ensures forall i: nat :: i < NR_PAGES ==> order[i] == if ScanWrote(count[..], Block(o, cur), i) then o else old(order[i])
    {
      ghost var x := Block(o, cur);
      MergeGeometry(x, limit, G);
      var neighbor := if cur % 2 == 1 then cur - 1 else cur + 1;
      assert Block(o, neighbor) == Sibling(x);
      var startIdx := neighbor * Pow2(o);
      assert startIdx == First(Sibling(x));
      merge := ScanBuddy(startIdx, Pow2(o), o);
      MergeOutcome(count[..], limit, freeList[..], G, b, x, merge);
      if merge {
        RemoveFreeArea(startIdx, o);
      }
    }

    /** The merge loop (mm/page_alloc.c:185-213). */
    method Coalesce(pfn: nat, k: nat, ghost b: Block, ghost G: set<nat>) returns (cur: nat, o: nat)
      requires Shape() && b.order == k <= TOP && First(b) == pfn && Pages(b) <= G
      requires Free() == G - Pages(b) && ListsMatch(G - Pages(b)) && forall p :: p in G ==> p < limit
      modifies order, freeList, nrFree
      ensures k <= o <= TOP && Pages(b) <= Pages(Block(o, cur))
      ensures Canonical(G, Block(o, cur)) && ListsMatch(G - Pages(Block(o, cur)))
      ensures forall i :: 0 <= i < NR_PAGES && count[i] > 0 ==> order[i] == old(order[i])
      ensures Block(o, cur) == Ancestor(b, o) && freeList[..] == Climbed(old(freeList[..]), b, o)
      ensures forall i: nat :: i < NR_PAGES && i !in Pages(Block(o, cur)) ==>
        order[i] == if ScanWrote(count[..], Block(o, cur), i) then o else old(order[i])
    {
      BlockFirst(b);
      cur, o := Shift(pfn, k), k;
      while o < MAX_ORDER - 1
        invariant k <= o <= TOP && Pages(b) <= Pages(Block(o, cur)) <= G
        invariant ListsMatch(G - Pages(Block(o, cur)))
        invariant Block(o, cur) == Ancestor(b, o) && freeList[..] == Climbed(old(freeList[..]), b, o)
        invariant forall i: nat :: i < NR_PAGES && i !in Pages(Block(o, cur)) ==> order[i] == old(order[i])
        invariant forall i :: 0 <= i < NR_PAGES && count[i] > 0 ==> order[i] == old(order[i])
      {
        var merge := TryMerge(cur, o, b, G);
        if !merge {
          return;
        }
        cur, o := cur / 2, o + 1;
      }
    }

    /** The head of a canonical block is linked and its pages are cleared. */
    method CommitFree(p: nat, o: nat, ghost b: Block, ghost x: Block, ghost G: set<nat>)
      requires Shape() && Inv(State()) && b in live && G == Free() + Pages(b)
      requires Canonical(G, x) && Pages(b) <= Pages(x) && p == First(x) && o == x.order
      requires ListsMatch(G - Pages(x)) && p + Pow2(o) <= limit
      requires forall y :: y in live ==> First(y) < NR_PAGES && order[First(y)] == y.order
      modifies count, order, freeList, nrFree, `live
      ensures Valid() && FreeStep(old(State()), b, State())
      ensures forall i :: 0 <= i < NR_PAGES ==> count[i] == if p <= i < p + Pow2(o) then 0 else old(count[i])
      ensures forall i :: 0 <= i < NR_PAGES ==> order[i] == if p <= i < p + Pow2(o) then o else old(order[i])
      ensures freeList[..] == old(freeList[..])[o := Insert(old(freeList[..])[o], p)]
    {
      ghost var s, count0, order0 := State(), count[..], order[..];
      AddFreeArea(p, o);
      AddBlock(old(freeList[..]), G, x);
      InsertMeaning(old(freeList[o]), p);
      ClearBlock(p, Pow2(o), o);
      live := live - {b};
      ClearedPages(count0, count[..], limit, x, b, G);
      FreeKeeps(s, b, State());
      LiveOutside(order0, order[..], s, b, x);
    }

    /** The climb, the link and the clearing (mm/page_alloc.c:185-229). */
    method MergeAndLink(pfn: nat, k: nat, ghost b: Block, ghost G: set<nat>) returns (o: nat)
      requires Valid() && b in live && First(b) == pfn && b.order == k && G == Free() + Pages(b)
      modifies count, order, freeList, nrFree, `live
      ensures Valid() && FreeStep(old(State()), b, State())
      ensures k <= o <= TOP && Canonical(G, Ancestor(b, o)) && Pages(b) <= Pages(Ancestor(b, o))
      ensures First(Ancestor(b, o)) + Pow2(o) <= limit
      ensures var lists := Climbed(old(freeList[..]), b, o);
        freeList[..] == lists[o := Insert(lists[o], First(Ancestor(b, o)))]
      ensures var p := First(Ancestor(b, o));
        forall i :: 0 <= i < NR_PAGES ==> count[i] == if p <= i < p + Pow2(o) then 0 else old(count[i])
      ensures forall i: nat :: i < NR_PAGES && i in Pages(Ancestor(b, o)) ==> order[i] == o
      ensures forall i: nat :: i < NR_PAGES && i !in Pages(Ancestor(b, o)) ==>
        order[i] == if ScanWrote(old(count[..]), Ancestor(b, o), i) then o else old(order[i])
    {
      assert Free() == G - Pages(b);
      var cur;
      cur, o := Coalesce(pfn, k, b, G);
      ghost var x := Block(o, cur);
      PagesNonempty(x);
      StaysBelowLimit(x, limit);
      LiveInUse(count[..], State());
      CommitFree(cur * Pow2(o), o, b, x, G);
    }

    /**
     __free_pages___ (mm/page_alloc.c:170-232) with the merge index shifted by the starting
     order and the buddy unlinked: returns the live block b and coalesces it upwards.
     */
    method FreePages(pfn: nat, k: nat, ghost b: Block) returns (ghost o: nat)
      requires Valid() && b in live && First(b) == pfn && b.order == k
      modifies count, order, freeList, nrFree, `live
      ensures Valid() && FreeStep(old(State()), b, State())
      ensures k <= o <= TOP && Canonical(Free(), Ancestor(b, o)) && Pages(b) <= Pages(Ancestor(b, o))
      ensures var lists := Climbed(old(freeList[..]), b, o);
        freeList[..] == lists[o := Insert(lists[o], First(Ancestor(b, o)))]
      ensures forall i: nat :: i < NR_PAGES ==> count[i] == if i in Pages(b) then 0 else old(count[i])
      ensures forall i: nat :: i < NR_PAGES && i in Pages(Ancestor(b, o)) ==> order[i] == o
      ensures forall i: nat :: i < NR_PAGES && i !in Pages(Ancestor(b, o)) ==>
        order[i] == if ScanWrote(old(count[..]), Ancestor(b, o), i) then o else old(order[i])
    {
      ghost var G, before := Free() + Pages(b), count[..];
      o := MergeAndLink(pfn, k, b, G);
      FreedCounts(before, count[..], limit, Ancestor(b, o), b, G);
    }

    /** free_page (mm/page_alloc.c:239-243): the order comes from the page descriptor. */
    method FreePage(pfn: nat, ghost b: Block)
      requires Valid() && b in live && First(b) == pfn
      modifies count, order, freeList, nrFree, `live
      ensures Valid() && FreeStep(old(State()), b, State())
    {
      ghost var o := FreePages(pfn, order[pfn], b);
    }

    /** Allocating and freeing again restores every free list. */
    method AllocThenFree(k: nat) returns (ok: bool)
      requires Valid()
      modifies count, order, freeList, nrFree, `live
      ensures Valid() && State() == old(State())
      ensures forall m :: 0 <= m < MAX_ORDER ==> multiset(freeList[m]) == multiset(old(freeList[m]))
    {
      ghost var lists, free, s := freeList[..], Free(), State();
      var p;
      ghost var from;
      ok, p, from := AllocPages(k);
      if ok {
        FirstBlock(k, p);
        AllocFreeRestores(s, BlockAt(k, p), State());
        FreePage(p, BlockAt(k, p));
      }
      assert lists == old(freeList[..]);
      forall m | 0 <= m < MAX_ORDER ensures multiset(freeList[m]) == multiset(old(freeList[m])) {
        ListsDetermined(lists, freeList[..], free, m);
        assert lists[m] == old(freeList[m]);
      }
    }

    /** The scan of a written round (mm/page_alloc.c:194-202). */
    method ScanNeighbour(current: nat, neighbor: nat, size: nat, k: nat, ghost G: set<nat>) returns (merge: bool)
      requires Shape() && k < TOP && size == Pow2(k) && G == FreeSet(count[..], NR_PAGES)
      requires Pages(Block(k, current)) <= G && Block(k, neighbor) == Sibling(Block(k, current))
      modifies order
      ensures merge <==> Pages(Block(k + 1, current / 2)) <= G
      ensures forall i :: 0 <= i < NR_PAGES && count[i] > 0 ==> order[i] == old(order[i])
    {
      ghost var y := Block(k, current);
      MergeGeometry(y, NR_PAGES, G);
      var startIdx := neighbor * size;
      assert startIdx == First(Sibling(y));
      merge := ScanBuddy(startIdx, size, k);
      SiblingScanned(count[..], y, merge);
    }

    /**
     One round of the written loop (mm/page_alloc.c:194-208): scan the neighbour and unlink the
     lower half, which is not listed.
     */
    method ScanAndUnlink(current: nat, neighbor: nat, size: nat, k: nat, ghost pfn: nat,
                         ghost x: Block, ghost F: set<nat>, ghost G: set<nat>)
      returns (merge: bool, lower: nat)
      requires Shape() && ListsMatch(F) && F !! Pages(x) && pfn in Pages(x) && k < TOP && size == Pow2(k)
      requires G == FreeSet(count[..], NR_PAGES) && F <= G && Canonical(G, x)
      requires pfn in Pages(Block(k, current)) && Pages(Block(k, current)) <= G
      requires Block(k, neighbor) == Sibling(Block(k, current))
      modifies order, freeList, nrFree
      ensures freeList[..] == old(freeList[..]) && nrFree[..] == old(nrFree[..])
      ensures merge <==> Pages(Block(k + 1, current / 2)) <= G
      ensures merge ==> lower == First(Block(k + 1, current / 2)) && pfn in Pages(Block(k + 1, current / 2))
      ensures forall i :: 0 <= i < NR_PAGES && count[i] > 0 ==> order[i] == old(order[i])
    {
      merge := ScanNeighbour(current, neighbor, size, k, G);
      lower := 0;
      if merge {
        LowerHalf(G, current, neighbor, size, k, x, pfn);
        lower := (if neighbor < current then neighbor else current) * size;
        UnlinkAbsent(lower, k, x, F);
      }
    }

    /**
     The coalescing loop of __free_pages___ line by line (mm/page_alloc.c:180-213), for a
     starting order of 0 as the initialisation calls it: the lower half is unlinked.
     x is the canonical block around pfn in the set G of pages with count 0; none of x is
     listed yet, so nothing is found to unlink.
     */
    method ClimbAsWritten(pfn: nat, ghost x: Block, ghost F: set<nat>, ghost G: set<nat>)
      returns (pagePfn: nat, size: nat, k: nat)
      requires Shape() && ListsMatch(F) && F !! Pages(x) && pfn in Pages(x)
      requires G == FreeSet(count[..], NR_PAGES) && F <= G && Canonical(G, x)
      modifies order, freeList, nrFree
      ensures freeList[..] == old(freeList[..]) && nrFree[..] == old(nrFree[..])
      ensures k == x.order && pagePfn == First(x)
      ensures forall i :: 0 <= i < NR_PAGES && count[i] > 0 ==> order[i] == old(order[i])
      ensures size == if k == TOP then Pow2(k - 1) else Pow2(k)
    {
      var neighbor, current := pfn, pfn;
      pagePfn, size, k := pfn, 0, 0;
      SinglePage(pfn);
      while k < MAX_ORDER - 1
        invariant k <= TOP && current == neighbor
        invariant pfn in Pages(Block(k, current)) && Pages(Block(k, current)) <= G
        invariant pagePfn == First(Block(k, current))
        invariant k > 0 ==> size == Pow2(k - 1)
        invariant forall i :: 0 <= i < NR_PAGES && count[i] > 0 ==> order[i] == old(order[i])
        invariant freeList[..] == old(freeList[..]) && nrFree[..] == old(nrFree[..])
      {
        neighbor := if current % 2 == 1 then neighbor - 1 else neighbor + 1;
        size := Pow2(k);
        var merge, lower := ScanAndUnlink(current, neighbor, size, k, pfn, x, F, G);
        if !merge { break; }
        pagePfn := lower;
        current := current / 2;
        k := k + 1;
        neighbor := current;
      }
      InsideCanonical(G, Block(k, current), x, pfn);
    }

    /** remove_free_area on a page of a block that is not listed finds nothing. */
    method UnlinkAbsent(p: nat, k: nat, ghost x: Block, ghost F: set<nat>)
      requires Shape() && ListsMatch(F) && F !! Pages(x) && p in Pages(x) && k < MAX_ORDER
      modifies freeList, nrFree
      ensures freeList[..] == old(freeList[..]) && nrFree[..] == old(nrFree[..])
    {
      NotListed(freeList[..], F, x, k, p);
      assert ListCanonical(freeList[k], k, F);
      WithoutAbsent(freeList[k], p);
      RemoveFreeArea(p, k);
    }

    /** The closing loop line by line (mm/page_alloc.c:221-229), over pages that are free already. */
    method ClearTailAsWritten(p: nat, n: nat, k: nat)
      requires Shape() && 0 < n && p + n <= NR_PAGES && forall i :: p < i < p + n ==> count[i] == 0
      modifies count, order
      ensures count[..] == old(count[..])
      ensures forall j :: 0 <= j < NR_PAGES && !(p < j < p + n) ==> order[j] == old(order[j])
    {
      for i := p + 1 to p + n
        invariant forall j :: 0 <= j < NR_PAGES ==> count[j] == old(count[j])
        invariant forall j :: 0 <= j < NR_PAGES && !(p < j < p + n) ==> order[j] == old(order[j])
      {
        order[i] := k;
        assert count[i] == 0;
        count[i] := 0;
      }
    }

    /**
     __free_pages___ (mm/page_alloc.c:170-232) line by line for a starting order of 0: the
     closing loop runs over twice the block below the top order and skips the head, and the
     returned count is twice the block's size there.
     */
    method FreeAsWritten(pfn: nat, ghost x: Block, ghost F: set<nat>) returns (n: nat)
      requires Shape() && ListsMatch(F) && F !! Pages(x) && pfn in Pages(x)
      requires F <= FreeSet(count[..], NR_PAGES) && Canonical(FreeSet(count[..], NR_PAGES), x)
      requires First(x) + AsWrittenCount(x) <= NR_PAGES
      requires forall i :: First(x) <= i < First(x) + AsWrittenCount(x) ==> count[i] == 0
      modifies count, order, freeList, nrFree
      ensures count[..] == old(count[..])
      ensures ListsMatch(F + Pages(x))
      ensures n == AsWrittenCount(x)
      ensures forall i :: 0 <= i < NR_PAGES && count[i] > 0 ==> order[i] == old(order[i])
    {
      ghost var G := FreeSet(count[..], NR_PAGES);
      var pagePfn, size, k := ClimbAsWritten(pfn, x, F, G);
      ListCanonicalPlus(freeList[..], F, G, x);
      InsertMeaning(freeList[k], pagePfn);
      AddFreeArea(pagePfn, k);
      n := size * 2;
      ClearTailAsWritten(pagePfn, n, k);
    }
  }
}
