/**
 The page allocator of mm/page_alloc.c as a state machine over free pages and outstanding
 allocations: what every allocation, split, merge and free keeps, over every run.
 */
module BuddyModel {
  import opened Lists
  import opened BuddyBlocks
  import opened FreeLists

  /** NR_PAGES: 32 MiB of 4 KiB frames (include/mm/mm.h). */
  const NR_PAGES: nat := 8192
  const TOP_PAGES: nat := 256

  function FreeSet(count: seq<nat>, limit: nat): set<nat> {
    set i: nat | i < limit && i < |count| && count[i] == 0
  }

  /** The abstract allocator: free pages and outstanding allocations of [start, limit). */
  datatype BuddyState = BuddyState(start: nat, limit: nat, free: set<nat>, live: set<Block>)

  ghost predicate Inv(s: BuddyState) {
    && s.start <= s.limit && s.limit % TOP_PAGES == 0
    && (forall p :: p in s.free ==> s.start <= p < s.limit)
    && (forall x :: x in s.live ==> x.order <= TOP && Pages(x) !! s.free)
    && (forall x, p :: x in s.live && p in Pages(x) ==> s.start <= p < s.limit)
    && (forall x, y :: x in s.live && y in s.live && x != y ==> Pages(x) !! Pages(y))
    && (forall p :: s.start <= p < s.limit && p !in s.free ==> exists x :: x in s.live && p in Pages(x))
  }

  /** A successful allocation takes one aligned run of free pages. */
  ghost predicate AllocStep(s: BuddyState, b: Block, s': BuddyState) {
    && b.order <= TOP && Pages(b) <= s.free
    && s' == s.(free := s.free - Pages(b), live := s.live + {b})
  }

  ghost predicate FreeStep(s: BuddyState, b: Block, s': BuddyState) {
    && b in s.live
    && s' == s.(free := s.free + Pages(b), live := s.live - {b})
  }

  ghost predicate Step(s: BuddyState, s': BuddyState) {
    exists b :: AllocStep(s, b, s') || FreeStep(s, b, s')
  }

  lemma AllocKeeps(s: BuddyState, b: Block, s': BuddyState)
    requires Inv(s) && AllocStep(s, b, s')
    ensures Inv(s') && b !in s.live
  {
    PagesNonempty(b);
    forall p | s'.start <= p < s'.limit && p !in s'.free
      ensures exists x :: x in s'.live && p in Pages(x)
    {
      if p in Pages(b) {
        assert b in s'.live;
      } else {
        var x :| x in s.live && p in Pages(x);
        assert x in s'.live;
      }
    }
  }

  lemma FreeKeeps(s: BuddyState, b: Block, s': BuddyState)
    requires Inv(s) && FreeStep(s, b, s')
    ensures Inv(s')
  {
    forall p | s'.start <= p < s'.limit && p !in s'.free
      ensures exists x :: x in s'.live && p in Pages(x)
    {
      var x :| x in s.live && p in Pages(x);
      assert x in s'.live;
    }
  }

  /** Blocks inside one top-order block never reach past the managed range. */
  lemma {:induction false} StaysBelowLimit(x: Block, limit: nat)
    requires x.order <= TOP && limit % TOP_PAGES == 0 && First(x) < limit
    ensures First(x) + Pow2(x.order) <= limit
    decreases TOP - x.order
  {
    FirstOfParent(x);
    if x.order == TOP {
      assert Pow2(TOP) == TOP_PAGES;
    } else {
      StaysBelowLimit(Parent(x), limit);
    }
  }

  lemma ListedInside(free: set<nat>, limit: nat, j: nat, p: nat)
    requires Listed(free, j, p) && limit % TOP_PAGES == 0 && forall i :: i in free ==> i < limit
    ensures First(BlockAt(j, p)) == p && p + Pow2(j) <= limit && Pages(BlockAt(j, p)) <= free
  {
    PagesNonempty(BlockAt(j, p));
    StaysBelowLimit(BlockAt(j, p), limit);
  }

  /** The lists after a block of order high at page p was split down to order low. */
  ghost function Halved(lists: seq<seq<nat>>, low: nat, high: nat, p: nat): (r: seq<seq<nat>>)
    requires low <= high <= |lists|
    ensures |r| == |lists|
    decreases high - low
  {
    if low == high then lists else
    var rest := Halved(lists, low + 1, high, p);
    rest[low := Insert(rest[low], p + Pow2(low))]
  }

  /** Every order from low up to high gains the upper half, no other list changes. */
  lemma {:induction false} HalvedAt(lists: seq<seq<nat>>, low: nat, high: nat, p: nat, m: nat)
    requires low <= high <= |lists| && m < |lists|
    ensures Halved(lists, low, high, p)[m] == if low <= m < high then Insert(lists[m], p + Pow2(m)) else lists[m]
    decreases high - low
  {
    if low < high { HalvedAt(lists, low + 1, high, p, m); }
  }

  /** The piece of order m that splitting the block b lists: the upper half at that level. */
  function Piece(b: Block, m: nat): Block {
    BlockAt(m, First(b) + Pow2(m))
  }

  lemma {:induction false} PieceAligned(b: Block, m: nat)
    requires m < b.order
    ensures First(Piece(b, m)) == First(b) + Pow2(m) && Piece(b, m).order == m
    ensures Aligned(m, First(b)) && First(BlockAt(m, First(b))) == First(b)
    decreases b.order
  {
    var lower := Block(b.order - 1, 2 * b.idx);
    FirstOfParent(lower);
    assert Parent(lower) == b;
    if m == lower.order {
      BlockFirst(lower);
      BlockFirst(Sibling(lower));
    } else {
      PieceAligned(lower, m);
    }
  }

  /** Splitting b down to order k tiles it: each page lies in the lower rest or in one piece. */
  lemma {:induction false} SplitTiles(b: Block, k: nat, i: nat)
    requires k <= b.order
    ensures Holds(b, i) <==>
      Holds(BlockAt(k, First(b)), i) || exists m: nat :: k <= m < b.order && Holds(Piece(b, m), i)
    decreases b.order
  {
    if k == b.order {
      BlockFirst(b);
    } else {
      var lower := LowerOf(b, i);
      SplitTiles(lower, k, i);
      forall m: nat | k <= m < lower.order ensures Piece(b, m) == Piece(lower, m) {}
    }
  }

  /** A block is its lower half and the piece listed for it. */
  lemma LowerOf(b: Block, i: nat) returns (lower: Block)
    requires b.order > 0
    ensures lower.order == b.order - 1 && First(lower) == First(b)
    ensures Holds(b, i) <==> Holds(lower, i) || Holds(Piece(b, lower.order), i)
  {
    lower := Block(b.order - 1, 2 * b.idx);
    FirstOfParent(lower);
    assert Parent(lower) == b;
    PieceAligned(b, lower.order);
  }

  lemma PiecesApart(b: Block, k: nat, m: nat, n: nat, i: nat)
    requires k <= m <= n < b.order
    ensures m < n ==> !(Holds(Piece(b, m), i) && Holds(Piece(b, n), i))
    ensures !(Holds(BlockAt(k, First(b)), i) && Holds(Piece(b, n), i))
  {
    PieceAligned(b, k);
    PieceAligned(b, m);
    PieceAligned(b, n);
    PowMonotone(k, n);
    if m < n { PowMonotone(m + 1, n); }
  }

  /** The order fields once the block of order j at page p has been split down to order k. */
  ghost predicate Stamped(before: seq<nat>, after: seq<nat>, k: nat, j: nat, p: nat) {
    && |before| == |after|
    && (forall i: nat :: i < |before| && (i <= p || p < i < p + Pow2(k) || p + Pow2(j) <= i) ==> after[i] == before[i])
    && (forall m: nat, i: nat :: k <= m < j && i < |before| && InUpper(p, m, i) ==> after[i] == m)
  }

  /** Page i lies in the upper half that a split to order m at page p lists. */
  predicate InUpper(p: nat, m: nat, i: nat) {
    p + Pow2(m) <= i < p + 2 * Pow2(m)
  }

  lemma StampedStart(a: seq<nat>, j: nat, p: nat)
    ensures Stamped(a, a, j, j, p)
  {
  }

  /** One more round of the split. */
  lemma StampedStep(a: seq<nat>, mid: seq<nat>, after: seq<nat>, k: nat, j: nat, p: nat)
    requires k < j && Stamped(a, mid, k + 1, j, p) && |after| == |mid|
    requires forall i: nat :: i < |mid| && (i < p + Pow2(k) || p + 2 * Pow2(k) <= i) ==> after[i] == mid[i]
    requires forall i: nat :: i < |mid| && InUpper(p, k, i) ==> after[i] == k
    ensures Stamped(a, after, k, j, p)
  {
    assert Pow2(k + 1) == 2 * Pow2(k);
    PowMonotone(k + 1, j);
    forall m: nat, i: nat | k <= m < j && i < |a| && InUpper(p, m, i) ensures after[i] == m {
      if m > k { PowMonotone(k + 1, m); assert InUpper(p, m, i) && mid[i] == m; }
    }
  }

  /** Every page from a through i has count 0. */
  ghost predicate ZeroThrough(count: seq<nat>, a: nat, i: nat) {
    forall j :: a <= j <= i && j < |count| ==> count[j] == 0
  }

  /** The scan that ends a merge at top has written its order on page i of the buddy. */
  ghost predicate ScanWrote(count: seq<nat>, top: Block, i: nat) {
    top.order < TOP && i in Pages(Sibling(top)) && ZeroThrough(count, First(Sibling(top)), i)
  }

  /** The block of order o around b. */
  function Ancestor(b: Block, o: nat): (x: Block)
    requires b.order <= o
    ensures x.order == o
    decreases o
  {
    if o == b.order then b else Parent(Ancestor(b, o - 1))
  }

  /** The lists after b has been merged up to order o: on each level its buddy has gone. */
  ghost function Climbed(lists: seq<seq<nat>>, b: Block, o: nat): (r: seq<seq<nat>>)
    requires b.order <= o <= |lists|
    ensures |r| == |lists|
    decreases o
  {
    if o == b.order then lists
    else
      var r := Climbed(lists, b, o - 1);
      r[o - 1 := Without(r[o - 1], First(Sibling(Ancestor(b, o - 1))))]
  }

  /** Level by level. */
  lemma {:induction false} ClimbedAt(lists: seq<seq<nat>>, b: Block, o: nat, m: nat)
    requires b.order <= o <= |lists| && m < |lists|
    ensures Climbed(lists, b, o)[m] ==
      if b.order <= m < o then Without(lists[m], First(Sibling(Ancestor(b, m)))) else lists[m]
    decreases o
  {
    if o > b.order { ClimbedAt(lists, b, o - 1, m); }
  }

  /** The lists after the block of order j at page p was taken and split down to order k. */
  ghost predicate SplitLists(before: seq<seq<nat>>, after: seq<seq<nat>>, k: nat, j: nat, p: nat) {
    && k <= j < |before| && p in before[j]
    && after == Halved(before[j := Without(before[j], p)], k, j, p)
  }

  /** The two halves of an aligned block that counts as taken. */
  lemma HalveFirst(free: set<nat>, c: Block, page: nat) returns (lower: Block, upper: Block)
    requires 0 < c.order <= TOP && Pages(c) <= free && First(c) == page
    ensures var k := c.order - 1;
      && lower.order == k && First(lower) == page && Pages(lower) <= Pages(c)
      && Pow2(c.order) == 2 * Pow2(k)
      && upper.order == k && First(upper) == page + Pow2(k)
      && Canonical(free - Pages(lower), upper)
      && free - Pages(lower) - Pages(upper) == free - Pages(c)
  {
    lower := Block(c.order - 1, 2 * c.idx);
    ParentSplits(lower);
    FirstOfParent(lower);
    upper := Sibling(lower);
    PagesNonempty(lower);
    assert Parent(lower) == c;
    assert First(lower) in Pages(c) && First(lower) !in free - Pages(lower);
  }

  lemma {:induction false} PowMonotone(k: nat, j: nat)
    requires k <= j
    ensures Pow2(k) <= Pow2(j)
    decreases j
  {
    if k < j { PowMonotone(k, j - 1); }
  }

  /** With every list from k up empty, no aligned run of 2^k free pages exists. */
  lemma NoRunLeft(lists: seq<seq<nat>>, free: set<nat>, k: nat)
    requires ListsCanonical(lists, free) && k <= TOP
    requires forall m :: k <= m < MAX_ORDER ==> lists[m] == []
    ensures !exists x: Block :: x.order == k && Pages(x) <= free
  {
    forall x: Block | x.order == k && Pages(x) <= free ensures false {
      var y := RunInCanonical(free, x);
      BlockFirst(y);
      assert ListCanonical(lists[y.order], y.order, free);
      assert Listed(free, y.order, First(y));
    }
  }

  /** What the scan sees of the buddy of x while the block b inside x is being freed. */
  lemma BuddyFree(count: seq<nat>, limit: nat, G: set<nat>, b: Block, x: Block, merge: bool)
    requires FreeSet(count, limit) == G - Pages(b) && Pages(b) <= Pages(x) && x.order < TOP
    requires First(Sibling(x)) + Pow2(x.order) <= limit <= |count|
    requires merge <==> forall i :: First(Sibling(x)) <= i < First(Sibling(x)) + Pow2(x.order) ==> count[i] == 0
    ensures merge <==> Pages(Sibling(x)) <= G - Pages(x)
  {
    ParentSplits(x);
    if merge {
      forall i | i in Pages(Sibling(x)) ensures i in G - Pages(x) {
        assert count[i] == 0;
        assert i in FreeSet(count, limit);
      }
    } else {
      var i :| First(Sibling(x)) <= i < First(Sibling(x)) + Pow2(x.order) && count[i] != 0;
      assert i in Pages(Sibling(x)) && i !in FreeSet(count, limit);
    }
  }

  /** The scan of a merge succeeds exactly when the whole buddy is on that order's list. */
  lemma BuddyListed(lists: seq<seq<nat>>, G: set<nat>, x: Block)
    requires x.order < TOP && ListsCanonical(lists, G - Pages(x))
    ensures Pages(Sibling(x)) <= G - Pages(x) <==> First(Sibling(x)) in lists[x.order]
    ensures Pages(Sibling(x)) <= G - Pages(x) ==>
      && Canonical(G - Pages(x), Sibling(x))
      && ListsCanonical(lists[x.order := Without(lists[x.order], First(Sibling(x)))],
                        G - Pages(x) - Pages(Sibling(x)))
  {
    var y, free := Sibling(x), G - Pages(x);
    assert ListCanonical(lists[x.order], x.order, free);
    ParentSplits(x);
    PagesNonempty(x);
    BlockFirst(y);
    assert First(x) in Pages(Parent(y)) && First(x) !in free;
    if Pages(y) <= free {
      RemoveBlock(lists, free, y);
    }
  }

  lemma UsedPages(c: seq<nat>, c': seq<nat>, limit: nat, a: Block)
    requires |c| == |c'| && First(a) + Pow2(a.order) <= limit <= |c|
    requires forall j :: 0 <= j < |c| ==> c'[j] == if First(a) <= j < First(a) + Pow2(a.order) then 1 else c[j]
    ensures FreeSet(c', limit) == FreeSet(c, limit) - Pages(a)
  {
  }

  /** The recorded order of every live head survives an allocation of a out of b. */
  lemma OrdersKept(o: seq<nat>, o': seq<nat>, s: BuddyState, a: Block, b: Block)
    requires Inv(s) && s.limit <= |o| == |o'| && Pages(b) <= s.free
    requires Pages(a) <= Pages(b) && First(a) == First(b)
    requires First(a) < |o| && o'[First(a)] == a.order
    requires forall i :: 0 <= i < |o| && !(First(b) <= i < First(b) + Pow2(b.order)) ==> o'[i] == o[i]
    requires forall x :: x in s.live ==> First(x) < |o| && o[First(x)] == x.order
    ensures forall x :: x in s.live + {a} ==> First(x) < |o| && o'[First(x)] == x.order
  {
    forall x | x in s.live + {a} ensures First(x) < |o| && o'[First(x)] == x.order {
      PagesNonempty(x);
      if x != a {
        assert First(x) !in Pages(b);
      }
    }
  }

  lemma ClearedPages(c: seq<nat>, c': seq<nat>, limit: nat, x: Block, b: Block, G: set<nat>)
    requires |c| == |c'| && First(x) + Pow2(x.order) <= limit <= |c|
    requires forall j :: 0 <= j < |c| ==> c'[j] == if First(x) <= j < First(x) + Pow2(x.order) then 0 else c[j]
    requires G == FreeSet(c, limit) + Pages(b) && Pages(b) <= Pages(x) <= G
    ensures FreeSet(c', limit) == G
  {
  }

  /** The first page of every live block is in use. */
  lemma LiveInUse(c: seq<nat>, s: BuddyState)
    requires Inv(s) && s.free == FreeSet(c, s.limit) && s.limit <= |c|
    ensures forall y :: y in s.live ==> First(y) < |c| && c[First(y)] > 0
  {
    forall y | y in s.live ensures First(y) < |c| && c[First(y)] > 0 {
      PagesNonempty(y);
      assert First(y) !in s.free;
    }
  }

  /** Clearing the merged block changes the counts of the freed block only: the rest was free already. */
  lemma FreedCounts(c: seq<nat>, c': seq<nat>, limit: nat, x: Block, b: Block, G: set<nat>)
    requires |c| == |c'| && First(x) + Pow2(x.order) <= limit <= |c|
    requires forall j :: 0 <= j < |c| ==> c'[j] == if First(x) <= j < First(x) + Pow2(x.order) then 0 else c[j]
    requires G == FreeSet(c, limit) + Pages(b) && Pages(b) <= Pages(x) <= G
    ensures forall i: nat :: i < |c| ==> c'[i] == if i in Pages(b) then 0 else c[i]
  {
    forall i: nat | i < |c| ensures c'[i] == if i in Pages(b) then 0 else c[i] {
      if i in Pages(x) && i !in Pages(b) { assert i in FreeSet(c, limit); }
    }
  }

  lemma StampedOutside(before: seq<nat>, after: seq<nat>, k: nat, j: nat, p: nat)
    requires k <= j && p < |before| && Stamped(before[p := k], after, k, j, p)
    ensures after[p] == k && forall i :: 0 <= i < |before| && !(p <= i < p + Pow2(j)) ==> after[i] == before[i]
  {
  }

  lemma LiveOutside(o: seq<nat>, o': seq<nat>, s: BuddyState, b: Block, x: Block)
    requires Inv(s) && |o| == |o'| && b in s.live && Pages(b) <= Pages(x) <= s.free + Pages(b)
    requires forall i :: 0 <= i < |o| && !(First(x) <= i < First(x) + Pow2(x.order)) ==> o'[i] == o[i]
    requires forall y :: y in s.live ==> First(y) < |o| && o[First(y)] == y.order
    ensures forall y :: y in s.live - {b} ==> First(y) < |o| && o'[First(y)] == y.order
  {
    forall y | y in s.live - {b} ensures First(y) < |o| && o'[First(y)] == y.order {
      PagesNonempty(y);
      assert First(y) !in Pages(x);
    }
  }

  /** Freeing what was just allocated gives back the state before. */
  lemma AllocFreeRestores(s: BuddyState, b: Block, s': BuddyState)
    requires Inv(s) && AllocStep(s, b, s')
    ensures FreeStep(s', b, s)
  {
    AllocKeeps(s, b, s');
    assert s.free - Pages(b) + Pages(b) == s.free;
    assert s.live + {b} - {b} == s.live;
  }

  predicate Between(lo: nat, i: nat, hi: nat) {
    lo <= i < hi
  }

  ghost function Range(lo: nat, hi: nat): set<nat> {
    set i: nat | i < hi && Between(lo, i, hi)
  }

  ghost function LivePages(live: set<Block>): set<nat> {
    set x, p | x in live && p in Pages(x) :: p
  }

  /** Free and live pages partition the managed range. */
  lemma FreeAndLive(s: BuddyState)
    requires Inv(s)
    ensures s.free !! LivePages(s.live) && s.free + LivePages(s.live) == Range(s.start, s.limit)
  {
  }

  /** nr_free accounts for exactly the pages of the managed range that are not live. */
  lemma Conservation(s: BuddyState, lists: seq<seq<nat>>)
    requires Inv(s) && ListsCanonical(lists, s.free)
    ensures s.free !! LivePages(s.live) && s.free + LivePages(s.live) == Range(s.start, s.limit)
    ensures ListedPages(lists, MAX_ORDER) + |LivePages(s.live)| == s.limit - s.start
  {
    FreeAndLive(s);
    FreePagesCounted(lists, s.free);
    SizesAdd(s.free, LivePages(s.live), s.start, s.limit);
  }

  lemma SizesAdd(a: set<nat>, b: set<nat>, lo: nat, hi: nat)
    requires a !! b && a + b == Range(lo, hi) && lo <= hi
    ensures |a| + |b| == hi - lo
  {
    RunSize(lo, hi - lo, Range(lo, hi));
  }

  /** A run of the allocator: every state follows from the one before by a step. */
  ghost predicate Run(states: seq<BuddyState>) {
    && states != []
    && forall i :: 0 <= i < |states| - 1 ==> Step(states[i], states[i + 1])
  }

  /** The invariant, and with it conservation, holds in every state of every run. */
  lemma {:induction false} EveryRunKeepsInv(states: seq<BuddyState>, i: nat)
    requires Run(states) && Inv(states[0]) && i < |states|
    ensures Inv(states[i]) && states[i].start == states[0].start && states[i].limit == states[0].limit
  {
    if i > 0 {
      EveryRunKeepsInv(states, i - 1);
      assert Step(states[i - 1], states[i - 1 + 1]);
      var b :| AllocStep(states[i - 1], b, states[i]) || FreeStep(states[i - 1], b, states[i]);
      if AllocStep(states[i - 1], b, states[i]) {
        AllocKeeps(states[i - 1], b, states[i]);
      } else {
        FreeKeeps(states[i - 1], b, states[i]);
      }
    }
  }

  ghost function FreeAll(s: BuddyState, bs: seq<Block>): BuddyState
    decreases |bs|
  {
    if bs == [] then s
    else FreeAll(s.(free := s.free + Pages(bs[0]), live := s.live - {bs[0]}), bs[1..])
  }

  lemma {:induction false} FreeAllMeaning(s: BuddyState, bs: seq<Block>)
    ensures var t := FreeAll(s, bs);
      && t.start == s.start && t.limit == s.limit
      && (forall p :: p in t.free <==> p in s.free || exists i :: 0 <= i < |bs| && p in Pages(bs[i]))
      && (forall x :: x in t.live <==> x in s.live && x !in bs)
    decreases |bs|
  {
    if bs != [] {
      var s1 := s.(free := s.free + Pages(bs[0]), live := s.live - {bs[0]});
      FreeAllMeaning(s1, bs[1..]);
      assert bs == [bs[0]] + bs[1..];
      forall p
        ensures (p in s1.free || exists i :: 0 <= i < |bs[1..]| && p in Pages(bs[1..][i]))
                <==> (p in s.free || exists i :: 0 <= i < |bs| && p in Pages(bs[i]))
      {
        if i :| 0 <= i < |bs[1..]| && p in Pages(bs[1..][i]) {
          assert p in Pages(bs[i + 1]);
        }
        if i :| 1 <= i < |bs| && p in Pages(bs[i]) {
          assert p in Pages(bs[1..][i - 1]);
        }
      }
    }
  }

  /** Any order of frees gives the same free set, and so the same lists. */
  lemma FreeOrderIrrelevant(s: BuddyState, bs: seq<Block>, bs': seq<Block>,
                            lists: seq<seq<nat>>, lists': seq<seq<nat>>, k: nat)
    requires forall x :: x in bs <==> x in bs'
    requires ListsCanonical(lists, FreeAll(s, bs).free)
    requires ListsCanonical(lists', FreeAll(s, bs').free)
    requires k < MAX_ORDER
    ensures FreeAll(s, bs) == FreeAll(s, bs')
    ensures multiset(lists[k]) == multiset(lists'[k])
  {
    FreeAllMeaning(s, bs);
    FreeAllMeaning(s, bs');
    forall p ensures p in FreeAll(s, bs).free <==> p in FreeAll(s, bs').free {
      if i :| 0 <= i < |bs| && p in Pages(bs[i]) {
        assert bs[i] in bs';
      }
      if i :| 0 <= i < |bs'| && p in Pages(bs'[i]) {
        assert bs'[i] in bs;
      }
    }
    assert FreeAll(s, bs).free == FreeAll(s, bs').free;
    assert FreeAll(s, bs).live == FreeAll(s, bs').live;
    ListsDetermined(lists, lists', FreeAll(s, bs).free, k);
  }

  /** The outcome of one scan, in terms of the lists. */
  lemma MergeOutcome(count: seq<nat>, limit: nat, lists: seq<seq<nat>>, G: set<nat>, b: Block, x: Block, merge: bool)
    requires FreeSet(count, limit) == G - Pages(b) && Pages(b) <= Pages(x) <= G && x.order < TOP
    requires First(Sibling(x)) + Pow2(x.order) <= limit <= |count|
    requires merge <==> forall i :: First(Sibling(x)) <= i < First(Sibling(x)) + Pow2(x.order) ==> count[i] == 0
    requires ListsCanonical(lists, G - Pages(x))
    ensures merge <==> First(Sibling(x)) in lists[x.order]
    ensures Distinct(lists[x.order])
    ensures merge ==> Pages(x) <= Pages(Parent(x)) <= G
    ensures merge ==>
      ListsCanonical(lists[x.order := Without(lists[x.order], First(Sibling(x)))], G - Pages(Parent(x)))
    ensures !merge ==> Canonical(G, x)
  {
    BuddyFree(count, limit, G, b, x, merge);
    BuddyListed(lists, G, x);
    ParentSplits(x);
    assert ListCanonical(lists[x.order], x.order, G - Pages(x));
    assert G - Pages(x) - Pages(Sibling(x)) == G - Pages(Parent(x));
  }

  /** Where the buddy of y and their common parent start, in the terms of the merge loop. */
  lemma MergeGeometry(y: Block, limit: nat, G: set<nat>)
    requires y.order < TOP && limit % TOP_PAGES == 0 && Pages(y) <= G
    requires forall p :: p in G ==> p < limit
    ensures First(Sibling(y)) + Pow2(y.order) <= limit
    ensures Pages(Parent(y)) == Pages(y) + Pages(Sibling(y))
    ensures (if Sibling(y).idx < y.idx then Sibling(y).idx else y.idx) * Pow2(y.order) == First(Parent(y))
  {
    ParentSplits(y);
    FirstOfParent(y);
    PagesNonempty(y);
    StaysBelowLimit(Parent(y), limit);
  }

  /** The page a written merge round goes on with: the head of the parent, inside the canonical block. */
  lemma LowerHalf(G: set<nat>, current: nat, neighbor: nat, size: nat, k: nat, x: Block, pfn: nat)
    requires k < TOP && size == Pow2(k) && Block(k, neighbor) == Sibling(Block(k, current)) && Canonical(G, x)
    requires Pages(Block(k + 1, current / 2)) <= G && pfn in Pages(x) && pfn in Pages(Block(k, current))
    ensures (if neighbor < current then neighbor else current) * size == First(Block(k + 1, current / 2))
    ensures First(Block(k + 1, current / 2)) in Pages(x) && pfn in Pages(Block(k + 1, current / 2))
  {
    var y := Block(k, current);
    assert Parent(y) == Block(k + 1, current / 2);
    ParentSplits(y);
    FirstOfParent(y);
    PagesNonempty(Parent(y));
    InsideCanonical(G, Parent(y), x, pfn);
  }

  lemma SiblingScanned(count: seq<nat>, y: Block, merge: bool)
    requires y.order < TOP && First(Sibling(y)) + Pow2(y.order) <= |count| == NR_PAGES
    requires Pages(y) <= FreeSet(count, NR_PAGES)
    requires merge <==> forall i :: First(Sibling(y)) <= i < First(Sibling(y)) + Pow2(y.order) ==> count[i] == 0
    ensures merge <==> Pages(Parent(y)) <= FreeSet(count, NR_PAGES)
  {
    ParentSplits(y);
    if merge {
      forall i | i in Pages(Sibling(y)) ensures i in FreeSet(count, NR_PAGES) {
        assert count[i] == 0;
      }
    } else {
      var i :| First(Sibling(y)) <= i < First(Sibling(y)) + Pow2(y.order) && count[i] != 0;
      assert i in Pages(Sibling(y));
    }
  }

  /** A free aligned block that meets a canonical block lies inside it. */
  lemma InsideCanonical(G: set<nat>, y: Block, x: Block, p: nat)
    requires Canonical(G, x) && y.order <= TOP && Pages(y) <= G && p in Pages(x) && p in Pages(y)
    ensures Pages(y) <= Pages(x)
    ensures Canonical(G, y) ==> y == x
  {
    var z := RunInCanonical(G, y);
    if z != x { CanonicalDisjoint(G, z, x); assert false; }
    if Canonical(G, y) && y != x { CanonicalDisjoint(G, y, x); assert false; }
  }

  lemma NotListed(lists: seq<seq<nat>>, F: set<nat>, x: Block, k: nat, p: nat)
    requires ListsCanonical(lists, F) && F !! Pages(x) && k < MAX_ORDER && p in Pages(x)
    ensures p !in lists[k]
  {
    assert ListCanonical(lists[k], k, F);
    if Listed(F, k, p) {
      FirstBlock(k, p);
      PagesNonempty(BlockAt(k, p));
      assert false;
    }
  }

  lemma ListCanonicalPlus(lists: seq<seq<nat>>, F: set<nat>, G: set<nat>, x: Block)
    requires ListsCanonical(lists, F) && F !! Pages(x) && F <= G && Canonical(G, x)
    ensures ListsCanonical(lists[x.order := Insert(lists[x.order], First(x))], F + Pages(x))
  {
    assert F + Pages(x) - Pages(x) == F;
    AddBlock(lists, F + Pages(x), x);
  }

  lemma NothingListed(lists: seq<seq<nat>>)
    requires |lists| == MAX_ORDER && forall k :: 0 <= k < MAX_ORDER ==> lists[k] == []
    ensures ListsCanonical(lists, {})
  {
    forall k | 0 <= k < MAX_ORDER ensures ListCanonical(lists[k], k, {}) {
      forall p ensures !Listed({}, k, p) {
        PagesNonempty(BlockAt(k, p));
      }
    }
  }
}
