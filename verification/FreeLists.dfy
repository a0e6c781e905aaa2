/**
 Free lists as sequences of page frame numbers, and what it means for the nine
 lists of mm/page_alloc.c to be the canonical decomposition of the free pages.
 A circular list is written from its head: [head, head.next, ...].
 */
module FreeLists {
  import opened BuddyBlocks
  import opened Lists

  /** p >> k. */
  function Shift(p: nat, k: nat): nat {
    if k == 0 then p else Shift(p / 2, k - 1)
  }

  function BlockAt(k: nat, p: nat): Block {
    Block(k, Shift(p, k))
  }

  /** p is a multiple of 2^k. */
  predicate Aligned(k: nat, p: nat) {
    First(BlockAt(k, p)) == p
  }

  lemma {:induction false} ShiftOfMultiple(a: nat, k: nat)
    ensures Shift(a * Pow2(k), k) == a
  {
    if k > 0 {
      var h := Pow2(k - 1);
      assert a * Pow2(k) == 2 * (a * h) by {
        assert a * (2 * h) == 2 * (a * h);
      }
      ShiftOfMultiple(a, k - 1);
    }
  }

  /** A block is determined by its order and first page. */
  lemma BlockFirst(x: Block)
    ensures Aligned(x.order, First(x)) && BlockAt(x.order, First(x)) == x
  {
    ShiftOfMultiple(x.idx, x.order);
  }

  lemma FirstBlock(k: nat, p: nat)
    requires Aligned(k, p)
    ensures First(BlockAt(k, p)) == p
  {
  }

  /** p heads a canonical block of order k. */
  predicate Listed(free: set<nat>, k: nat, p: nat) {
    Aligned(k, p) && Canonical(free, BlockAt(k, p))
  }

  ghost predicate ListCanonical(l: seq<nat>, k: nat, free: set<nat>) {
    Distinct(l) && forall p :: p in l <==> Listed(free, k, p)
  }

  /** Every free list holds exactly the canonical blocks of its order, once each. */
  ghost predicate ListsCanonical(lists: seq<seq<nat>>, free: set<nat>) {
    |lists| == MAX_ORDER && forall k :: 0 <= k < MAX_ORDER ==> ListCanonical(lists[k], k, free)
  }

  /** Linking a block that is maximal in the larger free set. */
  lemma AddBlock(lists: seq<seq<nat>>, free: set<nat>, b: Block)
    requires Canonical(free, b)
    requires ListsCanonical(lists, free - Pages(b))
    ensures ListsCanonical(lists[b.order := Insert(lists[b.order], First(b))], free)
  {
    var l := lists[b.order];
    InsertMeaning(l, First(b));
    BlockFirst(b);
    CarveCanonical(free, b, b);
    var lists' := lists[b.order := Insert(l, First(b))];
    forall k | 0 <= k < MAX_ORDER ensures ListCanonical(lists'[k], k, free) {
      assert ListCanonical(lists[k], k, free - Pages(b));
      forall p ensures p in lists'[k] <==> Listed(free, k, p) {
        CarveListed(free, b, k, p);
      }
    }
  }

  lemma CarveListed(free: set<nat>, b: Block, k: nat, p: nat)
    requires Canonical(free, b)
    ensures Listed(free - Pages(b), k, p) <==> Listed(free, k, p) && !(k == b.order && p == First(b))
  {
    CarveCanonical(free, b, BlockAt(k, p));
    BlockFirst(b);
    if Aligned(k, p) { FirstBlock(k, p); }
  }

  /** Unlinking a listed block. */
  lemma RemoveBlock(lists: seq<seq<nat>>, free: set<nat>, b: Block)
    requires Canonical(free, b)
    requires ListsCanonical(lists, free)
    ensures First(b) in lists[b.order]
    ensures ListsCanonical(lists[b.order := Without(lists[b.order], First(b))], free - Pages(b))
  {
    var l := lists[b.order];
    assert ListCanonical(l, b.order, free);
    BlockFirst(b);
    assert Listed(free, b.order, First(b));
    WithoutMeaning(l, First(b));
    var lists' := lists[b.order := Without(l, First(b))];
    forall k | 0 <= k < MAX_ORDER ensures ListCanonical(lists'[k], k, free - Pages(b)) {
      assert ListCanonical(lists[k], k, free);
      forall p ensures p in lists'[k] <==> Listed(free - Pages(b), k, p) {
        CarveListed(free, b, k, p);
      }
    }
  }

  /** Two different listed blocks are aligned, free and share no page. */
  lemma ListedApart(lists: seq<seq<nat>>, free: set<nat>, j: nat, p: nat, k: nat, q: nat)
    requires ListsCanonical(lists, free) && j < MAX_ORDER && k < MAX_ORDER
    requires p in lists[j] && q in lists[k] && (j != k || p != q)
    ensures Aligned(j, p) && Aligned(k, q)
    ensures Pages(BlockAt(j, p)) <= free && Pages(BlockAt(k, q)) <= free
    ensures Pages(BlockAt(j, p)) !! Pages(BlockAt(k, q))
  {
    assert ListCanonical(lists[j], j, free) && ListCanonical(lists[k], k, free);
    assert Listed(free, j, p) && Listed(free, k, q);
    CanonicalDisjoint(free, BlockAt(j, p), BlockAt(k, q));
  }

  /** Below the top order a block and its buddy are never both listed. */
  lemma NoTwoBuddies(lists: seq<seq<nat>>, free: set<nat>, x: Block)
    requires ListsCanonical(lists, free) && x.order < TOP
    ensures !(First(x) in lists[x.order] && First(Sibling(x)) in lists[x.order])
  {
    assert ListCanonical(lists[x.order], x.order, free);
    BlockFirst(x);
    BlockFirst(Sibling(x));
    ParentSplits(x);
  }

  /** The lists are determined by the set of free pages alone. */
  lemma ListsDetermined(lists: seq<seq<nat>>, lists': seq<seq<nat>>, free: set<nat>, k: nat)
    requires ListsCanonical(lists, free) && ListsCanonical(lists', free) && k < MAX_ORDER
    ensures multiset(lists[k]) == multiset(lists'[k])
  {
    var l, l' := lists[k], lists'[k];
    assert ListCanonical(l, k, free) && ListCanonical(l', k, free);
    forall p ensures multiset(l)[p] == multiset(l')[p] {
      DistinctMultiplicity(l, p);
      DistinctMultiplicity(l', p);
      assert p in l <==> p in l';
    }
  }

  /** Free pages accounted for by the first k lists. */
  function ListedPages(lists: seq<seq<nat>>, k: nat): nat
    requires k <= |lists|
  {
    if k == 0 then 0 else ListedPages(lists, k - 1) + |lists[k - 1]| * Pow2(k - 1)
  }

  lemma {:induction false} ListedPagesShrink(lists: seq<seq<nat>>, j: nat, l: seq<nat>, k: nat)
    requires j < |lists| && k <= |lists| && |l| + 1 == |lists[j]|
    ensures ListedPages(lists, k) == ListedPages(lists[j := l], k) + (if j < k then Pow2(j) else 0)
  {
    if k > 0 {
      ListedPagesShrink(lists, j, l, k - 1);
      if j == k - 1 {
        assert |lists[j]| * Pow2(j) == |l| * Pow2(j) + Pow2(j);
      }
    }
  }

  lemma {:induction false} ListedPagesEmpty(lists: seq<seq<nat>>, k: nat)
    requires k <= |lists| && forall j :: 0 <= j < k ==> lists[j] == []
    ensures ListedPages(lists, k) == 0
  {
    if k > 0 { ListedPagesEmpty(lists, k - 1); }
  }

  lemma {:induction false} RunSize(lo: nat, n: nat, s: set<nat>)
    requires forall i: nat :: i in s <==> lo <= i < lo + n
    ensures |s| == n
  {
    if n == 0 {
      assert s == {};
    } else {
      RunSize(lo, n - 1, s - {lo + n - 1});
    }
  }

  lemma PagesSize(x: Block)
    ensures |Pages(x)| == Pow2(x.order)
  {
    RunSize(First(x), Pow2(x.order), Pages(x));
  }

  lemma SinglePage(p: nat)
    ensures Pages(Block(0, p)) == {p}
  {
    assert First(Block(0, p)) == p;
  }

  /** nr_free counts exactly: the listed blocks hold every free page once. */
  lemma {:induction false} FreePagesCounted(lists: seq<seq<nat>>, free: set<nat>)
    requires ListsCanonical(lists, free)
    ensures |free| == ListedPages(lists, MAX_ORDER)
    decreases |free|
  {
    if free == {} {
      forall k | 0 <= k < MAX_ORDER ensures lists[k] == [] {
        assert ListCanonical(lists[k], k, free);
        if lists[k] != [] {
          assert Listed(free, k, lists[k][0]);
          PagesNonempty(BlockAt(k, lists[k][0]));
          assert false;
        }
      }
      ListedPagesEmpty(lists, MAX_ORDER);
    } else {
      var p :| p in free;
      SinglePage(p);
      var b := RunInCanonical(free, Block(0, p));
      assert ListCanonical(lists[b.order], b.order, free);
      RemoveBlock(lists, free, b);
      WithoutMeaning(lists[b.order], First(b));
      PagesSize(b);
      assert |free - Pages(b)| == |free| - |Pages(b)|;
      FreePagesCounted(lists[b.order := Without(lists[b.order], First(b))], free - Pages(b));
      ListedPagesShrink(lists, b.order, Without(lists[b.order], First(b)), MAX_ORDER);
    }
  }
}
