/**
 Where the lines of __free_pages___ (mm/page_alloc.c:170-232) depart from coalescing.
 Each departure is stated as the value the written line computes, with the exact
 condition under which it agrees with the canonical free lists.
 */
module BuddyAsWritten {
  import opened Basics
  import opened Lists
  import opened Rings
  import opened BuddyBlocks
  import opened FreeLists
  import opened BuddyModel
  import opened BuddyTiling

  /** The merge index starts at the page number itself, whatever the starting order (lines 180-194). */
  function WrittenBuddyFirst(pfn: nat, k: nat): nat {
    (if pfn % 2 == 1 then pfn - 1 else pfn + 1) * Pow2(k)
  }

  lemma WrittenBuddyExact(x: Block)
    ensures WrittenBuddyFirst(First(x), x.order) == First(Sibling(x)) <==> x.order == 0 || x.idx == 0
  {
    FirstOfParent(x);
    if x.order == 0 {
      assert First(x) == x.idx;
    } else {
      EvenFirst(x);
      WrittenTooFar(First(x), Pow2(x.order));
      if x.idx > 0 { MulAtLeast(x.idx, Pow2(x.order)); }
    }
  }

  lemma EvenFirst(x: Block)
    requires x.order > 0
    ensures First(x) % 2 == 0 && Pow2(x.order) >= 2
  {
    var h := Pow2(x.order - 1);
    assert x.idx * (2 * h) == 2 * (x.idx * h);
  }

  lemma WrittenTooFar(f: nat, n: nat)
    requires n >= 2
    ensures (f + 1) * n == f * n + n
    ensures f > 0 ==> (f + 1) * n > f + n
  {
    assert f * n == f * (n - 2) + 2 * f;
  }

  /** Freeing the pair of pages 2-3 scans pages 6-7 instead of 0-1. */
  lemma WrittenBuddyExample()
    ensures WrittenBuddyFirst(First(Block(1, 1)), 1) == 6 && First(Sibling(Block(1, 1))) == 0
  {
    assert Pow2(1) == 2;
  }

  /** The lists after the written unlink of the lower half (lines 205-208). */
  ghost function WrittenUnlink(lists: seq<seq<nat>>, x: Block): seq<seq<nat>>
    requires x.order < |lists|
  {
    lists[x.order := Without(lists[x.order], First(if x.idx % 2 == 1 then Sibling(x) else x))]
  }

  /** The buddy is unlinked exactly when the freed half is the upper one. */
  lemma WrittenUnlinkExact(lists: seq<seq<nat>>, G: set<nat>, x: Block)
    requires x.order < TOP && ListsCanonical(lists, G - Pages(x)) && Pages(Sibling(x)) <= G
    ensures ListsCanonical(WrittenUnlink(lists, x), G - Pages(Parent(x))) <==> x.idx % 2 == 1
  {
    var y := Sibling(x);
    ParentSplits(x);
    BuddyListed(lists, G, x);
    assert G - Pages(x) - Pages(y) == G - Pages(Parent(x));
    assert ListCanonical(lists[x.order], x.order, G - Pages(x));
    if x.idx % 2 == 0 {
      PagesNonempty(x);
      PagesNonempty(y);
      WithoutMeaning(lists[x.order], First(x));
      FirstOfParent(x);
      var lists' := WrittenUnlink(lists, x);
      assert First(y) in lists'[x.order];
      if ListsCanonical(lists', G - Pages(Parent(x))) {
        assert ListCanonical(lists'[x.order], x.order, G - Pages(Parent(x)));
        BlockFirst(y);
        assert false;
      }
    }
  }

  /** The written closing loop (lines 221-229): n - 1 pages behind p are cleared, p is not. */
  function WrittenClear(count: seq<nat>, p: nat, n: nat): seq<nat> {
    seq(|count|, i requires 0 <= i < |count| => if p < i < p + n then 0 else count[i])
  }

  /** A block of the top order runs no merge round, so the loop clears nothing for it. */
  function WrittenClearLength(b: Block, x: Block): nat {
    if b.order == TOP then 0 else AsWrittenCount(x)
  }

  /** The pages behind x that the closing loop also writes are free. */
  ghost predicate FreeBehind(x: Block, limit: nat, G: set<nat>) {
    forall i :: First(x) + Pow2(x.order) <= i < First(x) + AsWrittenCount(x) && i < limit ==> i in G
  }

  predicate LoopWrites(p: nat, n: nat, i: nat) {
    p < i < p + n
  }

  /** Every page the closing loop writes is a page of mem_map. */
  ghost predicate LoopInside(p: nat, n: nat) {
    forall i: nat :: LoopWrites(p, n, i) ==> i < NR_PAGES
  }

  /** The doubled loop runs past mem_map exactly for a block below the top order that ends it. */
  lemma LoopInsideExact(x: Block)
    requires x.order <= TOP && First(x) < NR_PAGES
    ensures LoopInside(First(x), AsWrittenCount(x)) <==> x.order == TOP || First(x) + Pow2(x.order) != NR_PAGES
  {
    StaysBelowLimit(x, NR_PAGES);
    if x.order < TOP && First(x) + Pow2(x.order) != NR_PAGES {
      OneMoreFits(x);
    } else if x.order < TOP {
      assert LoopWrites(First(x), AsWrittenCount(x), NR_PAGES);
    }
  }

  lemma OneMoreFits(x: Block)
    requires x.order <= TOP && First(x) + Pow2(x.order) < NR_PAGES
    ensures First(x) + 2 * Pow2(x.order) <= NR_PAGES
  {
    var y := Block(x.order, x.idx + 1);
    assert (x.idx + 1) * Pow2(x.order) == x.idx * Pow2(x.order) + Pow2(x.order);
    StaysBelowLimit(y, NR_PAGES);
  }

  /**
   Freeing b, coalesced into x, leaves exactly the pages of G free and writes only mem_map if and
   only if b is below the top order, b is not at the head of x, no page in use follows x within
   its own size, and x does not end mem_map below the top order.
   */
  lemma WrittenClearExact(count: seq<nat>, limit: nat, b: Block, x: Block, G: set<nat>)
    requires |count| == NR_PAGES && limit <= NR_PAGES && limit % TOP_PAGES == 0
    requires x.order <= TOP && Pages(b) <= Pages(x) <= G && (b.order == TOP ==> b == x)
    requires G == FreeSet(count, limit) + Pages(b) && FreeSet(count, limit) !! Pages(b)
    requires forall i :: i in G ==> i < limit
    ensures var n := WrittenClearLength(b, x);
      FreeSet(WrittenClear(count, First(x), n), limit) == G && LoopInside(First(x), n)
      <==> b.order < TOP && First(b) != First(x) && FreeBehind(x, limit, G)
           && (x.order == TOP || First(x) + Pow2(x.order) != NR_PAGES)
  {
    var n := WrittenClearLength(b, x);
    var F := FreeSet(WrittenClear(count, First(x), n), limit);
    PagesNonempty(b);
    PagesNonempty(x);
    ClearedExactly(FreeSet(count, limit), Pages(b), G, F, First(x), Pow2(x.order), n, First(b), limit);
    assert b.order < TOP ==> n == AsWrittenCount(x);
    LoopInsideExact(x);
    assert b.order <= TOP by { InsideMeansSmaller(b, x); }
  }

  /** The same in terms of page sets: n pages from p are written over, m of them belong to the block. */
  lemma ClearedExactly(before: set<nat>, b: set<nat>, G: set<nat>, after: set<nat>,
                       p: nat, m: nat, n: nat, head: nat, limit: nat)
    requires G == before + b && before !! b && head in b
    requires forall i :: i in b ==> head <= i && p <= i < p + m
    requires forall i :: p <= i < p + m ==> i in G
    requires forall i :: i in G ==> i < limit
    requires forall i: nat :: i in after <==> i < limit && (i in before || p < i < p + n)
    requires n == 0 || m <= n
    ensures after == G
      <==> n > 0 && head != p && forall i :: p + m <= i < p + n && i < limit ==> i in G
  {
    if after == G {
      assert head in after;
      forall i | p + m <= i < p + n && i < limit ensures i in G {
        assert i in after;
      }
    }
  }

  /** With every page in use, freeing page 0 leaves it in use and marks page 1 free. */
  lemma WrittenClearExample()
    ensures var count := seq(NR_PAGES, i => 1);
      FreeSet(WrittenClear(count, First(Block(0, 0)), AsWrittenCount(Block(0, 0))), TOP_PAGES) == {1}
  {
    assert AsWrittenCount(Block(0, 0)) == 2 && First(Block(0, 0)) == 0;
  }

  /** With page 1 free and listed, freeing page 0 merges the two and leaves page 1 listed. */
  lemma WrittenUnlinkExample()
    ensures var lists := [[1], [], [], [], [], [], [], [], []];
      && ListsCanonical(lists, {1})
      && WrittenUnlink(lists, Block(0, 0)) == lists && !ListsCanonical(lists, {})
  {
    var none, lists := [[], [], [], [], [], [], [], [], []], [[1], [], [], [], [], [], [], [], []];
    NothingListed(none);
    SinglePage(1);
    SinglePage(0);
    ParentSplits(Block(0, 1));
    assert Sibling(Block(0, 1)) == Block(0, 0) && 0 in Pages(Block(0, 0));
    assert {1} - Pages(Block(0, 1)) == {} && First(Block(0, 1)) == 1;
    AddBlock(none, {1}, Block(0, 1));
    assert none[0 := Insert([], 1)] == lists;
    WrittenUnlinkExact(lists, {0, 1}, Block(0, 0));
    assert {0, 1} - Pages(Block(0, 0)) == {1} && {0, 1} - Pages(Parent(Block(0, 0))) == {};
    assert First(Block(0, 0)) == 0;
    WithoutAbsent([1], 0);
  }

  // ------------------------------------------------------------ the links of the free lists

  /** The links after remove_free_area walked the ring l for page p (mm/page_alloc.c:37-44). */
  function WrittenRemove(k: Links, l: seq<nat>, p: nat): Links {
    if p in l && p in k.prev && p in k.next then k.(next := k.next[k.prev[p] := k.next[p]]) else k
  }

  /**
   Read from the head the list has lost p if and only if p is not the head, which stays where
   it is; the back link of the entry behind p is never corrected.
   */
  lemma WrittenRemoveExact(k: Links, l: seq<nat>, p: nat)
    requires Ring(k, l)
    ensures Reads(WrittenRemove(k, l, p).next, Without(l, p)) && Without(l, p)[0] == l[0] <==> p != l[0]
    ensures Ring(WrittenRemove(k, l, p), Without(l, p)) <==> p !in l
  {
    if p in l {
      var i :| 0 <= i < |l| && l[i] == p;
      assert NextOk(k.next, l, i) && PrevOk(k.prev, l, i);
      WithoutAt(l, i);
      var w := Without(l, p);
      if i > 0 {
        SkipOne(k.next, l, i);
      } else if w != [] {
        assert w[0] == l[1] != l[0];
      }
      StaleBackLink(k, l, i);
    } else {
      WithoutAbsent(l, p);
    }
  }

  lemma StaleBackLink(k: Links, l: seq<nat>, i: nat)
    requires Ring(k, l) && i < |l| && NextOk(k.next, l, i) && PrevOk(k.prev, l, i)
    ensures !Ring(WrittenRemove(k, l, l[i]), Without(l, l[i]))
  {
    if Without(l, l[i]) != [] {
      var j := BehindRemoved(l, i);
      assert PrevOk(k.prev, l, if i + 1 < |l| then i + 1 else 0);
      assert !PrevOk(k.prev, Without(l, l[i]), j);
    }
  }

  /** The entry behind the removed one, and that the removed one is not before it any more. */
  lemma BehindRemoved(l: seq<nat>, i: nat) returns (j: nat)
    requires Distinct(l) && i < |l| && Without(l, l[i]) != []
    ensures var w := Without(l, l[i]); j < |w| && w[j] == Succ(l, i) && Pred(w, j) != l[i]
  {
    WithoutAt(l, i);
    WithoutMeaning(l, l[i]);
    j := if i + 1 < |l| then i else 0;
    assert Pred(Without(l, l[i]), j) in Without(l, l[i]);
  }

  /** The links after __alloc_pages took the entry behind the head of the ring l (lines 105-112). */
  function WrittenTake(next: map<nat, nat>, prev: map<nat, nat>, head: nat): map<nat, nat>
    requires head in next && next[head] in prev && next[head] in next && next[next[head]] in next
  {
    next[prev[next[head]] := next[next[next[head]]]]
  }

  /**
   A take from a list of three or more loses the next block as well, one from a shorter list
   leaves the block in the list: it never leaves the list without the taken block.
   */
  lemma WrittenTakeExact(k: Links, l: seq<nat>)
    requires Ring(k, l)
    ensures l[0] in k.next && k.next[l[0]] in k.prev && k.next[l[0]] in k.next && k.next[k.next[l[0]]] in k.next
    ensures |l| >= 3 ==> Reads(WrittenTake(k.next, k.prev, l[0]), [l[0]] + l[3..])
    ensures |l| <= 2 ==> Reads(WrittenTake(k.next, k.prev, l[0]), l)
    ensures |l| >= 2 ==> !(Reads(WrittenTake(k.next, k.prev, l[0]), Without(l, l[1])))
  {
    var n := |l|;
    var i := if n > 1 then 1 else 0;
    var j := if n > 2 then 2 else 0;
    assert NextOk(k.next, l, 0) && NextOk(k.next, l, i) && NextOk(k.next, l, j) && PrevOk(k.prev, l, i);
    var next' := WrittenTake(k.next, k.prev, l[0]);
    if n <= 2 {
      assert next' == k.next;
    } else {
      SkipTwo(k.next, l);
    }
    if n >= 2 {
      WithoutAt(l, 1);
      var w := Without(l, l[1]);
      assert w[0] == l[0] && |w| == n - 1;
      if Reads(next', w) {
        ReadsOnce(next', w, if n <= 2 then l else [l[0]] + l[3..]);
        assert false;
      }
    }
  }

  lemma SkipTwo(next: map<nat, nat>, l: seq<nat>)
    requires Reads(next, l) && |l| >= 3
    ensures Reads(next[l[0] := Succ(l, 2)], [l[0]] + l[3..])
  {
    var w, next' := [l[0]] + l[3..], next[l[0] := Succ(l, 2)];
    forall j: nat ensures NextOk(next', w, j) {
      assert NextOk(next, l, if j == 0 then 0 else j + 2);
    }
  }

  /** What that does to the count of free pages: a block's worth is missing, or listed while in use. */
  lemma WrittenTakeLoses(lists: seq<seq<nat>>, free: set<nat>, k: nat)
    requires ListsCanonical(lists, free) && k < MAX_ORDER && |lists[k]| >= 2
    ensures var left := |free - Pages(BlockAt(k, lists[k][1]))|;
      && (|lists[k]| >= 3 ==> left == ListedPages(lists[k := [lists[k][0]] + lists[k][3..]], MAX_ORDER) + Pow2(k))
      && (|lists[k]| == 2 ==> left + Pow2(k) == ListedPages(lists, MAX_ORDER))
  {
    var l := lists[k];
    assert ListCanonical(l, k, free);
    assert l[1] in l && Listed(free, k, l[1]);
    FreePagesCounted(lists, free);
    PagesSize(BlockAt(k, l[1]));
    assert |free - Pages(BlockAt(k, l[1]))| == |free| - Pow2(k);
    if |l| >= 3 {
      var one, two := [l[0]] + l[2..], [l[0]] + l[3..];
      ListedPagesShrink(lists, k, one, MAX_ORDER);
      ListedPagesShrink(lists[k := one], k, two, MAX_ORDER);
      assert lists[k := one][k := two] == lists[k := two];
    }
  }

  /** Three single pages listed, one taken: page 8 is free and on no list. */
  lemma WrittenTakeExample()
    ensures var k := Links(map[2 := 5, 5 := 8, 8 := 2], map[2 := 8, 5 := 2, 8 := 5]);
      Ring(k, [2, 5, 8]) && Reads(WrittenTake(k.next, k.prev, 2), [2])
  {
    var k := Links(map[2 := 5, 5 := 8, 8 := 2], map[2 := 8, 5 := 2, 8 := 5]);
    assert Ring(k, [2, 5, 8]);
    WrittenTakeExact(k, [2, 5, 8]);
    assert [[2, 5, 8][0]] + [2, 5, 8][3..] == [2];
  }
}
