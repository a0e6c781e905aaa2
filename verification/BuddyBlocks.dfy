/**
 The geometry behind the buddy allocator of mm/page_alloc.c: size-aligned
 power-of-two blocks, and the canonical decomposition of a set of free pages
 into maximal aligned blocks.  Everything here is about values; the allocator
 itself is the class in BuddyAllocator.dfy.
 */
module BuddyBlocks {
  import opened Basics

  /** MAX_ORDER is 9 in include/mm/mm.h, so the largest order is 8 (256 pages). */
  const MAX_ORDER: nat := 9
  const TOP: nat := MAX_ORDER - 1

  function Pow2(k: nat): (r: nat)
    ensures r >= 1
  {
    if k == 0 then 1 else 2 * Pow2(k - 1)
  }

  /** The block of 2^order pages starting at page idx * 2^order. */
  datatype Block = Block(order: nat, idx: nat)

  function First(x: Block): nat {
    x.idx * Pow2(x.order)
  }

  predicate Holds(x: Block, i: nat) {
    First(x) <= i < First(x) + Pow2(x.order)
  }

  function Pages(x: Block): set<nat> {
    set i: nat | i < First(x) + Pow2(x.order) && Holds(x, i)
  }

  function Parent(x: Block): Block {
    Block(x.order + 1, x.idx / 2)
  }

  function Sibling(x: Block): Block {
    Block(x.order, if x.idx % 2 == 1 then x.idx - 1 else x.idx + 1)
  }

  /** A maximal aligned block of free pages. */
  predicate Canonical(free: set<nat>, x: Block) {
    && x.order <= TOP
    && Pages(x) <= free
    && (x.order == TOP || !(Pages(Parent(x)) <= free))
  }

  lemma FirstOfParent(x: Block)
    ensures Pow2(x.order + 1) == 2 * Pow2(x.order)
    ensures First(Parent(x)) == First(Block(x.order, 2 * (x.idx / 2)))
    ensures x.idx % 2 == 0 ==> First(Parent(x)) == First(x) && First(Sibling(x)) == First(x) + Pow2(x.order)
    ensures x.idx % 2 == 1 ==> First(Parent(x)) == First(Sibling(x)) && First(x) == First(Sibling(x)) + Pow2(x.order)
  {
    var h, n := x.idx / 2, Pow2(x.order);
    assert h * (2 * n) == (2 * h) * n;
    assert (2 * h + 1) * n == (2 * h) * n + n;
    assert x.idx == 2 * h || x.idx == 2 * h + 1;
  }

  /** A parent is exactly its two halves, side by side. */
  lemma ParentSplits(x: Block)
    ensures Pages(Parent(x)) == Pages(x) + Pages(Sibling(x))
    ensures Pages(x) !! Pages(Sibling(x))
    ensures Parent(Sibling(x)) == Parent(x) && Sibling(Sibling(x)) == x
  {
    FirstOfParent(x);
  }

  lemma PagesNonempty(x: Block)
    ensures First(x) in Pages(x)
  {
  }

  lemma SameOrderDisjoint(x: Block, y: Block)
    requires x.order == y.order && x != y
    ensures Pages(x) !! Pages(y)
  {
    if x.idx < y.idx { LaterBlock(x, y); } else { LaterBlock(y, x); }
  }

  lemma LaterBlock(x: Block, y: Block)
    requires x.order == y.order && x.idx < y.idx
    ensures First(x) + Pow2(x.order) <= First(y)
  {
    var n, d := Pow2(x.order), y.idx - x.idx;
    calc {
      First(y);
      (x.idx + d) * n;
      x.idx * n + d * n;
      >= { MulAtLeast(d, n); }
      x.idx * n + n;
    }
  }

  /** Aligned blocks never overlap partially. */
  lemma {:induction false} Laminar(x: Block, y: Block)
    requires x.order <= y.order
    ensures Pages(x) <= Pages(y) || Pages(x) !! Pages(y)
    ensures x.order < y.order && Pages(x) <= Pages(y) ==> Pages(Parent(x)) <= Pages(y)
    decreases y.order - x.order
  {
    if x.order == y.order {
      if x != y { SameOrderDisjoint(x, y); }
    } else {
      ParentSplits(x);
      PagesNonempty(x);
      Laminar(Parent(x), y);
    }
  }

  /** If x lies strictly inside y then so does the parent of x. */
  lemma StrictlyInside(x: Block, y: Block)
    requires Pages(x) <= Pages(y) && x != y
    ensures x.order < y.order && Pages(Parent(x)) <= Pages(y)
  {
    PagesNonempty(x);
    if x.order < y.order {
      Laminar(x, y);
    } else {
      assert First(x) in Pages(y);
      if x.order == y.order {
        SameOrderDisjoint(x, y);
      } else {
        Laminar(y, x);
        ParentSplits(y);
        PagesNonempty(Sibling(y));
      }
      assert false;
    }
  }

  lemma Overlap(x: Block, y: Block)
    requires !(Pages(x) !! Pages(y))
    ensures Pages(x) <= Pages(y) || Pages(y) <= Pages(x)
  {
    if x.order <= y.order { Laminar(x, y); } else { Laminar(y, x); }
  }

  /**
   The one structural fact behind splitting, coalescing and initialisation:
   adding or removing a canonical block changes the canonical decomposition by
   exactly that block.
   */
  lemma CarveCanonical(free: set<nat>, b: Block, x: Block)
    requires Canonical(free, b)
    ensures Canonical(free - Pages(b), x) <==> Canonical(free, x) && x != b
  {
    var rest := free - Pages(b);
    PagesNonempty(x);
    PagesNonempty(b);
    if Pages(x) !! Pages(b) {
      assert Pages(x) <= rest <==> Pages(x) <= free;
      if x.order < TOP { CarveParent(free, b, x); }
    } else {
      assert !(Pages(x) <= rest);
      if Canonical(free, x) && x != b {
        CanonicalDisjoint(free, x, b);
      }
    }
  }

  lemma CarveParent(free: set<nat>, b: Block, x: Block)
    requires Canonical(free, b) && Pages(x) !! Pages(b) && x.order < TOP
    ensures Pages(Parent(x)) <= free - Pages(b) <==> Pages(Parent(x)) <= free
  {
    if Pages(Parent(x)) <= free && !(Pages(Parent(x)) !! Pages(b)) {
      ParentSplits(x);
      PagesNonempty(x);
      Overlap(Parent(x), b);
      assert First(x) in Pages(Parent(x)) && First(x) !in Pages(b);
      StrictlyInside(b, Parent(x));
      assert false;
    }
  }

  /** Canonical blocks are pairwise disjoint. */
  lemma CanonicalDisjoint(free: set<nat>, x: Block, y: Block)
    requires Canonical(free, x) && Canonical(free, y) && x != y
    ensures Pages(x) !! Pages(y)
  {
    if !(Pages(x) !! Pages(y)) {
      Overlap(x, y);
      if Pages(x) <= Pages(y) { StrictlyInside(x, y); } else { StrictlyInside(y, x); }
      assert false;
    }
  }

  /** Every aligned run of free pages lies inside some canonical block. */
  lemma {:induction false} RunInCanonical(free: set<nat>, x: Block) returns (y: Block)
    requires x.order <= TOP && Pages(x) <= free
    ensures Canonical(free, y) && x.order <= y.order && Pages(x) <= Pages(y)
    decreases TOP - x.order
  {
    if Canonical(free, x) {
      y := x;
    } else {
      ParentSplits(x);
      y := RunInCanonical(free, Parent(x));
    }
  }
}
