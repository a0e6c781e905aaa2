/**
 The walk of init_buddy_pages (mm/page_alloc.c:247-269) over [start, NR_PAGES): the canonical
 blocks grow from left to right, so a cursor advanced by the returned count stays inside the next.
 */
module BuddyTiling {
  import opened Lists
  import opened BuddyBlocks
  import opened FreeLists
  import opened BuddyModel

  /** The count __free_pages___ returns: doubled except at the top order. */
  function AsWrittenCount(x: Block): nat {
    if x.order == TOP then Pow2(TOP) else 2 * Pow2(x.order)
  }

  /** s is start, or the end of the canonical block last of [start, NR_PAGES). */
  ghost predicate At(start: nat, s: nat, last: Block) {
    s == start || (Canonical(Range(start, NR_PAGES), last) && First(last) + Pow2(last.order) == s)
  }

  /** The cursor lies inside the canonical block that starts at s. */
  ghost predicate CursorInside(start: nat, s: nat, i: nat) {
    s <= i && forall x :: Canonical(Range(start, NR_PAGES), x) && First(x) == s ==> i < s + Pow2(x.order)
  }

  /** A canonical block starts exactly where the tiling has got to. */
  lemma BlockHere(start: nat, s: nat, last: Block) returns (x: Block)
    requires At(start, s, last) && start <= s < NR_PAGES
    ensures Canonical(Range(start, NR_PAGES), x) && First(x) == s
  {
    var G := Range(start, NR_PAGES);
    SinglePage(s);
    x := RunInCanonical(G, Block(0, s));
    assert s in Pages(x);
    PagesNonempty(x);
    if First(x) != s {
      assert s - 1 in Pages(x) && s - 1 in Pages(last);
      InsideCanonical(G, last, x, s - 1);
      assert false;
    }
  }

  lemma FirstCursor(start: nat)
    ensures CursorInside(start, start, start)
  {
  }

  lemma CursorPastEnd(start: nat, s: nat, last: Block, i: nat, end: nat)
    requires At(start, s, last) && CursorInside(start, s, i)
    requires start <= s <= end <= i && end <= NR_PAGES && end % TOP_PAGES == 0
    ensures s == end
  {
    if s < end {
      var x := BlockHere(start, s, last);
      StaysBelowLimit(x, end);
    }
  }

  /** Two aligned blocks of the order of x fit behind x when x is below the top order. */
  lemma TwoMoreFit(start: nat, x: Block) returns (z: Block)
    requires Canonical(Range(start, NR_PAGES), x) && x.order < TOP
    requires First(x) + Pow2(x.order) < NR_PAGES
    ensures z.order == x.order + 1 && First(z) == First(x) + Pow2(x.order)
    ensures Pages(z) <= Range(start, NR_PAGES) && First(x) + 2 * Pow2(x.order) <= NR_PAGES
  {
    var y := Block(x.order, x.idx + 1);
    LowerHalfUsed(start, x);
    FirstOfParent(x);
    FirstOfParent(y);
    assert First(y) == First(x) + Pow2(x.order) by {
      assert (x.idx + 1) * Pow2(x.order) == x.idx * Pow2(x.order) + Pow2(x.order);
    }
    z := Parent(y);
    PagesNonempty(x);
    StaysBelowLimit(z, NR_PAGES);
  }

  lemma InsideMeansSmaller(x: Block, y: Block)
    requires Pages(x) <= Pages(y)
    ensures x.order <= y.order
  {
    if x != y { StrictlyInside(x, y); }
  }

  lemma NextTop(start: nat, x: Block) returns (z: Block)
    requires Canonical(Range(start, NR_PAGES), x) && x.order == TOP
    requires First(x) + Pow2(TOP) < NR_PAGES
    ensures z.order == TOP && First(z) == First(x) + Pow2(TOP) && Pages(z) <= Range(start, NR_PAGES)
  {
    z := Block(TOP, x.idx + 1);
    assert (x.idx + 1) * Pow2(TOP) == x.idx * Pow2(TOP) + Pow2(TOP);
    PagesNonempty(x);
    StaysBelowLimit(z, NR_PAGES);
  }

  /** Below the top order the block that follows is strictly larger. */
  lemma NextLarger(start: nat, x: Block, y: Block)
    requires Canonical(Range(start, NR_PAGES), x) && Canonical(Range(start, NR_PAGES), y)
    requires First(y) == First(x) + Pow2(x.order)
    ensures x.order == TOP == y.order || x.order < y.order
  {
    PagesNonempty(y);
    var z;
    if x.order == TOP { z := NextTop(start, x); } else { z := TwoMoreFit(start, x); }
    PagesNonempty(z);
    InsideCanonical(Range(start, NR_PAGES), z, y, First(y));
    InsideMeansSmaller(z, y);
  }

  /** A canonical block below the top order in [start, NR_PAGES) is the upper half of its parent. */
  lemma LowerHalfUsed(start: nat, x: Block)
    requires Canonical(Range(start, NR_PAGES), x) && x.order < TOP
    ensures x.idx % 2 == 1
  {
    var G := Range(start, NR_PAGES);
    if x.idx % 2 == 0 {
      MergeGeometry(x, NR_PAGES, G);
      FirstOfParent(x);
      PagesNonempty(x);
      assert false;
    }
  }

  /** One round of the initialisation keeps the cursor inside the next block. */
  lemma Advance(start: nat, s: nat, x: Block, i: nat, end: nat)
    requires Canonical(Range(start, NR_PAGES), x) && First(x) == s && start <= s <= i < s + Pow2(x.order)
    requires i < end <= NR_PAGES && end % TOP_PAGES == 0 && start + TOP_PAGES <= NR_PAGES
    ensures i in Pages(x) && s + Pow2(x.order) <= end
    ensures s + AsWrittenCount(x) <= NR_PAGES
    ensures Range(start, s) !! Pages(x) && Range(start, s) + Pages(x) == Range(start, s + Pow2(x.order))
    ensures At(start, s + Pow2(x.order), x)
    ensures CursorInside(start, s + Pow2(x.order), i + AsWrittenCount(x))
  {
    StaysBelowLimit(x, end);
    var s' := s + Pow2(x.order);
    if x.order < TOP {
      if s' == NR_PAGES {
        EndsInTop(start, x);
      } else {
        var z := TwoMoreFit(start, x);
      }
    }
    forall y | Canonical(Range(start, NR_PAGES), y) && First(y) == s'
      ensures i + AsWrittenCount(x) < s' + Pow2(y.order)
    {
      NextLarger(start, x, y);
      if x.order < TOP {
        PowMonotone(x.order + 1, y.order);
      }
    }
  }

  /** With 256 pages above start, the block that reaches the end of memory has the top order. */
  lemma {:induction false} EndsInTop(start: nat, x: Block)
    requires Canonical(Range(start, NR_PAGES), x) && x.order < TOP
    requires start + TOP_PAGES <= NR_PAGES
    ensures First(x) + Pow2(x.order) != NR_PAGES
  {
    if First(x) + Pow2(x.order) == NR_PAGES {
      var t := Block(TOP, NR_PAGES / TOP_PAGES - 1);
      TopPages();
      assert First(t) == NR_PAGES - TOP_PAGES;
      assert Pages(t) <= Range(start, NR_PAGES);
      assert NR_PAGES - 1 in Pages(t) && NR_PAGES - 1 in Pages(x);
      InsideCanonical(Range(start, NR_PAGES), t, x, NR_PAGES - 1);
      InsideMeansSmaller(t, x);
      assert false;
    }
  }

  lemma TopPages()
    ensures Pow2(TOP) == TOP_PAGES
  {
    assert Pow2(2) == 4 && Pow2(4) == 16 && Pow2(6) == 64;
  }
}
