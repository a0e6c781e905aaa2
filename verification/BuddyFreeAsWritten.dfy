/**
 A whole __free_pages___ (mm/page_alloc.c:170-232) as it is written, over the links of the free
 lists and the bounds of mem_map.
 */
module BuddyFreeAsWritten {
  import opened Basics
  import opened Lists
  import opened Rings
  import opened BuddyBlocks
  import opened FreeLists
  import opened BuddyModel
  import opened BuddyTiling
  import opened BuddyAsWritten

  // ------------------------------------------------------------ a whole free of one page

  /** Where the climb from x ends when the pages of G have count 0, or are being freed. */
  ghost function MergedTop(G: set<nat>, x: Block): Block
    requires x.order <= TOP
    decreases TOP - x.order
  {
    if x.order == TOP || !(Pages(Sibling(x)) <= G) then x else MergedTop(G, Parent(x))
  }

  /** The lists after the written rounds of that climb. */
  ghost function WrittenMerge(lists: seq<seq<nat>>, G: set<nat>, x: Block): (r: seq<seq<nat>>)
    requires |lists| == MAX_ORDER && x.order <= TOP
    ensures |r| == MAX_ORDER
    decreases TOP - x.order
  {
    if x.order == TOP || !(Pages(Sibling(x)) <= G) then lists
    else WrittenMerge(WrittenUnlink(lists, x), G, Parent(x))
  }

  /** And with the merged block linked (lines 216-217). */
  ghost function WrittenFreed(lists: seq<seq<nat>>, G: set<nat>, x: Block): seq<seq<nat>>
    requires |lists| == MAX_ORDER && x.order <= TOP && MergedTop(G, x).order <= TOP
  {
    var top, l := MergedTop(G, x), WrittenMerge(lists, G, x);
    l[top.order := Insert(l[top.order], First(top))]
  }

  lemma {:induction false} TopCanonical(G: set<nat>, x: Block)
    requires x.order <= TOP && Pages(x) <= G
    ensures var top := MergedTop(G, x); Canonical(G, top) && Pages(x) <= Pages(top) && x.order <= top.order
    decreases TOP - x.order
  {
    ParentSplits(x);
    if x.order < TOP && Pages(Sibling(x)) <= G {
      TopCanonical(G, Parent(x));
    }
  }

  lemma {:induction false} LaterRounds(lists: seq<seq<nat>>, G: set<nat>, x: Block, k: nat)
    requires |lists| == MAX_ORDER && k < x.order <= TOP
    ensures WrittenMerge(lists, G, x)[k] == lists[k]
    decreases TOP - x.order
  {
    if x.order < TOP && Pages(Sibling(x)) <= G {
      LaterRounds(WrittenUnlink(lists, x), G, Parent(x), k);
    }
  }

  /** x ends where y ends. */
  predicate EndsWith(y: Block, x: Block) {
    First(x) + Pow2(x.order) == First(y) + Pow2(y.order)
  }

  /** The lists come out right if and only if x was the upper half in every round. */
  lemma {:induction false} WrittenMergeExact(lists: seq<seq<nat>>, G: set<nat>, x: Block)
    requires x.order <= TOP && Pages(x) <= G && ListsCanonical(lists, G - Pages(x))
    ensures MergedTop(G, x).order <= TOP
    ensures ListsCanonical(WrittenFreed(lists, G, x), G) <==> EndsWith(MergedTop(G, x), x)
    decreases TOP - x.order
  {
    TopCanonical(G, x);
    ParentSplits(x);
    FirstOfParent(x);
    if x.order == TOP || !(Pages(Sibling(x)) <= G) {
      AddBlock(lists, G, x);
    } else if x.idx % 2 == 1 {
      WrittenUnlinkExact(lists, G, x);
      WrittenMergeExact(WrittenUnlink(lists, x), G, Parent(x));
    } else {
      LowerHalfBreaks(lists, G, x);
    }
  }

  /** The buddy of a lower half stays listed although it has been merged away. */
  lemma LowerHalfBreaks(lists: seq<seq<nat>>, G: set<nat>, x: Block)
    requires x.order < TOP && Pages(x) <= G && Pages(Sibling(x)) <= G && x.idx % 2 == 0
    requires ListsCanonical(lists, G - Pages(x))
    ensures MergedTop(G, x).order <= TOP
    ensures !ListsCanonical(WrittenFreed(lists, G, x), G) && !EndsWith(MergedTop(G, x), x)
  {
    var y, top := Sibling(x), MergedTop(G, x);
    ParentSplits(x);
    FirstOfParent(x);
    TopCanonical(G, Parent(x));
    BuddyListed(lists, G, x);
    assert ListCanonical(lists[x.order], x.order, G - Pages(x));
    WithoutMeaning(lists[x.order], First(x));
    LaterRounds(WrittenUnlink(lists, x), G, Parent(x), x.order);
    PagesNonempty(y);
    BlockFirst(y);
    assert First(y) in WrittenFreed(lists, G, x)[x.order] && !Listed(G, x.order, First(y));
    assert First(y) in Pages(top);
    assert !ListCanonical(WrittenFreed(lists, G, x)[x.order], x.order, G);
  }

  // ------------------------------------------------------------ over the links

  /**
   The head and the links of one free list.  The links of pages on different lists are different
   fields: no page is on two lists, and a page that leaves one is not read there any more.
   */
  datatype Area = Area(head: Option<nat>, links: Links)

  /** The list l is what the head and next lead through. */
  ghost predicate AreaReads(a: Area, l: seq<nat>) {
    if l == [] then a.head == None else a.head == Some(l[0]) && Reads(a.links.next, l)
  }

  /** And it is linked in both directions. */
  ghost predicate AreaRing(a: Area, l: seq<nat>) {
    AreaReads(a, l) && (l != [] ==> Ring(a.links, l))
  }

  /** remove_free_area (lines 30-51) on a list that is the ring l: the head is never moved on. */
  function RemoveArea(a: Area, l: seq<nat>, p: nat): Area {
    a.(links := WrittenRemove(a.links, l, p))
  }

  lemma RemoveAreaExact(a: Area, l: seq<nat>, p: nat)
    requires AreaRing(a, l)
    ensures RemoveArea(a, l, p).head == a.head
    ensures p !in l ==> RemoveArea(a, l, p) == a
    ensures l != [] && p != l[0] ==> AreaReads(RemoveArea(a, l, p), Without(l, p))
  {
    if l != [] { WrittenRemoveExact(a.links, l, p); }
  }

  /** add_free_area (lines 11-25). */
  function AddArea(a: Area, p: nat): Area {
    match a.head
    case None => Area(Some(p), Links(a.links.next[p := p], a.links.prev[p := p]))
    case Some(h) =>
      var n := if h in a.links.next then a.links.next[h] else h;
      a.(links := Links(a.links.next[p := n][h := p], a.links.prev[n := p][p := h]))
  }

  lemma AddAreaReads(a: Area, l: seq<nat>, p: nat)
    requires AreaReads(a, l) && p !in l
    ensures AreaReads(AddArea(a, p), Insert(l, p))
  {
    InsertMeaning(l, p);
    if l == [] {
      var m, next := [p], AddArea(a, p).links.next;
      assert Distinct(m) && forall i: nat :: NextOk(next, m, i);
    } else {
      assert Distinct(l);
      assert NextOk(a.links.next, l, 0);
      var m, next := Insert(l, p), AddArea(a, p).links.next;
      assert Distinct(m);
      forall i: nat ensures NextOk(next, m, i) {
        assert NextOk(a.links.next, l, if i == 0 then 0 else i - 1);
      }
    }
  }

  /** The areas follow the lists, as intact rings from order k on. */
  ghost predicate AreasOk(areas: seq<Area>, lists: seq<seq<nat>>, k: nat) {
    && |areas| == |lists| == MAX_ORDER
    && (forall i :: 0 <= i < MAX_ORDER ==> AreaReads(areas[i], lists[i]))
    && (forall i :: k <= i < MAX_ORDER ==> AreaRing(areas[i], lists[i]))
  }

  /** The page that a merge round of x unlinks: the head of the lower half. */
  function Unlinked(x: Block): nat {
    First(if x.idx % 2 == 1 then Sibling(x) else x)
  }

  /** The areas after the written rounds of the climb from x; each round walks the list of its own order. */
  ghost function MergeAreas(areas: seq<Area>, lists: seq<seq<nat>>, G: set<nat>, x: Block): (r: seq<Area>)
    requires x.order <= TOP && |areas| == |lists| == MAX_ORDER
    ensures |r| == MAX_ORDER
    decreases TOP - x.order
  {
    if x.order == TOP || !(Pages(Sibling(x)) <= G) then areas
    else MergeAreas(areas[x.order := RemoveArea(areas[x.order], lists[x.order], Unlinked(x))], lists, G, Parent(x))
  }

  /** And with the merged block linked. */
  ghost function FreedAreas(areas: seq<Area>, lists: seq<seq<nat>>, G: set<nat>, x: Block): (r: seq<Area>)
    requires x.order <= TOP && |areas| == |lists| == MAX_ORDER && MergedTop(G, x).order <= TOP
    ensures |r| == MAX_ORDER
  {
    var o, r := MergedTop(G, x).order, MergeAreas(areas, lists, G, x);
    r[o := AddArea(r[o], First(MergedTop(G, x)))]
  }

  /** Rounds from x on touch no list of a lower order, and only walk the lists from x on. */
  lemma {:induction false} LaterAreas(areas: seq<Area>, lists: seq<seq<nat>>, G: set<nat>, x: Block, k: nat)
    requires x.order <= TOP && |areas| == |lists| == MAX_ORDER && k < x.order
    ensures MergeAreas(areas, lists, G, x)[k] == areas[k]
    decreases TOP - x.order
  {
    if x.order < TOP && Pages(Sibling(x)) <= G {
      LaterAreas(areas[x.order := RemoveArea(areas[x.order], lists[x.order], Unlinked(x))], lists, G, Parent(x), k);
    }
  }

  lemma {:induction false} SameWalks(areas: seq<Area>, lists: seq<seq<nat>>, lists': seq<seq<nat>>, G: set<nat>, x: Block)
    requires x.order <= TOP && |areas| == |lists| == |lists'| == MAX_ORDER
    requires forall k :: x.order <= k < MAX_ORDER ==> lists[k] == lists'[k]
    ensures MergeAreas(areas, lists, G, x) == MergeAreas(areas, lists', G, x)
    decreases TOP - x.order
  {
    if x.order < TOP && Pages(Sibling(x)) <= G {
      SameWalks(areas[x.order := RemoveArea(areas[x.order], lists[x.order], Unlinked(x))], lists, lists', G, Parent(x));
    }
  }

  /** Read from their heads the areas hold exactly the canonical blocks of G. */
  ghost predicate AreasRight(areas: seq<Area>, G: set<nat>) {
    exists lists: seq<seq<nat>> :: AllRead(areas, lists) && ListsCanonical(lists, G)
  }

  ghost predicate AllRead(areas: seq<Area>, lists: seq<seq<nat>>) {
    |areas| == |lists| && forall k :: 0 <= k < |areas| ==> AreaReads(areas[k], lists[k])
  }

  /** No buddy merged on the way is the head of its list. */
  ghost predicate NoMergedHead(lists: seq<seq<nat>>, G: set<nat>, x: Block)
    requires x.order <= TOP && |lists| == MAX_ORDER
    decreases TOP - x.order
  {
    x.order == TOP || !(Pages(Sibling(x)) <= G) ||
    ((lists[x.order] == [] || lists[x.order][0] != First(Sibling(x))) && NoMergedHead(lists, G, Parent(x)))
  }

  lemma {:induction false} SameHeads(lists: seq<seq<nat>>, lists': seq<seq<nat>>, G: set<nat>, x: Block)
    requires x.order <= TOP && |lists| == |lists'| == MAX_ORDER
    requires forall k :: x.order <= k < MAX_ORDER ==> lists[k] == lists'[k]
    ensures NoMergedHead(lists, G, x) <==> NoMergedHead(lists', G, x)
    decreases TOP - x.order
  {
    if x.order < TOP && Pages(Sibling(x)) <= G { SameHeads(lists, lists', G, Parent(x)); }
  }

  /** A list that still contains the buddy of x after x was merged with it is not canonical. */
  lemma BuddyLeftOver(areas: seq<Area>, G: set<nat>, x: Block, l: seq<nat>)
    requires x.order < TOP && |areas| == MAX_ORDER && Pages(Parent(x)) <= G
    requires (AreaReads(areas[x.order], l) && First(Sibling(x)) in l)
             || areas[x.order].head == Some(First(Sibling(x)))
    ensures !AreasRight(areas, G)
  {
    var y := Sibling(x);
    ParentSplits(x);
    BlockFirst(y);
    forall lists: seq<seq<nat>> | AllRead(areas, lists) ensures !ListsCanonical(lists, G) {
      assert AreaReads(areas[x.order], lists[x.order]);
      if areas[x.order].head != Some(First(y)) {
        ReadsOnce(areas[x.order].links.next, l, lists[x.order]);
      }
      assert First(y) in lists[x.order];
      if ListsCanonical(lists, G) { assert false; }
    }
  }

  /**
   The lists read from their heads come out right if and only if x was the upper half in every
   round and no buddy it was merged with is the head of its list.
   */
  lemma {:induction false} MergeAreasExact(areas: seq<Area>, lists: seq<seq<nat>>, G: set<nat>, x: Block)
    requires x.order <= TOP && Pages(x) <= G && ListsCanonical(lists, G - Pages(x)) && AreasOk(areas, lists, x.order)
    ensures MergedTop(G, x).order <= TOP
    ensures AreasRight(FreedAreas(areas, lists, G, x), G)
      <==> EndsWith(MergedTop(G, x), x) && NoMergedHead(lists, G, x)
    decreases TOP - x.order
  {
    TopCanonical(G, x);
    if x.order == TOP || !(Pages(Sibling(x)) <= G) {
      LinkTop(areas, lists, G, x);
    } else {
      ParentSplits(x);
      FirstOfParent(x);
      var l, y, areas' := lists[x.order], Sibling(x), areas[x.order := RemoveArea(areas[x.order], lists[x.order], Unlinked(x))];
      RemoveAreaExact(areas[x.order], l, Unlinked(x));
      TopCanonical(G, Parent(x));
      LaterAreas(areas', lists, G, Parent(x), x.order);
      BuddyListed(lists, G, x);
      if x.idx % 2 == 0 {
        LowerHalfBreaks(lists, G, x);
        NotInOwnList(lists, G, x);
        BuddyLeftOver(FreedAreas(areas, lists, G, x), G, x, l);
      } else if l[0] == First(y) {
        BuddyLeftOver(FreedAreas(areas, lists, G, x), G, x, l);
      } else {
        WrittenUnlinkExact(lists, G, x);
        var lists' := WrittenUnlink(lists, x);
        SameWalks(areas', lists, lists', G, Parent(x));
        SameHeads(lists, lists', G, Parent(x));
        MergeAreasExact(areas', lists', G, Parent(x));
      }
    }
  }

  lemma NotInOwnList(lists: seq<seq<nat>>, G: set<nat>, x: Block)
    requires x.order <= TOP && ListsCanonical(lists, G - Pages(x))
    ensures First(x) !in lists[x.order]
  {
    assert ListCanonical(lists[x.order], x.order, G - Pages(x));
    BlockFirst(x);
    PagesNonempty(x);
  }

  /** With no round left, linking the block gives the canonical lists. */
  lemma LinkTop(areas: seq<Area>, lists: seq<seq<nat>>, G: set<nat>, x: Block)
    requires Canonical(G, x) && ListsCanonical(lists, G - Pages(x)) && AreasOk(areas, lists, x.order)
    ensures AreasRight(areas[x.order := AddArea(areas[x.order], First(x))], G)
  {
    AddBlock(lists, G, x);
    NotInOwnList(lists, G, x);
    AddAreaReads(areas[x.order], lists[x.order], First(x));
    var lists' := lists[x.order := Insert(lists[x.order], First(x))];
    assert AllRead(areas[x.order := AddArea(areas[x.order], First(x))], lists');
  }

  /** What a free of page pfn must achieve: the right pages free, the right lists, no stray write. */
  ghost predicate FreedRight(count: seq<nat>, limit: nat, areas: seq<Area>, G: set<nat>, p: nat, n: nat) {
    FreeSet(count, limit) == G && LoopInside(p, n) && AreasRight(areas, G)
  }

  /**
   A whole __free_pages___ of a page in use (lines 170-232, starting order 0), from lists that are
   intact rings: it comes out right if and only if the page merges, is the last page of the merged
   block, no merged buddy is the head of its list, no page in use follows the block within its
   own size, and the block does not end mem_map below the top order.
   */
  lemma WrittenFreeExact(count: seq<nat>, limit: nat, lists: seq<seq<nat>>, areas: seq<Area>, pfn: nat)
    requires |count| == NR_PAGES && limit <= NR_PAGES && limit % TOP_PAGES == 0
    requires pfn < limit && count[pfn] > 0
    requires ListsCanonical(lists, FreeSet(count, limit)) && AreasOk(areas, lists, 0)
    ensures var G, b := FreeSet(count, limit) + {pfn}, Block(0, pfn);
      var top := MergedTop(G, b);
      && top.order <= TOP
      && (FreedRight(WrittenClear(count, First(top), AsWrittenCount(top)), limit,
                     FreedAreas(areas, lists, G, b), G, First(top), AsWrittenCount(top))
          <==> top.order > 0 && EndsWith(top, b) && NoMergedHead(lists, G, b) && FreeBehind(top, limit, G)
               && (top.order == TOP || First(top) + Pow2(top.order) != NR_PAGES))
  {
    var F, b := FreeSet(count, limit), Block(0, pfn);
    var G := F + {pfn};
    SinglePage(pfn);
    assert G - Pages(b) == F;
    TopCanonical(G, b);
    MergeAreasExact(areas, lists, G, b);
    var top := MergedTop(G, b);
    WrittenClearExact(count, limit, b, top, G);
    LastIsFirst(top, pfn);
  }

  /** The last page of a block is its first exactly when there is only one. */
  lemma LastIsFirst(x: Block, p: nat)
    ensures EndsWith(x, Block(0, p)) ==> (First(Block(0, p)) == First(x) <==> x.order == 0)
  {
    if x.order > 0 { FirstOfParent(Block(x.order - 1, 2 * x.idx)); }
  }

  /** A page that does not merge is never marked free. */
  lemma UnmergedStaysInUse(count: seq<nat>, limit: nat, pfn: nat)
    requires |count| == NR_PAGES && limit <= NR_PAGES && pfn < limit && count[pfn] > 0
    requires MergedTop(FreeSet(count, limit) + {pfn}, Block(0, pfn)) == Block(0, pfn)
    ensures pfn !in FreeSet(WrittenClear(count, First(Block(0, pfn)), AsWrittenCount(Block(0, pfn))), limit)
  {
    assert First(Block(0, pfn)) == pfn;
  }

  // ------------------------------------------------------------ instances

  /** Free lists in which only order 0 may have entries. */
  function Singles(l: seq<nat>, pairs: seq<nat>): seq<seq<nat>> {
    [l, pairs, [], [], [], [], [], [], []]
  }

  function RingArea(l: seq<nat>): Area {
    if l == [] then Area(None, Links(map[], map[]))
    else if |l| == 1 then Area(Some(l[0]), Links(map[l[0] := l[0]], map[l[0] := l[0]]))
    else Area(Some(l[0]), Links(map[l[0] := l[1], l[1] := l[0]], map[l[0] := l[1], l[1] := l[0]]))
  }

  lemma RingAreaOk(l: seq<nat>)
    requires Distinct(l) && |l| <= 2
    ensures AreaRing(RingArea(l), l)
  {
    if l != [] {
      var k := RingArea(l).links;
      assert forall i: nat :: NextOk(k.next, l, i) && PrevOk(k.prev, l, i);
    }
  }

  function RingAreas(lists: seq<seq<nat>>): (r: seq<Area>)
    ensures |r| == |lists|
  {
    seq(|lists|, i requires 0 <= i < |lists| => RingArea(lists[i]))
  }

  lemma PairPages(i: nat)
    ensures Pages(Block(1, i)) == {2 * i, 2 * i + 1} && First(Block(1, i)) == 2 * i && Pow2(1) == 2
    ensures Parent(Block(0, 2 * i)) == Parent(Block(0, 2 * i + 1)) == Block(1, i)
    ensures Sibling(Block(0, 2 * i + 1)) == Block(0, 2 * i) && Sibling(Block(0, 2 * i)) == Block(0, 2 * i + 1)
  {
    ParentSplits(Block(0, 2 * i));
    SinglePage(2 * i);
    SinglePage(2 * i + 1);
    FirstOfParent(Block(0, 2 * i));
  }

  /** Page p is free and its buddy is not. */
  lemma SingleCanonical(free: set<nat>, p: nat)
    requires p in free && (if p % 2 == 0 then p + 1 else p - 1) !in free
    ensures Canonical(free, Block(0, p)) && First(Block(0, p)) == p && Pages(Block(0, p)) == {p}
  {
    PairPages(p / 2);
    SinglePage(p);
  }

  function UsedBut(free: set<nat>): seq<nat> {
    seq(NR_PAGES, i => if i in free then 0 else 1)
  }

  lemma UsedButFree(free: set<nat>, limit: nat)
    requires limit <= NR_PAGES && forall i :: i in free ==> i < limit
    ensures FreeSet(UsedBut(free), limit) == free
  {
  }

  /** Where the climb from page 2 * i + 1 ends when its buddy is free and the pair before it is not. */
  lemma PairTop(G: set<nat>, i: nat)
    requires i % 2 == 1 && 2 * i in G && 2 * i + 1 in G && 2 * i - 1 !in G
    ensures MergedTop(G, Block(0, 2 * i + 1)) == Block(1, i)
    ensures EndsWith(Block(1, i), Block(0, 2 * i + 1))
  {
    PairPages(i);
    PairPages(i - 1);
    SinglePage(2 * i);
    assert Sibling(Block(1, i)) == Block(1, i - 1);
    assert 2 * i - 1 in Pages(Block(1, i - 1));
    assert MergedTop(G, Block(0, 2 * i + 1)) == MergedTop(G, Block(1, i)) == Block(1, i);
    assert First(Block(0, 2 * i + 1)) == 2 * i + 1;
  }

  /** Pages 2, 4 and 5 free, page 3 freed: only the head of the list of order 0 is in the way. */
  lemma MergedHeadExample()
    ensures var free, lists := {2, 4, 5}, Singles([2], [4]);
      var G, top := free + {3}, Block(1, 1);
      && FreeSet(UsedBut(free), TOP_PAGES) == free && ListsCanonical(lists, free) && AreasOk(RingAreas(lists), lists, 0)
      && MergedTop(G, Block(0, 3)) == top && EndsWith(top, Block(0, 3)) && FreeBehind(top, TOP_PAGES, G)
      && !FreedRight(WrittenClear(UsedBut(free), First(top), AsWrittenCount(top)), TOP_PAGES,
                     FreedAreas(RingAreas(lists), lists, G, Block(0, 3)), G, First(top), AsWrittenCount(top))
  {
    var free, lists := {2, 4, 5}, Singles([2], [4]);
    var G := free + {3};
    PairAndSingle();
    PairTop(G, 1);
    PairPages(1);
    UsedButFree(free, TOP_PAGES);
    WrittenFreeExact(UsedBut(free), TOP_PAGES, lists, RingAreas(lists), 3);
    HeadOfPair(lists, G);
    BehindPair(G);
  }

  lemma BehindPair(G: set<nat>)
    requires 4 in G && 5 in G
    ensures FreeBehind(Block(1, 1), TOP_PAGES, G)
  {
    PairPages(1);
    assert AsWrittenCount(Block(1, 1)) == 4;
  }

  lemma HeadOfPair(lists: seq<seq<nat>>, G: set<nat>)
    requires |lists| == MAX_ORDER && lists[0] == [2] && 2 in G
    ensures !NoMergedHead(lists, G, Block(0, 3))
  {
    PairPages(1);
    SinglePage(2);
    assert Pages(Sibling(Block(0, 3))) <= G && First(Block(0, 2)) == 2;
  }

  lemma PairAndSingle()
    ensures var lists := Singles([2], [4]); ListsCanonical(lists, {2, 4, 5}) && AreasOk(RingAreas(lists), lists, 0)
  {
    var none, lists := Singles([], []), Singles([2], [4]);
    NothingListed(none);
    SingleCanonical({2}, 2);
    assert {2} - {2} == {};
    AddBlock(none, {2}, Block(0, 2));
    assert none[0 := Insert([], 2)] == Singles([2], []);
    PairPages(2);
    PairPages(3);
    ParentSplits(Block(1, 2));
    assert 6 in Pages(Block(1, 3)) && Sibling(Block(1, 2)) == Block(1, 3);
    assert {2, 4, 5} - {4, 5} == {2};
    AddBlock(Singles([2], []), {2, 4, 5}, Block(1, 2));
    assert Singles([2], [])[1 := Insert([], 4)] == lists;
    forall i | 0 <= i < MAX_ORDER ensures AreaRing(RingAreas(lists)[i], lists[i]) { RingAreaOk(lists[i]); }
  }

  /** Pages 100 and 8190 free, page 8191 freed: only the end of mem_map is in the way. */
  lemma EndOfMemoryExample()
    ensures var free, lists := {100, 8190}, Singles([100, 8190], []);
      var G, b, top := free + {8191}, Block(0, 8191), Block(1, 4095);
      && FreeSet(UsedBut(free), NR_PAGES) == free && ListsCanonical(lists, free) && AreasOk(RingAreas(lists), lists, 0)
      && MergedTop(G, b) == top && EndsWith(top, b) && NoMergedHead(lists, G, b) && FreeBehind(top, NR_PAGES, G)
      && LoopWrites(First(top), AsWrittenCount(top), NR_PAGES)
      && !FreedRight(WrittenClear(UsedBut(free), First(top), AsWrittenCount(top)), NR_PAGES,
                     FreedAreas(RingAreas(lists), lists, G, b), G, First(top), AsWrittenCount(top))
  {
    var free, none, lists := {100, 8190}, Singles([], []), Singles([100, 8190], []);
    var G, b := free + {8191}, Block(0, 8191);
    NothingListed(none);
    SingleCanonical({100}, 100);
    assert {100} - {100} == {};
    AddBlock(none, {100}, Block(0, 100));
    assert none[0 := Insert([], 100)] == Singles([100], []);
    SingleCanonical(free, 8190);
    assert free - {8190} == {100};
    AddBlock(Singles([100], []), free, Block(0, 8190));
    assert Insert([100], 8190) == [100, 8190] && Singles([100], [])[0 := [100, 8190]] == lists;
    forall i | 0 <= i < MAX_ORDER ensures AreaRing(RingAreas(lists)[i], lists[i]) { RingAreaOk(lists[i]); }
    UsedButFree(free, NR_PAGES);
    PairTop(G, 4095);
    PairPages(4095);
    PairPages(4094);
    assert AsWrittenCount(Block(1, 4095)) == 4;
    assert Sibling(Block(1, 4095)) == Block(1, 4094) && 8189 in Pages(Block(1, 4094));
    assert NoMergedHead(lists, G, Block(1, 4095));
    assert Sibling(b) == Block(0, 8190) && First(Block(0, 8190)) == 8190 && Parent(b) == Block(1, 4095);
    WrittenFreeExact(UsedBut(free), NR_PAGES, lists, RingAreas(lists), 8191);
  }

  // ------------------------------------------------------------ orders above 0

  /**
   Where the climb ends that starts at the page number itself, whatever the order (lines 180-213).
   count is whatever is read, in mem_map or behind it.
   */
  ghost function ClimbFrom(count: nat -> nat, x: Block): Block
    requires x.order <= TOP
    decreases TOP - x.order
  {
    if x.order < TOP && AllZero(count, Sibling(x)) then ClimbFrom(count, Parent(x)) else x
  }

  ghost predicate AllZero(count: nat -> nat, x: Block) {
    forall i :: i in Pages(x) ==> count(i) == 0
  }

  /** Everything the climb has merged has count 0, except the block it started from. */
  lemma {:induction false} MergedAreZero(count: nat -> nat, x: Block, i: nat)
    requires x.order <= TOP
    ensures Pages(x) <= Pages(ClimbFrom(count, x)) && x.order <= ClimbFrom(count, x).order <= TOP
    ensures i in Pages(ClimbFrom(count, x)) && i !in Pages(x) ==> count(i) == 0
    decreases TOP - x.order
  {
    if x.order < TOP && AllZero(count, Sibling(x)) {
      ParentSplits(x);
      MergedAreZero(count, Parent(x), i);
    }
  }

  /** The head of the block that is linked in the end, and how far the closing loop runs from it. */
  ghost function LinkedHead(count: nat -> nat, b: Block): nat
    requires b.order <= TOP
  {
    var x := Block(b.order, First(b));
    if ClimbFrom(count, x) == x then First(b) else First(ClimbFrom(count, x))
  }

  ghost function LoopLength(count: nat -> nat, b: Block): nat
    requires b.order <= TOP
  {
    WrittenClearLength(b, ClimbFrom(count, Block(b.order, First(b))))
  }

  /**
   A written free of a block of order 1 or more never comes out right: the closing loop never
   reaches the block's own first page, which stays in use.
   */
  lemma LargeFreeKeepsHead(count: nat -> nat, b: Block)
    requires 1 <= b.order <= TOP && forall i :: i in Pages(b) ==> count(i) > 0
    ensures !LoopWrites(LinkedHead(count, b), LoopLength(count, b), First(b))
  {
    var x := Block(b.order, First(b));
    var top := ClimbFrom(count, x);
    MergedAreZero(count, x, First(b));
    PagesNonempty(b);
    PagesNonempty(x);
    FartherOut(First(b), b.order);
    assert top != x && First(top) < First(b) ==> First(b) in Pages(top);
  }

  lemma FartherOut(f: nat, k: nat)
    requires k >= 1
    ensures f * Pow2(k) >= f && (f > 0 ==> f * Pow2(k) > f)
  {
    var h := Pow2(k - 1);
    assert f * (2 * h) == f * h + f * h;
    if f > 0 { MulAtLeast(f, h); MulAtLeast(h, f); assert f * h == h * f; }
  }
}
