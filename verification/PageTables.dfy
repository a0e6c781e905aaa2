/**
 The page tables a fork copies (mm/vmalloc.c:129-183), over physical memory as an array of
 32-bit words.  Translation is the two-level scheme of section 5.2 of the Intel 80386
 Programmer's Reference Manual, with the directory in frame 0.
 */
module PageTables {
  import opened Basics

  const ENTRIES: nat := 1024
  const FRAMES: nat := 8192
  const WORDS: nat := 8388608
  const TASK_SIZE: nat := 0x400_0000

  /** PAGE_P, the lowest bit of an entry. */
  predicate Present(e: nat) {
    e % 2 == 1
  }

  /** Bits 12 to 31 of an entry. */
  function Frame(e: nat): nat {
    e / 4096
  }

  /** The three parts of a linear address. */
  function DirIndex(v: nat): nat {
    v / 0x40_0000
  }

  function TableIndex(v: nat): (i: nat)
    ensures i < ENTRIES
  {
    v / 4096 % ENTRIES
  }

  function Offset(v: nat): nat {
    v % 4096
  }

  function Walk(mem: seq<nat>, d: nat, i: nat, offset: nat): Option<nat>
    requires |mem| == WORDS && d < ENTRIES && i < ENTRIES
  {
    if !Present(mem[d]) || Frame(mem[d]) >= FRAMES then None else
    var p := TableAt(mem, Frame(mem[d]))[i];
    if !Present(p) then None else Some(Frame(p) * 4096 + offset)
  }

  /** Two-level translation of a linear address. */
  function Translate(mem: seq<nat>, v: nat): Option<nat>
    requires |mem| == WORDS && v < 0x1_0000_0000
  {
    Walk(mem, DirIndex(v), TableIndex(v), Offset(v))
  }

  /** Every table the directory points to lies in memory and is not the directory itself. */
  ghost predicate TablesInMemory(mem: seq<nat>) {
    |mem| == WORDS && forall d :: 0 <= d < ENTRIES && Present(mem[d]) ==> 1 <= Frame(mem[d]) < FRAMES
  }

  /** Frames nobody uses as a table yet, all different, none of them the directory. */
  ghost predicate Fresh(mem: seq<nat>, frames: seq<nat>) {
    && |mem| == WORDS
    && (forall i :: 0 <= i < |frames| ==> 1 <= frames[i] < FRAMES)
    && (forall i, j :: 0 <= i < j < |frames| ==> frames[i] != frames[j])
    && (forall i, d :: 0 <= i < |frames| && 0 <= d < ENTRIES && Present(mem[d]) ==> Frame(mem[d]) != frames[i])
  }

  /** The entries of one table. */
  function TableAt(mem: seq<nat>, f: nat): seq<nat>
    requires |mem| == WORDS && f < FRAMES
  {
    mem[f * ENTRIES..(f + 1) * ENTRIES]
  }

  /** How many of the first n source entries are present. */
  function PresentCount(mem: seq<nat>, n: nat): nat
    requires n <= ENTRIES <= |mem|
  {
    if n == 0 then 0 else PresentCount(mem, n - 1) + (if Present(mem[n - 1]) then 1 else 0)
  }

  /** Entry to + k of the directory leads to a copy of the table behind entry k. */
  ghost predicate Copied(was: seq<nat>, mem: seq<nat>, to: nat, k: nat)
    requires TablesInMemory(was) && |mem| == WORDS && to + k < ENTRIES && k < ENTRIES
  {
    if Present(was[k]) then
      && Present(mem[to + k]) && Frame(mem[to + k]) < FRAMES
      && TableAt(mem, Frame(mem[to + k])) == TableAt(was, Frame(was[k]))
    else mem[to + k] == was[to + k]
  }

  /** Nothing but directory entries to, to + 1, to + 2 and the given frames differs. */
  ghost predicate OnlyTouches(was: seq<nat>, mem: seq<nat>, to: nat, frames: seq<nat>) {
    |was| == |mem| == WORDS && forall w :: Spared(was, mem, to, frames, w)
  }

  predicate Spared(was: seq<nat>, mem: seq<nat>, to: nat, frames: seq<nat>, w: int)
    requires |was| == |mem| == WORDS
  {
    0 <= w < WORDS && !(to <= w < to + 3) && w / ENTRIES !in frames ==> mem[w] == was[w]
  }

  /** Copies one table word by word (lines 162-173). */
  method CopyTable(mem: array<nat>, from: nat, dest: nat)
    requires mem.Length == WORDS && from < FRAMES && dest < FRAMES && from != dest
    modifies mem
    ensures TableAt(mem[..], dest) == TableAt(old(mem[..]), from)
    ensures forall w :: 0 <= w < WORDS && w / ENTRIES != dest ==> mem[w] == old(mem[w])
  {
    var fromPte, toPte := from * ENTRIES, dest * ENTRIES;
    for nr := 0 to ENTRIES
      invariant fromPte == from * ENTRIES + nr && toPte == dest * ENTRIES + nr
      invariant mem[dest * ENTRIES..toPte] == old(mem[..])[from * ENTRIES..fromPte]
      invariant forall w :: 0 <= w < WORDS && w / ENTRIES != dest ==> mem[w] == old(mem[w])
    {
      mem[toPte] := mem[fromPte];
      fromPte := fromPte + 1;
      toPte := toPte + 1;
    }
  }

  lemma TableSame(was: seq<nat>, mem: seq<nat>, f: nat)
    requires |was| == |mem| == WORDS && f < FRAMES
    requires forall w :: 0 <= w < WORDS && w / ENTRIES == f ==> mem[w] == was[w]
    ensures TableAt(mem, f) == TableAt(was, f)
  {
  }

  lemma TableKept(was: seq<nat>, mem: seq<nat>, to: nat, frames: seq<nat>, f: nat)
    requires OnlyTouches(was, mem, to, frames) && to + 3 <= ENTRIES && 1 <= f < FRAMES && f !in frames
    ensures TableAt(mem, f) == TableAt(was, f)
  {
    forall w | 0 <= w < WORDS && w / ENTRIES == f ensures mem[w] == was[w] {
      assert Spared(was, mem, to, frames, w);
    }
    TableSame(was, mem, f);
  }

  lemma FreshSource(was: seq<nat>, frames: seq<nat>, f: nat, k: nat)
    requires Fresh(was, frames + [f]) && k < ENTRIES && Present(was[k])
    ensures 1 <= f < FRAMES && f !in frames && Frame(was[k]) != f && Frame(was[k]) !in frames && Fresh(was, frames)
    ensures 0 !in frames
  {
    var all := frames + [f];
    assert all[|frames|] == f;
    assert forall i :: 0 <= i < |frames| ==> all[i] == frames[i];
  }

  /** One round of the loop (lines 148-172): entry k, which is present, into frame f. */
  method CopyEntry(mem: array<nat>, to: nat, k: nat, f: nat, ghost was: seq<nat>, ghost frames: seq<nat>)
    requires mem.Length == WORDS && TablesInMemory(was) && 16 <= to && to + 3 <= ENTRIES && k < 3
    requires OnlyTouches(was, mem[..], to, frames) && Fresh(was, frames + [f]) && Present(was[k])
    modifies mem
    ensures OnlyTouches(was, mem[..], to, frames + [f]) && Copied(was, mem[..], to, k)
    ensures mem[to + k] == 4096 * f + 7 && Frame(mem[to + k]) == f
    ensures forall w :: 0 <= w < WORDS && w != to + k && w / ENTRIES != f ==> mem[w] == old(mem[w])
  {
    FreshSource(was, frames, f, k);
    ghost var before := mem[..];
    mem[to + k] := f * 4096 + 7;
    ghost var mid := mem[..];
    EntryWritten(was, before, mid, to, k, frames, f);
    CopyTable(mem, Frame(mem[k]), f);
    EntryKept(mid, mem[..], to + k, f);
    TouchesMore(was, mid, mem[..], to, frames, f);
  }

  lemma EntryWritten(was: seq<nat>, before: seq<nat>, mid: seq<nat>, to: nat, k: nat, frames: seq<nat>, f: nat)
    requires TablesInMemory(was) && 16 <= to && to + 3 <= ENTRIES && k < 3 && Present(was[k])
    requires OnlyTouches(was, before, to, frames) && mid == before[to + k := f * 4096 + 7]
    requires 0 !in frames && Frame(was[k]) !in frames
    ensures OnlyTouches(was, mid, to, frames) && mid[k] == was[k]
    ensures TableAt(mid, Frame(was[k])) == TableAt(was, Frame(was[k]))
    ensures Present(mid[to + k]) && Frame(mid[to + k]) == f
  {
    EntryTouches(was, before, to, k, frames, f * 4096 + 7);
    assert Spared(was, mid, to, frames, k);
    TableKept(was, mid, to, frames, Frame(was[k]));
    FlaggedEntry(f);
  }

  lemma EntryTouches(was: seq<nat>, before: seq<nat>, to: nat, k: nat, frames: seq<nat>, e: nat)
    requires OnlyTouches(was, before, to, frames) && to + 3 <= ENTRIES && k < 3
    ensures OnlyTouches(was, before[to + k := e], to, frames)
  {
    var mid := before[to + k := e];
    forall w ensures Spared(was, mid, to, frames, w) {
      assert Spared(was, before, to, frames, w);
    }
  }

  /** PAGE_P, PAGE_RWE and PAGE_US on a frame address. */
  lemma FlaggedEntry(f: nat)
    ensures Present(f * 4096 + 7) && Frame(f * 4096 + 7) == f
  {
  }

  lemma EntryKept(mid: seq<nat>, mem: seq<nat>, d: nat, f: nat)
    requires |mid| == |mem| == WORDS && d < ENTRIES && 1 <= f
    requires forall w :: 0 <= w < WORDS && w / ENTRIES != f ==> mem[w] == mid[w]
    ensures mem[d] == mid[d]
  {
  }

  lemma TouchesMore(was: seq<nat>, mid: seq<nat>, mem: seq<nat>, to: nat, frames: seq<nat>, f: nat)
    requires OnlyTouches(was, mid, to, frames) && |mem| == WORDS
    requires forall w :: 0 <= w < WORDS && w / ENTRIES != f ==> mem[w] == mid[w]
    ensures OnlyTouches(was, mem, to, frames + [f])
  {
    assert f in frames + [f] && forall x :: x in frames ==> x in frames + [f];
    forall w ensures Spared(was, mem, to, frames + [f], w) {
      assert Spared(was, mid, to, frames, w);
    }
  }

  /** Copies made in earlier rounds survive. */
  lemma CopiedStays(was: seq<nat>, before: seq<nat>, after: seq<nat>, to: nat, j: nat, k: nat, f: nat)
    requires TablesInMemory(was) && |before| == |after| == WORDS && to + 3 <= ENTRIES && j < 3 && k < 3 && j != k
    requires Copied(was, before, to, j) && 1 <= f < FRAMES
    requires Present(was[j]) ==> Frame(before[to + j]) != f && Frame(before[to + j]) >= 1
    requires forall w :: 0 <= w < WORDS && w != to + k && w / ENTRIES != f ==> after[w] == before[w]
    ensures Copied(was, after, to, j) && after[to + j] == before[to + j]
  {
    if Present(was[j]) {
      TableSame(before, after, Frame(before[to + j]));
    }
  }

  /** What the loop has done after size entries. */
  ghost predicate Progress(was: seq<nat>, mem: seq<nat>, to: nat, n: nat, frames: seq<nat>)
    requires TablesInMemory(was) && to + 3 <= ENTRIES
  {
    && n <= 3 && OnlyTouches(was, mem, to, frames)
    && (forall k :: 0 <= k < n ==> Copied(was, mem, to, k))
    && (forall k :: 0 <= k < n && Present(was[k]) ==> Frame(mem[to + k]) in frames)
    && (forall w :: to + n <= w < to + 3 ==> mem[w] == was[w])
  }

  /** The new directory entry: the next fresh frame, present, writable and open to user mode (line 158). */
  ghost predicate EntrySet(was: seq<nat>, mem: seq<nat>, to: nat, k: nat, frames: seq<nat>)
    requires |was| == |mem| == WORDS && to + k < ENTRIES && k < ENTRIES
  {
    Present(was[k]) ==> PresentCount(was, k) < |frames| && mem[to + k] == 4096 * frames[PresentCount(was, k)] + 7
  }

  ghost predicate EntriesSet(was: seq<nat>, mem: seq<nat>, to: nat, n: nat, frames: seq<nat>)
    requires |was| == |mem| == WORDS && to + 3 <= ENTRIES
  {
    n <= 3 && |frames| == PresentCount(was, n) && forall k :: 0 <= k < n ==> EntrySet(was, mem, to, k, frames)
  }

  /** One more entry, in the next frame. */
  lemma EntriesStep(was: seq<nat>, before: seq<nat>, after: seq<nat>, to: nat, k: nat, frames: seq<nat>, f: nat)
    requires |was| == |before| == |after| == WORDS && to + 3 <= ENTRIES && k < 3 && 1 <= f
    requires EntriesSet(was, before, to, k, frames) && Present(was[k]) && after[to + k] == 4096 * f + 7
    requires forall w :: 0 <= w < WORDS && w != to + k && w / ENTRIES != f ==> after[w] == before[w]
    ensures EntriesSet(was, after, to, k + 1, frames + [f])
  {
    forall j | 0 <= j < k + 1 ensures EntrySet(was, after, to, j, frames + [f]) {
      if j < k { assert EntrySet(was, before, to, j, frames) && after[to + j] == before[to + j]; }
    }
  }

  lemma EntriesSkip(was: seq<nat>, mem: seq<nat>, to: nat, k: nat, frames: seq<nat>)
    requires |was| == |mem| == WORDS && to + 3 <= ENTRIES && k < 3
    requires EntriesSet(was, mem, to, k, frames) && !Present(was[k])
    ensures EntriesSet(was, mem, to, k + 1, frames)
  {
    assert PresentCount(was, k + 1) == PresentCount(was, k);
  }

  lemma EntriesDone(was: seq<nat>, mem: seq<nat>, to: nat, free: seq<nat>, used: nat)
    requires |was| == |mem| == WORDS && to + 3 <= ENTRIES && used <= |free| && EntriesSet(was, mem, to, 3, free[..used])
    ensures forall k :: 0 <= k < 3 ==> EntrySet(was, mem, to, k, free)
  {
    forall k | 0 <= k < 3 ensures EntrySet(was, mem, to, k, free) {
      assert EntrySet(was, mem, to, k, free[..used]);
    }
  }

  /**
   copy_page_tables (lines 129-183) for the child process pid.  free are the frames the
   allocator would hand out, in order; the copy fails exactly when they run out.
   */
  method CopyPageTables(mem: array<nat>, pid: nat, free: seq<nat>) returns (ok: bool)
    requires mem.Length == WORDS && 1 <= pid <= 63
    requires TablesInMemory(mem[..]) && Fresh(mem[..], free)
    modifies mem
    ensures OnlyTouches(old(mem[..]), mem[..], 16 * pid, free)
    ensures ok <==> old(PresentCount(mem[..], 3)) <= |free|
    ensures ok ==> forall k :: 0 <= k < 3 ==> Copied(old(mem[..]), mem[..], 16 * pid, k)
    ensures ok ==> forall k :: 0 <= k < 3 ==> EntrySet(old(mem[..]), mem[..], 16 * pid, k, free)
  {
    ghost var was := mem[..];
    var to := pid * TASK_SIZE / 0x40_0000;
    assert to == 16 * pid;
    var used, k := 0, 0;
    assert free[..0] == [];
    while k < 3
      invariant k <= 3 && used <= |free| && used == PresentCount(was, k)
      invariant Progress(was, mem[..], to, k, free[..used]) && EntriesSet(was, mem[..], to, k, free[..used])
    {
      SourceKept(was, mem[..], to, free, used, k);
      if Present(mem[k]) {
        if used == |free| {
          CountGrows(was, k + 1, 3);
          Widen(was, mem[..], to, free, used);
          return false;
        }
        assert free[..used + 1] == free[..used] + [free[used]];
        FreshPrefix(was, free, used + 1);
        Round(mem, to, k, free[used], was, free[..used]);
        used := used + 1;
      } else {
        EntriesSkip(was, mem[..], to, k, free[..used]);
      }
      k := k + 1;
    }
    Widen(was, mem[..], to, free, used);
    EntriesDone(was, mem[..], to, free, used);
    ok := true;
  }

  /** The parent's own directory entries are never written. */
  lemma SourceKept(was: seq<nat>, mem: seq<nat>, to: nat, free: seq<nat>, n: nat, k: nat)
    requires n <= |free| && Fresh(was, free) && OnlyTouches(was, mem, to, free[..n]) && k < 3 && 16 <= to
    ensures mem[k] == was[k]
  {
    assert Spared(was, mem, to, free[..n], k);
    assert 0 !in free[..n];
  }

  method Round(mem: array<nat>, to: nat, k: nat, f: nat, ghost was: seq<nat>, ghost frames: seq<nat>)
    requires mem.Length == WORDS && TablesInMemory(was) && 16 <= to && to + 3 <= ENTRIES && k < 3
    requires Progress(was, mem[..], to, k, frames) && Fresh(was, frames + [f]) && Present(was[k])
    requires EntriesSet(was, mem[..], to, k, frames)
    modifies mem
    ensures Progress(was, mem[..], to, k + 1, frames + [f]) && EntriesSet(was, mem[..], to, k + 1, frames + [f])
  {
    ghost var before := mem[..];
    FreshSource(was, frames, f, k);
    CopyEntry(mem, to, k, f, was, frames);
    assert forall x :: x in frames ==> x in frames + [f];
    forall j | 0 <= j < k
      ensures Copied(was, mem[..], to, j) && (Present(was[j]) ==> Frame(mem[to + j]) in frames + [f])
    {
      if Present(was[j]) {
        assert Frame(before[to + j]) in frames;
        var i :| 0 <= i < |frames| && frames[i] == Frame(before[to + j]);
        assert 1 <= frames[i];
      }
      CopiedStays(was, before, mem[..], to, j, k, f);
    }
    EntriesStep(was, before, mem[..], to, k, frames, f);
  }

  lemma {:induction false} CountGrows(mem: seq<nat>, a: nat, b: nat)
    requires a <= b <= ENTRIES <= |mem|
    ensures PresentCount(mem, a) <= PresentCount(mem, b)
    decreases b
  {
    if a < b { CountGrows(mem, a, b - 1); }
  }

  lemma Widen(was: seq<nat>, mem: seq<nat>, to: nat, free: seq<nat>, n: nat)
    requires n <= |free| && OnlyTouches(was, mem, to, free[..n])
    ensures OnlyTouches(was, mem, to, free)
  {
    forall w ensures Spared(was, mem, to, free, w) {
      assert Spared(was, mem, to, free[..n], w);
    }
  }

  lemma FreshPrefix(was: seq<nat>, free: seq<nat>, n: nat)
    requires Fresh(was, free) && n <= |free|
    ensures Fresh(was, free[..n])
  {
  }

  // ------------------------------------------------------------ what the child sees

  /** The address arithmetic of a shift by a multiple of 64 MiB. */
  lemma ShiftedAddress(pid: nat, v: nat)
    requires pid <= 63 && v < 0xC0_0000
    ensures TASK_SIZE * pid + v < 0x1_0000_0000
    ensures DirIndex(TASK_SIZE * pid + v) == 16 * pid + DirIndex(v) && DirIndex(v) < 3
    ensures TableIndex(TASK_SIZE * pid + v) == TableIndex(v)
    ensures Offset(TASK_SIZE * pid + v) == Offset(v)
  {
    ShiftDiv(16 * pid, v, 0x40_0000);
    ShiftDiv(16384 * pid, v, 4096);
    ShiftMod(16 * pid, v / 4096);
  }

  lemma ShiftDiv(a: nat, v: nat, n: nat)
    requires n == 4096 || n == 0x40_0000
    ensures (a * n + v) / n == a + v / n && (a * n + v) % n == v % n
  {
  }

  lemma ShiftMod(a: nat, x: nat)
    ensures (a * ENTRIES + x) % ENTRIES == x % ENTRIES
  {
  }

  // ------------------------------------------------------------ access rights

  /** Bits 2 and 1 of an entry: open to user mode, writable. */
  predicate UserBit(e: nat) {
    e / 4 % 2 == 1
  }

  predicate WriteBit(e: nat) {
    e / 2 % 2 == 1
  }

  datatype Rights = Rights(user: bool, write: bool)

  /** What user mode may do at an address: both levels must allow it. */
  function Access(mem: seq<nat>, v: nat): Option<Rights>
    requires |mem| == WORDS && v < 0x1_0000_0000
  {
    if Translate(mem, v) == None then None else
    var d, p := mem[DirIndex(v)], TableAt(mem, Frame(mem[DirIndex(v)]))[TableIndex(v)];
    Some(Rights(UserBit(d) && UserBit(p), WriteBit(d) && WriteBit(p)))
  }

  /** What the table entry alone allows. */
  function TableRights(mem: seq<nat>, v: nat): Option<Rights>
    requires |mem| == WORDS && v < 0x1_0000_0000
  {
    if Translate(mem, v) == None then None else
    var p := TableAt(mem, Frame(mem[DirIndex(v)]))[TableIndex(v)];
    Some(Rights(UserBit(p), WriteBit(p)))
  }

  /**
   The child may access v exactly as the parent's table entry allows; where the parent's
   directory entry restricts nothing, that is exactly what the parent may.
   */
  lemma ChildAccess(was: seq<nat>, mem: seq<nat>, pid: nat, free: seq<nat>, v: nat)
    requires CopyDone(was, mem, pid, free) && v < 0xC0_0000 && Present(was[DirIndex(v)])
    requires forall k :: 0 <= k < 3 ==> EntrySet(was, mem, 16 * pid, k, free)
    ensures TASK_SIZE * pid + v < 0x1_0000_0000
    ensures Access(mem, TASK_SIZE * pid + v) == TableRights(was, v)
    ensures UserBit(was[DirIndex(v)]) && WriteBit(was[DirIndex(v)]) ==> Access(mem, TASK_SIZE * pid + v) == Access(was, v)
  {
    ChildTranslates(was, mem, pid, free, v);
    ShiftedAddress(pid, v);
    var k := DirIndex(v);
    assert Copied(was, mem, 16 * pid, k) && EntrySet(was, mem, 16 * pid, k, free);
    OpenEntry(free[PresentCount(was, k)]);
  }

  lemma OpenEntry(f: nat)
    ensures UserBit(4096 * f + 7) && WriteBit(4096 * f + 7) && Present(4096 * f + 7)
  {
  }

  /** The result of a successful copy. */
  ghost predicate CopyDone(was: seq<nat>, mem: seq<nat>, pid: nat, free: seq<nat>) {
    && 1 <= pid <= 63 && TablesInMemory(was) && Fresh(was, free) && OnlyTouches(was, mem, 16 * pid, free)
    && forall k :: 0 <= k < 3 ==> Copied(was, mem, 16 * pid, k)
  }

  /** Addresses outside the child's three entries translate as before. */
  lemma OthersTranslate(was: seq<nat>, mem: seq<nat>, pid: nat, free: seq<nat>, u: nat)
    requires CopyDone(was, mem, pid, free) && u < 0x1_0000_0000
    requires !(16 * pid <= DirIndex(u) < 16 * pid + 3)
    ensures Translate(mem, u) == Translate(was, u)
  {
    var d := DirIndex(u);
    assert 0 !in free && Spared(was, mem, 16 * pid, free, d);
    if Present(was[d]) {
      TableKept(was, mem, 16 * pid, free, Frame(was[d]));
    }
  }

  /**
   Below 12 MiB, wherever the parent's directory entry is present, the child's address
   translates to what the parent's does, before and after the copy.
   */
  lemma ChildTranslates(was: seq<nat>, mem: seq<nat>, pid: nat, free: seq<nat>, v: nat)
    requires CopyDone(was, mem, pid, free) && v < 0xC0_0000 && Present(was[DirIndex(v)])
    ensures TASK_SIZE * pid + v < 0x1_0000_0000
    ensures Translate(mem, TASK_SIZE * pid + v) == Translate(was, v) == Translate(mem, v)
  {
    ShiftedAddress(pid, v);
    OthersTranslate(was, mem, pid, free, v);
    assert Copied(was, mem, 16 * pid, DirIndex(v));
  }
}
