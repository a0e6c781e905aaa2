/**
 Directories (fs/name_inode.c:11-204): a finite map from names of 1 to 14 bytes to inode
 numbers, kept in 16-byte slots.  A free slot and every slot past the size have an
 all-zero name, which is what lets match ignore the inode field.
 */
module Directory {
  import opened Basics

  const MAX_NAME_LEN: nat := 14
  const ENTRY_SIZE: nat := 16
  const PER_BLOCK: nat := 64

  datatype DirEntry = DirEntry(inode: nat, name: seq<Byte>)

  function ZeroName(): (z: seq<Byte>)
    ensures |z| == MAX_NAME_LEN && forall i :: 0 <= i < MAX_NAME_LEN ==> z[i] == 0
  {
    seq(MAX_NAME_LEN, i => 0)
  }

  function FreeEntry(): DirEntry {
    DirEntry(0, ZeroName())
  }

  /** A name as it comes out of a path: 1 to 14 bytes, none of them 0. */
  predicate ValidName(n: seq<Byte>) {
    1 <= |n| <= MAX_NAME_LEN && forall i :: 0 <= i < |n| ==> n[i] != 0
  }

  /** The name field of an entry, filled up with zeros. */
  function Pad(n: seq<Byte>): (p: seq<Byte>)
    requires |n| <= MAX_NAME_LEN
    ensures |p| == MAX_NAME_LEN && p[..|n|] == n && forall i :: |n| <= i < MAX_NAME_LEN ==> p[i] == 0
  {
    n + seq(MAX_NAME_LEN - |n|, i => 0)
  }

  /** The name stored in a field: the bytes before the first zero. */
  function Trim(p: seq<Byte>): (n: seq<Byte>)
    ensures n <= p && (|n| < |p| ==> p[|n|] == 0) && forall i :: 0 <= i < |n| ==> n[i] != 0
  {
    if p == [] || p[0] == 0 then [] else
    var n := Trim(p[1..]);
    assert p == [p[0]] + p[1..];
    [p[0]] + n
  }

  lemma {:induction false} TrimPrefix(n: seq<Byte>, z: seq<Byte>)
    requires (forall i :: 0 <= i < |n| ==> n[i] != 0) && (z == [] || z[0] == 0)
    ensures Trim(n + z) == n
  {
    if n == [] {
      assert n + z == z;
    } else {
      assert (n + z)[1..] == n[1..] + z;
      TrimPrefix(n[1..], z);
    }
  }

  lemma TrimPad(n: seq<Byte>)
    requires ValidName(n)
    ensures Trim(Pad(n)) == n
  {
    TrimPrefix(n, seq(MAX_NAME_LEN - |n|, i => 0));
  }

  /** match (fs/name_inode.c:11-30) for a name of len bytes. */
  predicate Match(name: seq<Byte>, e: DirEntry)
    requires 1 <= |name| <= MAX_NAME_LEN && |e.name| == MAX_NAME_LEN
  {
    !(|name| < MAX_NAME_LEN && e.name[|name|] != 0) && e.name[..|name|] == name
  }

  /** match compares whole names, and a zero name matches nothing. */
  lemma MatchExact(name: seq<Byte>, e: DirEntry)
    requires ValidName(name) && |e.name| == MAX_NAME_LEN
    requires e.name == ZeroName() || (ValidName(Trim(e.name)) && e.name == Pad(Trim(e.name)))
    ensures Match(name, e) <==> e.name != ZeroName() && Trim(e.name) == name
  {
    if e.name == ZeroName() {
      assert e.name[..|name|][0] == 0;
    } else {
      var t := Trim(e.name);
      if Match(name, e) {
        assert forall i :: 0 <= i < |name| ==> e.name[..|name|][i] == e.name[i];
        assert |t| == |name|;
        assert t == e.name[..|t|];
      }
    }
  }

  // ------------------------------------------------------------ the stored map

  /** A slot is in use with a well-formed name, or free with a zero name. */
  predicate SlotFine(slots: seq<DirEntry>, entries: nat, i: nat) {
    i < |slots| ==>
      && |slots[i].name| == MAX_NAME_LEN
      && (i >= entries || slots[i].inode == 0 ==> slots[i].name == ZeroName())
      && (i < entries && slots[i].inode != 0 ==>
            ValidName(Trim(slots[i].name)) && slots[i].name == Pad(Trim(slots[i].name)))
  }

  predicate Live(slots: seq<DirEntry>, entries: nat, i: nat) {
    i < |slots| && i < entries && slots[i].inode != 0
  }

  /** No name is stored twice. */
  predicate Unlike(slots: seq<DirEntry>, entries: nat, i: nat, j: nat) {
    Live(slots, entries, i) && Live(slots, entries, j) && i != j ==> slots[i].name != slots[j].name
  }

  ghost predicate DirOk(slots: seq<DirEntry>, entries: nat) {
    && entries <= |slots| && |slots| % PER_BLOCK == 0
    && (forall i: nat :: SlotFine(slots, entries, i))
    && (forall i: nat, j: nat :: Unlike(slots, entries, i, j))
  }

  /** name is bound to inode number ino. */
  ghost predicate Binds(slots: seq<DirEntry>, entries: nat, name: seq<Byte>, ino: nat) {
    exists i: nat :: Live(slots, entries, i) && Trim(slots[i].name) == name && slots[i].inode == ino
  }

  ghost predicate IsDirMap(m: map<seq<Byte>, nat>, slots: seq<DirEntry>, entries: nat) {
    && (forall name :: name in m ==> Binds(slots, entries, name, m[name]))
    && (forall i: nat :: Live(slots, entries, i) ==> Trim(slots[i].name) in m && m[Trim(slots[i].name)] == slots[i].inode)
  }

  lemma SameName(slots: seq<DirEntry>, entries: nat, i: nat, j: nat)
    requires DirOk(slots, entries) && Live(slots, entries, i) && Live(slots, entries, j)
    requires Trim(slots[i].name) == Trim(slots[j].name)
    ensures i == j
  {
    assert SlotFine(slots, entries, i) && SlotFine(slots, entries, j) && Unlike(slots, entries, i, j);
  }

  /** Filling a free slot binds one more name. */
  lemma FillSlot(slots: seq<DirEntry>, entries: nat, entries': nat, i: nat, name: seq<Byte>, ino: nat, m: map<seq<Byte>, nat>)
    requires DirOk(slots, entries) && IsDirMap(m, slots, entries) && ValidName(name) && name !in m && ino != 0
    requires i < |slots| && !Live(slots, entries, i) && i < entries' <= |slots|
    requires entries' == entries || (entries' == entries + 1 && i == entries)
    ensures var slots' := slots[i := DirEntry(ino, Pad(name))];
      DirOk(slots', entries') && IsDirMap(m[name := ino], slots', entries')
  {
    var slots' := slots[i := DirEntry(ino, Pad(name))];
    TrimPad(name);
    forall j: nat ensures SlotFine(slots', entries', j) {
      assert SlotFine(slots, entries, j);
    }
    forall j: nat, k: nat ensures Unlike(slots', entries', j, k) {
      assert Unlike(slots, entries, j, k);
      if Live(slots', entries', j) && Live(slots', entries', k) && j != k {
        if j == i { assert Live(slots, entries, k); }
        if k == i { assert Live(slots, entries, j); }
      }
    }
    var m' := m[name := ino];
    forall x | x in m' ensures Binds(slots', entries', x, m'[x]) {
      if x == name {
        assert Live(slots', entries', i);
      } else {
        var j: nat :| Live(slots, entries, j) && Trim(slots[j].name) == x && slots[j].inode == m[x];
        assert Live(slots', entries', j);
      }
    }
    forall j: nat | Live(slots', entries', j)
      ensures Trim(slots'[j].name) in m' && m'[Trim(slots'[j].name)] == slots'[j].inode
    {
      if j != i { assert Live(slots, entries, j); }
    }
  }

  /** A name that is bound already ends up in two slots: the fill is sound if and only if it is new. */
  lemma FillSlotExact(slots: seq<DirEntry>, entries: nat, entries': nat, i: nat, name: seq<Byte>, ino: nat, m: map<seq<Byte>, nat>)
    requires DirOk(slots, entries) && IsDirMap(m, slots, entries) && ValidName(name) && ino != 0
    requires i < |slots| && !Live(slots, entries, i) && i < entries' <= |slots|
    requires entries' == entries || (entries' == entries + 1 && i == entries)
    ensures DirOk(slots[i := DirEntry(ino, Pad(name))], entries') <==> name !in m
  {
    if name !in m {
      FillSlot(slots, entries, entries', i, name, ino, m);
    } else {
      var slots' := slots[i := DirEntry(ino, Pad(name))];
      var j: nat :| Live(slots, entries, j) && Trim(slots[j].name) == name && slots[j].inode == m[name];
      assert SlotFine(slots, entries, j);
      assert !Unlike(slots', entries', i, j);
    }
  }

  /** Clearing a slot unbinds its name and nothing else. */
  lemma ClearSlot(slots: seq<DirEntry>, entries: nat, i: nat, m: map<seq<Byte>, nat>)
    requires DirOk(slots, entries) && IsDirMap(m, slots, entries) && Live(slots, entries, i)
    ensures var slots' := slots[i := FreeEntry()];
      DirOk(slots', entries) && IsDirMap(m - {Trim(slots[i].name)}, slots', entries)
  {
    var slots', name := slots[i := FreeEntry()], Trim(slots[i].name);
    forall j: nat ensures SlotFine(slots', entries, j) {
      assert SlotFine(slots, entries, j);
    }
    forall j: nat, k: nat ensures Unlike(slots', entries, j, k) {
      assert Unlike(slots, entries, j, k);
    }
    forall x | x in m - {name} ensures Binds(slots', entries, x, m[x]) {
      var j: nat :| Live(slots, entries, j) && Trim(slots[j].name) == x && slots[j].inode == m[x];
      assert Live(slots', entries, j);
    }
    forall j: nat | Live(slots', entries, j)
      ensures Trim(slots'[j].name) in m - {name} && m[Trim(slots'[j].name)] == slots'[j].inode
    {
      assert Live(slots, entries, j);
      if Trim(slots[j].name) == name { SameName(slots, entries, i, j); }
    }
  }

  /** A new block of zeros adds only free slots. */
  lemma GrowSlots(slots: seq<DirEntry>, entries: nat, m: map<seq<Byte>, nat>)
    requires DirOk(slots, entries) && IsDirMap(m, slots, entries)
    ensures var slots' := slots + seq(PER_BLOCK, k => FreeEntry());
      DirOk(slots', entries) && IsDirMap(m, slots', entries)
  {
    var slots' := slots + seq(PER_BLOCK, k => FreeEntry());
    forall j: nat ensures SlotFine(slots', entries, j) {
      assert SlotFine(slots, entries, j);
    }
    forall j: nat, k: nat ensures Unlike(slots', entries, j, k) {
      assert Unlike(slots, entries, j, k);
    }
    assert forall j: nat :: Live(slots', entries, j) <==> Live(slots, entries, j);
    forall x | x in m ensures Binds(slots', entries, x, m[x]) {
      var j: nat :| Live(slots, entries, j) && Trim(slots[j].name) == x && slots[j].inode == m[x];
      assert Live(slots', entries, j);
    }
  }

  // ------------------------------------------------------------ the operations

  /** A directory inode with the entries of its mapped blocks. */
  class Dir {
    var slots: seq<DirEntry>
    var size: nat
    var dirty: bool
    ghost var names: map<seq<Byte>, nat>

    ghost predicate Valid()
      reads this
    {
      && size % ENTRY_SIZE == 0
      && DirOk(slots, size / ENTRY_SIZE) && IsDirMap(names, slots, size / ENTRY_SIZE)
    }

    /** A directory with one block of zeros and no entries. */
    constructor ()
      ensures Valid() && names == map[] && slots != [] && size == 0
    {
      slots, size, dirty, names := seq(PER_BLOCK, k => FreeEntry()), 0, true, map[];
    }

    /** The entry at index i; past the mapped blocks block 0 is read, which is all zeros. */
    function Probe(i: nat): DirEntry
      reads this
    {
      if i < |slots| then slots[i] else FreeEntry()
    }

    /** find_entry (lines 33-81), with its probe of one slot past the end. */
    method FindEntry(name: seq<Byte>) returns (found: bool, at: nat)
      requires Valid() && ValidName(name)
      ensures found <==> name in names
      ensures found ==> Live(slots, size / ENTRY_SIZE, at) && Trim(slots[at].name) == name
      ensures found ==> slots[at].inode == names[name]
      ensures !found && slots != [] ==> at == size / ENTRY_SIZE + 1
    {
      ghost var e := size / ENTRY_SIZE;
      found, at := false, 0;
      if |slots| == 0 {
        NotFound(slots, e, names, name, 0);
        return;
      }
      var entries := size / ENTRY_SIZE;
      while at <= entries
        invariant at <= entries + 1
        invariant forall j: nat :: j < at && Live(slots, e, j) ==> Trim(slots[j].name) != name
      {
        assert SlotFine(slots, e, at);
        MatchExact(name, Probe(at));
        if Match(name, Probe(at)) {
          assert Live(slots, e, at);
          return true, at;
        }
        at := at + 1;
      }
      NotFound(slots, e, names, name, at);
    }

    /**
     add_entry (lines 84-155): the first free slot, or a new one at the end.  The name is not
     looked up: one that is bound already is stored twice, and the directory is no map any more.
     */
    method AddEntry(name: seq<Byte>, inode: nat) returns (ok: bool, at: nat)
      requires Valid() && ValidName(name) && inode != 0
      modifies this
      ensures ok <==> old(slots) != []
      ensures ok ==> names == old(names)[name := inode] && (Valid() <==> name !in old(names))
      ensures ok ==> Live(slots, size / ENTRY_SIZE, at) && slots[at] == DirEntry(inode, Pad(name))
      ensures ok ==> at <= old(size) / ENTRY_SIZE && !Live(old(slots), old(size) / ENTRY_SIZE, at)
      ensures ok ==> forall j :: 0 <= j < at ==> Live(old(slots), old(size) / ENTRY_SIZE, j)
      ensures ok ==> size == if at < old(size) / ENTRY_SIZE then old(size) else old(size) + 16
      ensures ok ==> dirty == (old(dirty) || size != old(size))
      ensures ok ==> |slots| == |old(slots)| + (if at == |old(slots)| then 64 else 0)
      ensures ok ==> forall j :: 0 <= j < |slots| && j != at ==> slots[j] == if j < |old(slots)| then old(slots)[j] else FreeEntry()
      ensures !ok ==> Valid() && names == old(names) && slots == old(slots) && size == old(size)
    {
      at := 0;
      if |slots| == 0 {
        return false, 0;
      }
      while true
        invariant Valid() && at <= size / ENTRY_SIZE && names == old(names) && slots == old(slots) != []
        invariant at <= |slots| && size == old(size) && dirty == old(dirty)
        invariant forall j :: 0 <= j < at ==> Live(slots, size / ENTRY_SIZE, j)
        decreases size / ENTRY_SIZE - at
      {
        if at == |slots| {
          GrowSlots(slots, size / ENTRY_SIZE, names);
          slots := slots + seq(PER_BLOCK, k => FreeEntry());
        }
        if at * ENTRY_SIZE >= size || slots[at].inode == 0 {
          Fill(at, name, inode);
          return true, at;
        }
        at := at + 1;
      }
    }

    /** The free slot gets the inode number and the bytes of the name (lines 121-147). */
    method Fill(at: nat, name: seq<Byte>, inode: nat)
      requires Valid() && ValidName(name) && inode != 0
      requires at < |slots| && at <= size / ENTRY_SIZE
      requires at == size / ENTRY_SIZE || slots[at].inode == 0
      modifies this
      ensures names == old(names)[name := inode] && (Valid() <==> name !in old(names))
      ensures slots == old(slots)[at := DirEntry(inode, Pad(name))] && at < size / ENTRY_SIZE
      ensures size == old(size) + (if at * ENTRY_SIZE >= old(size) then 16 else 0)
      ensures dirty == (old(dirty) || size != old(size))
    {
      ghost var e := size / ENTRY_SIZE;
      assert SlotFine(slots, e, at);
      var field := slots[at].name;
      if at * ENTRY_SIZE >= size {
        size := size + ENTRY_SIZE;
        dirty := true;
      }
      var j := 0;
      while j < |name|
        invariant j <= |name| && |field| == MAX_NAME_LEN
        invariant field[..j] == name[..j] && forall i :: j <= i < MAX_NAME_LEN ==> field[i] == 0
      {
        field := field[j := name[j]];
        j := j + 1;
      }
      assert field == Pad(name);
      FillSlotExact(slots, e, size / ENTRY_SIZE, at, name, inode, names);
      if name !in names { FillSlot(slots, e, size / ENTRY_SIZE, at, name, inode, names); }
      slots := slots[at := DirEntry(inode, field)];
      names := names[name := inode];
    }

    /**
     remove_entry (lines 158-204), which starts in the given block and goes on with blocks 1, 2,
     ... of the directory: an entry is cleared if it lies in the given block or not in block 0.
     */
    method RemoveEntry(block: nat, name: seq<Byte>)
      requires Valid() && ValidName(name) && block * PER_BLOCK < |slots|
      modifies this
      ensures Valid() && size == old(size) && |slots| == |old(slots)|
      ensures names == if old(Reached(slots, size / ENTRY_SIZE, block, name)) then old(names) - {name} else old(names)
      ensures dirty == old(dirty) && forall j :: 0 <= j < |slots| ==>
        slots[j] == if old(Reached(slots, size / ENTRY_SIZE, block, name)) && Named(old(slots), old(size) / ENTRY_SIZE, j, name)
                    then FreeEntry() else old(slots)[j]
    {
      ghost var e := size / ENTRY_SIZE;
      var i := 0;
      while i * ENTRY_SIZE < size
        invariant i <= e && slots == old(slots) && names == old(names) && size == old(size) && dirty == old(dirty)
        invariant forall j: nat :: j < i ==> Unmatched(slots, e, block, name, j)
      {
        var de := Visited(block, i);
        assert SlotFine(slots, e, de);
        MatchExact(name, slots[de]);
        if Match(name, slots[de]) {
          assert Named(slots, e, de, name) && (de / PER_BLOCK == block || de >= PER_BLOCK);
          ClearSlot(slots, e, de, names);
          OnlyOneNamed(slots, e, de, name);
          slots := slots[de := FreeEntry()];
          names := names - {name};
          return;
        }
        assert Unmatched(slots, e, block, name, i);
        i := i + 1;
      }
      NotReached(slots, e, block, name);
    }
  }

  /** Slot i is in use and holds the name. */
  predicate Named(slots: seq<DirEntry>, entries: nat, i: nat, name: seq<Byte>) {
    Live(slots, entries, i) && Trim(slots[i].name) == name
  }

  lemma OnlyOneNamed(slots: seq<DirEntry>, entries: nat, i: nat, name: seq<Byte>)
    requires DirOk(slots, entries) && Named(slots, entries, i, name)
    ensures forall j: nat :: Named(slots, entries, j, name) ==> j == i
  {
    forall j: nat | Named(slots, entries, j, name) ensures j == i { SameName(slots, entries, i, j); }
  }

  /** A slot that was freed is used again: removing a name and adding another leaves the size alone. */
  method RemoveThenAdd(d: Dir, block: nat, name: seq<Byte>, name': seq<Byte>, inode: nat) returns (at: nat)
    requires d.Valid() && ValidName(name) && ValidName(name') && inode != 0 && block * PER_BLOCK < |d.slots|
    requires Reached(d.slots, d.size / ENTRY_SIZE, block, name) && (name' !in d.names || name' == name)
    modifies d
    ensures d.Valid() && d.size == old(d.size) && |d.slots| == |old(d.slots)| && d.dirty == old(d.dirty)
    ensures d.names == (old(d.names) - {name})[name' := inode]
  {
    ghost var e := d.size / ENTRY_SIZE;
    ghost var k: nat :| Named(d.slots, e, k, name) && (k / PER_BLOCK == block || k >= PER_BLOCK);
    d.RemoveEntry(block, name);
    assert !Live(d.slots, e, k);
    var ok;
    ok, at := d.AddEntry(name', inode);
    assert at <= k;
  }

  /** The slot that step i of remove_entry looks at (lines 170-181). */
  function Visited(block: nat, i: nat): nat {
    if i < PER_BLOCK then block * PER_BLOCK + i else i
  }

  predicate Unmatched(slots: seq<DirEntry>, entries: nat, block: nat, name: seq<Byte>, i: nat) {
    var de := Visited(block, i);
    Live(slots, entries, de) ==> Trim(slots[de].name) != name
  }

  /** The name is stored where a search from the given block comes by. */
  ghost predicate Reached(slots: seq<DirEntry>, entries: nat, block: nat, name: seq<Byte>) {
    exists k: nat :: Named(slots, entries, k, name) && (k / PER_BLOCK == block || k >= PER_BLOCK)
  }

  lemma NotReached(slots: seq<DirEntry>, entries: nat, block: nat, name: seq<Byte>)
    requires forall j: nat :: j < entries ==> Unmatched(slots, entries, block, name, j)
    ensures !Reached(slots, entries, block, name)
  {
    forall k: nat | Live(slots, entries, k) && (k / PER_BLOCK == block || k >= PER_BLOCK)
      ensures Trim(slots[k].name) != name
    {
      assert Unmatched(slots, entries, block, name, if k / PER_BLOCK == block then k % PER_BLOCK else k);
    }
  }

  lemma NotFound(slots: seq<DirEntry>, entries: nat, m: map<seq<Byte>, nat>, name: seq<Byte>, to: nat)
    requires IsDirMap(m, slots, entries)
    requires entries <= to || |slots| == 0
    requires forall j: nat :: j < to && Live(slots, entries, j) ==> Trim(slots[j].name) != name
    ensures name !in m
  {
  }

  // ------------------------------------------------------------ the bytes of a directory

  /** An entry fits its 16-byte record. */
  predicate Storable(e: DirEntry) {
    e.inode < 0x1_0000 && |e.name| == MAX_NAME_LEN
  }

  function EncodeEntry(e: DirEntry): (r: seq<Byte>)
    requires Storable(e)
    ensures |r| == ENTRY_SIZE
  {
    [e.inode % 256, e.inode / 256] + e.name
  }

  function DecodeEntry(r: seq<Byte>): (e: DirEntry)
    requires |r| == ENTRY_SIZE
    ensures Storable(e)
  {
    var lo: nat, hi: nat := r[0], r[1];
    DirEntry(lo + 256 * hi, r[2..])
  }

  /** The slots of a directory whose mapped blocks hold the given bytes. */
  function SlotsOf(bytes: seq<Byte>): (slots: seq<DirEntry>)
    requires |bytes| % ENTRY_SIZE == 0
    ensures |slots| == |bytes| / ENTRY_SIZE
  {
    seq(|bytes| / ENTRY_SIZE, i requires 0 <= i < |bytes| / ENTRY_SIZE =>
      DecodeEntry(bytes[ENTRY_SIZE * i..ENTRY_SIZE * (i + 1)]))
  }

  /** Writing one record changes one slot; the record lies inside block i / 64. */
  lemma SlotWritten(bytes: seq<Byte>, i: nat, e: DirEntry)
    requires |bytes| % ENTRY_SIZE == 0 && i < |bytes| / ENTRY_SIZE && Storable(e)
    ensures SlotsOf(bytes[..ENTRY_SIZE * i] + EncodeEntry(e) + bytes[ENTRY_SIZE * (i + 1)..]) == SlotsOf(bytes)[i := e]
    ensures ENTRY_SIZE * i / 1024 == (ENTRY_SIZE * i + ENTRY_SIZE - 1) / 1024 == i / PER_BLOCK
  {
    var r := bytes[..ENTRY_SIZE * i] + EncodeEntry(e) + bytes[ENTRY_SIZE * (i + 1)..];
    forall j | 0 <= j < |bytes| / ENTRY_SIZE ensures SlotsOf(r)[j] == SlotsOf(bytes)[i := e][j] {
      RecordAt(bytes, i, EncodeEntry(e), j);
    }
    assert DecodeEntry(EncodeEntry(e)) == e by { assert EncodeEntry(e)[2..] == e.name; }
  }

  lemma RecordAt(bytes: seq<Byte>, i: nat, rec: seq<Byte>, j: nat)
    requires |bytes| % ENTRY_SIZE == 0 && i < |bytes| / ENTRY_SIZE && j < |bytes| / ENTRY_SIZE && |rec| == ENTRY_SIZE
    ensures var r := bytes[..ENTRY_SIZE * i] + rec + bytes[ENTRY_SIZE * (i + 1)..];
      && |r| == |bytes|
      && r[ENTRY_SIZE * j..ENTRY_SIZE * (j + 1)] == if j == i then rec else bytes[ENTRY_SIZE * j..ENTRY_SIZE * (j + 1)]
  {
    assert j < i || j == i || j >= i + 1;
  }
}
