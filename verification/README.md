# Verified model of the kernel's memory, file system, scheduler and disk layers

This project models, in Dafny 4.11, the algorithmic core of a small x86 kernel and proves what
its data structures keep over whole runs. It is self-contained: `dafny verify dfyconfig.toml`
checks everything.

- **Buddy page allocator** (`BuddyBlocks`, `FreeLists`, `BuddyModel`, `BuddyTiling`,
  `BuddyAllocator`, `BuddyAsWritten`, `BuddyFreeAsWritten`, with `Rings` for the links of the free lists). The free lists are characterised by one notion: a
  *canonical* block is a maximal aligned run of free pages. The nine lists hold exactly the
  canonical blocks of the current free set, so they are determined by that set. Splitting,
  coalescing and the boot-time tiling all rest on one lemma: taking a canonical block out of the
  free set takes exactly that block out of the decomposition. The allocator is a class over
  `mem_map` and `free_area`; each method is tied to a step on (free pages, live allocations), and
  conservation is proved over every run of steps.
- **File system core** (`BitScan`, `BlockMap`, `BlockAlloc`, `BlockFree`, `FileSystem`,
  `FileContents`, `VolumeRuns`, `FileDev`, `Directory`, `PathNames`, `NameLookup`, `InodeTable`, `FsAsWritten`,
  `NewBlockAsWritten`, `BmapAsWritten`). A *slot* is a
  place that holds a block number: one of nine in the inode, or an entry of an indirect table.
  The volume invariant says that all blocks held anywhere are pairwise distinct and that the set
  bits of the map are the reserved blocks plus the held ones. On top sit files as byte
  sequences, directories as finite maps, path resolution, and the inode table.
- **Scheduler** (`SchedModel`, `SchedSteps`, `SchedDrain`, `Scheduler`, `SchedAsWritten`). Two run queues of 140 levels as values
  with an inductive invariant over timer, fork, wake, block and exit events, the exact order in
  which an active array drains, and the classes that perform these steps in place.
- **Buffer cache and disk driver** (`BufferCache`, `CacheAsWritten`, `HdDriver`). The hashed cache against a plain
  array of blocks over every disciplined run; the mutually recursive driver against every stream
  of controller results.
- **Slab geometry** (`Slab`) and **fork's page-table copy** (`PageTables`, with the two-level
  translation of section 5.2 of the Intel 80386 Programmer's Reference Manual).
- `Basics`, `Lists` and `Chains` hold what several models share.

Linked lists are sequences written from the head, blocks are byte sequences of length 1024, and
the source's loops and in-place updates are loops and updates of class fields and arrays.
I/O results are parameters: the controller's answers are an arbitrary function `nat -> bool`, the
frames handed out to a fork are a list of fresh frames.

## Where the source's lines depart from what they keep

The run theorems are about the intended operation wherever a line departs from it. Each
departure is listed here, with the lemma that gives its exact extent where it touches what is
modelled.

- `remove_free_area` bends only the forward link (mm/page_alloc.c:42-43). Read from the head the
  list has lost the page if and only if the page is not the head, which is never moved on; the
  back link of the entry behind it always stays wrong (`WrittenRemoveExact`).
- `__alloc_pages` links the head to the entry after the next (mm/page_alloc.c:111-112). A take
  from a list of three or more loses a second block, one from a shorter list leaves the taken
  block in it; it never leaves the list without the taken block (`WrittenTakeExact`). nr_free
  stays right, but what is read from the head is then one block too few or too many
  (`WrittenTakeLoses`).
- The merge index is the page number itself for every starting order (mm/page_alloc.c:180-194):
  right if and only if the order is 0 or the block is the first (`WrittenBuddyExact`).
- The lower half, not the buddy, is unlinked in a merge (mm/page_alloc.c:205-208): right if and
  only if the freed half is the upper one (`WrittenUnlinkExact`).
- The closing loop of a free runs over twice the block and skips its head (mm/page_alloc.c:219-229):
  right, and inside mem_map, if and only if the condition of `WrittenClearExact` holds. Taken
  together, and over the links, a whole free of one page from intact lists comes out right if and
  only if the page merges, is the last page of the merged block, no merged buddy is the head of
  its list, no page in use follows within the block's size, and the block does not end mem_map
  below the top order (`WrittenFreeExact`; `MergedHeadExample` and `EndOfMemoryExample` each fail
  in one clause only). A page that does not merge is never marked free (`UnmergedStaysInUse`), and
  a free of order 1 or more never comes out right (`LargeFreeKeepsHead`). During initialisation
  these lines are modelled exactly as written, and are harmless there.
- Marking the pages of an allocation happens after the split in the model and before it in the
  source (mm/page_alloc.c:115-124); `expand` never reads the counts.
- The double-indirect index is not reduced by 512 and the test of the root is inverted
  (fs/inode.c:332-334): an inode with a root loses it, one without has the new table's number
  written into block 0. And new blocks are not cleared: `new_block` clears block k - 128 instead
  of k (fs/bitmap.c:103-107). Taking one block for an empty slot keeps the volume sound if and only if the
  block is clean where it becomes a table and the block cleared is no table with entries
  (`TakeAsWrittenExact`, unless both go wrong at once: then they can cancel out,
  `CoincidenceExample`). `create_block` as written on a path that is clean in this sense keeps the
  volume sound if and only if the index is below the double-indirect range and the map has the
  blocks (`CreateAsWrittenExact`). `StaleTableExample` and `CreateAsWrittenExample` are two calls
  that break it. The entry used is always one too far, and leaves the table for the last 512
  indices (`WrittenMidExact`). A map or inode-table block on disk that is cleared this way is not
  part of the volume here, whose map and inodes are those in memory.
- A missing table is looked up in block 0 (fs/inode.c:315-318, 340-344, 357-360). The volume
  invariant keeps block 0 all zeros; `HoleReadsBlockZero`, `MidHoleReadsBlockZero` and
  `RootHoleReadsBlockZero` say what is needed for a hole to read as one.
- `new_block` returns -1 on a full map, which the block map stores as 65535 (fs/bitmap.c:86-87,
  fs/inode.c:298, 321-323, 348-350). The model keeps that; `CreateNeedsSpace` says that the
  invariant survives if and only if the map has the blocks the call needs.
- Block numbers count 1024 per map block while the scan covers 8192 bits (fs/bitmap.c:53-54, 94):
  `FreeClearsWhatNewSet`, `NumbersCollide`. Volumes have one map block and under 1024 blocks.
- `new_block` clears, and `free_block` marks dirty and writes back without reading, the buffer of
  the raw number k instead of k + 128 (fs/bitmap.c:51, 62-63, 103-107 against
  drivers/block_buffer.c:215). `ClearRaw` and `FreeRaw` perform these lines on the cache: the value
  of raw block k changes and no other. Hence a new block reads as zeros if and only if it did
  before, everything is kept if and only if raw block k held those bytes already, and from 128 on
  it is block k - 128 that is overwritten, by zeros or by whatever the buffer last held
  (`RawWriteExact`, `FreeRawExample`). In `Fs` the block itself is cleared, and freeing writes no
  block.
- The map block is released on every use (fs/bitmap.c:60, 100). A second release of a buffer
  follows a null link if and only if the buffer was the head of its chain, and otherwise changes
  nothing (`SecondUnhashExact`).
- `new_inode` does not set the size of the inode it hands out (fs/bitmap.c:113-162), and neither does its
  caller (fs/name_inode.c:349-359): it is what the last user of the slab object left. The new inode
  is a file without holes if and only if that size is 0 (`NewInodeKeeps`), and the first write
  leaves one without holes if and only if it is below one block (`LeftoverSizeExact`,
  `LeftoverSizeExample`).
- The directory search probes one slot past the end (fs/name_inode.c:55). This is modelled as
  written; a block that is not mapped reads as zeros.
- `add_entry` does not look its name up, and `remove_entry` goes on from the given block to block 1
  (fs/name_inode.c:84-204). Both are modelled as written: `FillSlotExact` and the contracts of
  `AddEntry` and `RemoveEntry` say exactly when the directory stays a map and what is removed.
- `get_last_name` skips the first character of a path and one behind each slash
  (fs/name_inode.c:288-302). This is modelled as written; `GetLastName` says exactly for which paths
  the last component comes out, `RelativeNameExample` and `EmptyPartExample` are two for which
  it does not, and `ScanEndExact` says that the scan stays inside the string if and only if the
  path ends in an even number of slashes.
- `file_write` never releases its buffer (fs/file_dev.c:81-113), so the next fetch of the block
  reads the disk over it (drivers/block_buffer.c:151-152, 217-218): the written bytes are still there
  if and only if a sync came between or the disk had them already (`WriteThenFetch`,
  `WriteThenFetchExample`). `FileWrite` and `FileRead` are therefore stated over the abstract block
  store. Nor does it notice a full map: the volume stays sound through all rounds if and only if
  the map has the blocks the write takes (`WriteNeedsSpace`).
- `enqueue_task` does not clear the new task's link and trusts the tail link, which neither
  `dequeue_task` nor the switch of line 346 keeps (kernel/sched_os.c:116-151, 346). A task is
  appended if and only if its own link is null and the tail link is right (`EnqueueExact`); a task
  whose slice ends is moved if and only if it was alone in its level (`ExpireExact`); the switch
  leaves a right tail link if and only if the old task is the tail (`SwitchExact`).
- The arrays are filled with the character 0, byte 48 (kernel/sched_os.c:456): counters and bitmaps
  agree with the queues if and only if the fill is zero and the queues are empty (`FillExact`). The
  model starts with zeros and with the first task active (line 460 is commented out).
- A woken waiter stays in its wait queue in the source (kernel/sched_os.c:194-208) and may be woken
  again: waking a task keeps the queues sound if and only if it is not runnable already
  (`ActivateExact`). In the model only blocked tasks are woken. A wake-up asks for no reschedule;
  this is modelled as written (`WokenWaits`).
- The timer interrupt jumps to `schedule` instead of calling it (kernel/interrupt.s:150-152), so a
  return from there does not restore the registers; the model has the effect on the queues only.
- `free_active_hash` follows a null link if and only if the buffer is the tail of its chain and not
  its head (drivers/block_buffer.c:92-93); in every other case it is removed (`UnhashExact`). A
  buffer keeps its old chain links, and joins its next chain if and only if they are null where
  they are not overwritten (`HashExact`).
- `brelse` does not return the buffer to the free ring (drivers/block_buffer.c:204), and the last buffer of the
  ring never leaves it (lines 50-54, 154-155). The fetches of blocks nobody holds get each buffer once and
  then the last one for ever; they get different buffers if and only if there are at most as
  many of them as buffers (`HandedOutIs`, `HandedOutDistinct`).
- `sync_buffer` leaves the dirty flag set (drivers/block_buffer.c:97-102); the model clears it.
  `StaleWriteExact` says when leaving it set is harmless, `StaleWriteRun` is a run in which a write is lost.
- `mutex_lock_test` raises the lock and returns 1 or -1, never 0 (kernel/atomic.c:4-10), so the test
  of drivers/block_buffer.c:113 skips no buffer, as in the model, and leaves every lock raised,
  which the model does not have.
- A read or write may stop after eight errors (drivers/hd_device.c:31-32), which its callers do not notice.
  `ReadComplete` and `WriteComplete` say when the transfer is complete all the same, `RefillExact`
  that the cache stays sound if and only if a read is.
- `bad_rw_intr` reads the head after it may have ended (drivers/hd_device.c:33): there is none exactly
  at the eighth error of the last request of the queue, which under `ReadWriteBlock` is every
  eighth error (`BadHeadExact`). The model decides on the reset before.

## Model

| member | source | states |
|---|---|---|
| `BuddyBlocks.Laminar` | mm/page_alloc.c:185-213 | aligned blocks of any two orders are nested or disjoint, and a block strictly inside another has its parent inside it too |
| `BuddyBlocks.CarveCanonical` | mm/page_alloc.c:57-84 | removing a canonical block from the free set removes exactly that block from the canonical decomposition, for every other block in both directions |
| `BuddyBlocks.CanonicalDisjoint` | mm/page_alloc.c:185-213 | two different canonical blocks share no page |
| `BuddyBlocks.RunInCanonical` | mm/page_alloc.c:87-134 | every aligned run of free pages lies inside some canonical block |
| `FreeLists.AddBlock` | mm/page_alloc.c:6-28 | linking a block that is maximal in the larger free set makes the lists canonical for that set |
| `FreeLists.RemoveBlock` | mm/page_alloc.c:30-51 | a canonical block is on the list of its order, and unlinking it makes the lists canonical for the rest |
| `FreeLists.ListedApart` | mm/page_alloc.c:57-232 | any two listed blocks of all orders are size-aligned, free and disjoint |
| `FreeLists.NoTwoBuddies` | mm/page_alloc.c:185-213 | below the top order a block and its buddy are never both listed |
| `FreeLists.ListsDetermined` | mm/page_alloc.c:185-219 | two sets of canonical lists for the same free pages hold the same blocks in every order |
| `FreeLists.FreePagesCounted` | mm/page_alloc.c:27-44 | the listed blocks, weighted by their size, count every free page exactly once |
| `BuddyModel.AllocKeeps` | mm/page_alloc.c:87-134 | an allocation keeps the invariant (free and live disjoint, live pairwise disjoint, together the managed range) and its block was not live before |
| `BuddyModel.FreeKeeps` | mm/page_alloc.c:170-232 | a free keeps the same invariant |
| `BuddyModel.EveryRunKeepsInv` | mm/page_alloc.c:57-232 | the invariant holds in every state of every run of allocations and frees, on the same managed range |
| `BuddyModel.Conservation` | mm/page_alloc.c:57-232 | free and live pages partition the managed range, and the pages counted by nr_free plus the live ones are exactly its size |
| `BuddyModel.FreeOrderIrrelevant` | mm/page_alloc.c:170-232 | freeing the same blocks in any order gives the same state and the same lists |
| `BuddyModel.AllocFreeRestores` | mm/page_alloc.c:87-232 | freeing what was just allocated gives back the state before |
| `BuddyModel.NoRunLeft` | mm/page_alloc.c:98-133 | when all lists from order k up are empty, no aligned run of 2^k free pages exists anywhere |
| `BuddyModel.HalvedAt` | mm/page_alloc.c:57-84 | after a split every order from low up to high has gained its upper half and no other list has changed |
| `BuddyModel.SplitTiles` | mm/page_alloc.c:57-84 | the pieces listed by a split together with the rest hold exactly the pages of the block that was split |
| `BuddyModel.PiecesApart` | mm/page_alloc.c:57-84 | no page lies in two of those pieces, or in a piece and the rest |
| `BuddyModel.BuddyListed` | mm/page_alloc.c:185-213 | all pages of the buddy are free if and only if the whole buddy is on the list of that order; unlinking it then leaves canonical lists |
| `BuddyModel.MergeOutcome` | mm/page_alloc.c:196-213 | the per-page count scan succeeds if and only if the buddy is listed; otherwise the block reached is canonical |
| `BuddyModel.ClimbedAt` | mm/page_alloc.c:185-213 | after a merge up to an order exactly the buddies on the way have left their lists |
| `BuddyTiling.NextLarger` | mm/page_alloc.c:247-269 | in a range up to the end of memory the canonical block behind one below the top order is strictly larger |
| `BuddyTiling.Advance` | mm/page_alloc.c:263-265 | advancing by the doubled count lands inside the next canonical block, and the closing loop stays inside memory |
| `BuddyTiling.CursorPastEnd` | mm/page_alloc.c:261-267 | when the cursor passes the end, the tiling has reached the end exactly |
| `BuddyAllocator.Buddy.constructor` | mm/memory.c:260-285 | boot gives a valid allocator whose free set is exactly [start, end); counts are 1 below start and 0 above, and pages in use have order 9 |
| `BuddyAllocator.Buddy.InitBuddyPages` | mm/page_alloc.c:247-269 | the loop terminates and its lists are the canonical tiling of [start, end), page counts untouched |
| `BuddyAllocator.Buddy.AddFreeArea` | mm/page_alloc.c:6-28 | the page enters behind the head, its order is set, the counter grows by one, nothing else changes |
| `BuddyAllocator.Buddy.RemoveFreeArea` | mm/page_alloc.c:30-51 | the walk removes the page's entry if there is one, and the counter stays the length |
| `BuddyAllocator.Buddy.Expand` | mm/page_alloc.c:57-84 | the split leaves lists that are canonical for the free pages without the final lower part, one upper half per order |
| `BuddyAllocator.Buddy.AllocPages` | mm/page_alloc.c:87-134 | succeeds if and only if an aligned run of 2^k free pages exists; takes the entry behind the head of the smallest sufficient order, splits it, stamps the orders, sets exactly its own counts to 1, keeps the allocator valid |
| `BuddyAllocator.Buddy.ScanBuddy` | mm/page_alloc.c:197-202 | true if and only if every page scanned has count 0; orders change only on free pages |
| `BuddyAllocator.Buddy.TryMerge` | mm/page_alloc.c:188-213 | merges if and only if the buddy is listed, and keeps the lists canonical around the block being freed |
| `BuddyAllocator.Buddy.Coalesce` | mm/page_alloc.c:185-213 | ends at the canonical block around the freed one in the new free set |
| `BuddyAllocator.Buddy.FreePages` | mm/page_alloc.c:170-232 | the allocator stays valid, exactly the freed block's counts become 0, its buddies leave their lists level by level, the merged block is linked behind the head, and the order fields are those the scans and the closing loop leave |
| `BuddyAllocator.Buddy.FreePage` | mm/page_alloc.c:239-243 | the order recorded in the page descriptor is the one that was allocated |
| `BuddyAllocator.Buddy.AllocThenFree` | mm/page_alloc.c:87-232 | state and all free lists are restored |
| `BuddyAllocator.Buddy.ClimbAsWritten` | mm/page_alloc.c:180-213 | line by line for order 0: the climb ends at the canonical block around the page and finds nothing to unlink |
| `BuddyAllocator.Buddy.FreeAsWritten` | mm/page_alloc.c:170-232 | line by line for order 0 on free pages: lists the canonical block, changes no count, returns twice its size below the top order |
| `BuddyAsWritten.WrittenBuddyExact` | mm/page_alloc.c:180-194 | the unshifted index finds the buddy if and only if the order is 0 or the block is the first one |
| `BuddyAsWritten.WrittenBuddyExample` | mm/page_alloc.c:180-194 | freeing pages 2-3 scans from page 6, the buddy is at page 0 |
| `BuddyAsWritten.WrittenUnlinkExact` | mm/page_alloc.c:205-208 | unlinking the lower half leaves canonical lists if and only if the freed half is the upper one |
| `BuddyAsWritten.WrittenUnlinkExample` | mm/page_alloc.c:205-208 | with page 1 listed, freeing page 0 merges the two and leaves page 1 listed |
| `BuddyAsWritten.WrittenClearExact` | mm/page_alloc.c:219-229 | the closing loop frees exactly the right pages and stays inside mem_map if and only if the order is below the top, the freed block is not the head of the merged one, no page in use follows within its size, and it does not end mem_map below the top order |
| `BuddyAsWritten.LoopInsideExact` | mm/page_alloc.c:224-229 | the closing loop writes past mem_map exactly for a block below the top order that ends it |
| `BuddyAsWritten.WrittenClearExample` | mm/page_alloc.c:219-229 | with every page in use, freeing page 0 leaves it in use and marks page 1 free |
| `BuddyAsWritten.WrittenRemoveExact` | mm/page_alloc.c:30-51 | over the links: read from the head the page is gone if and only if it is not the head; the ring is intact if and only if the page was not in it |
| `BuddyAsWritten.WrittenTakeExact` | mm/page_alloc.c:105-112 | over the links: a list of three or more loses two entries, a shorter one none; never just the taken one |
| `BuddyAsWritten.WrittenTakeLoses` | mm/page_alloc.c:105-112 | the pages counted by the lists are then one block too few, or one too many |
| `BuddyAsWritten.WrittenTakeExample` | mm/page_alloc.c:105-112 | taking one of three listed pages leaves one listed |
| `BuddyFreeAsWritten.WrittenMergeExact` | mm/page_alloc.c:185-217 | over lists as sequences: the lists after all merge rounds and the final link are canonical if and only if the freed block was the upper half in every round |
| `BuddyFreeAsWritten.MergeAreasExact` | mm/page_alloc.c:185-217 | over heads and links: what is read from the heads is canonical if and only if in addition no merged buddy is the head of its list |
| `BuddyFreeAsWritten.AddAreaReads` | mm/page_alloc.c:6-28 | over the links: the new page is read right behind the head |
| `BuddyFreeAsWritten.WrittenFreeExact` | mm/page_alloc.c:170-232 | a whole free of one page in use, from intact lists: counts, lists read from their heads and the bounds of the loop all come out right if and only if it merges, is the last page of the merged block, no merged buddy heads its list, no page in use follows within its size, and it does not end mem_map below the top order |
| `BuddyFreeAsWritten.MergedHeadExample` | mm/page_alloc.c:42-43 | pages 2, 4 and 5 free, page 3 freed: only the head of a list is in the way |
| `BuddyFreeAsWritten.EndOfMemoryExample` | mm/page_alloc.c:224-229 | pages 100 and 8190 free, page 8191 freed: only the end of mem_map is in the way |
| `BuddyFreeAsWritten.UnmergedStaysInUse` | mm/page_alloc.c:221-229 | a freed page whose buddy is in use keeps its count |
| `BuddyFreeAsWritten.LargeFreeKeepsHead` | mm/page_alloc.c:170-232 | for every block of order 1 or more, whatever the counts read on the way, the closing loop never reaches the block's own first page |
| `Slab.CacheEstimate` | mm/slab.c:105-125 | the number returned is the largest that fits, the rest is less than one more object |
| `Slab.MaxFitIsMax` | mm/slab.c:113-121 | a number of objects fits if and only if it is at most that capacity |
| `Slab.FindOrder` | mm/slab.c:160-178 | stops at order 7 or less with at least one object and under one eighth wasted, every smaller order being rejected |
| `Slab.StopsAtSeven` | mm/slab.c:164-175 | at order 7 both tests of the search pass for every size up to 65532 |
| `Slab.RoundedFits` | mm/slab.c:181-186 | rounding header and index array up to a word still leaves room for all objects |
| `Slab.SmallCapacity` | mm/slab.c:153-157 | below a page a slab holds an object if and only if the size is at most 4076 |
| `Slab.KmemCacheCreate` | mm/slab.c:131-204 | for every size: the least order that is not rejected, layout without overlap, maximal capacity, bounded waste, and at least one object exactly for sizes up to 4076 or from 4096 |
| `Slab.ObjectsApart` | mm/slab.c:231-280 | objects are disjoint, clear of header and index array, inside the pages of the slab |
| `Slab.AddrIndex` | mm/slab.c:280-305 | the index computed from an object's address is the index it was given out with |
| `Slab.ObjectPage` | mm/slab.c:234-303 | the page of an object is one of the pages that record its slab |
| `Slab.FreeChain` | mm/slab.c:250-256 | the index array links every object to the next and ends |
| `BitScan.FindFirstZero` | fs/bitmap.c:25-41 | the word-wise scan returns the least clear bit, or the map size when there is none |
| `BlockMap.LeafIndex` | fs/inode.c:294-360 | every logical index has a leaf slot whose index it is |
| `BlockMap.IndexLeaf` | fs/inode.c:294-360 | every leaf slot is the slot of its index |
| `BlockMap.EntryBytes` | fs/inode.c:318-323 | table entries are stored low byte first in bytes 2i and 2i + 1, and storing one changes no other byte |
| `BlockMap.InstallHeld` | fs/inode.c:296-368 | installing a fresh block changes what exactly one slot of one inode holds, across direct, indirect and double-indirect ranges |
| `BlockMap.InstallKeeps` | fs/inode.c:296-368 | and keeps blocks pairwise distinct, in range, and the map exact |
| `BlockAlloc.EnsureAllKeeps` | fs/inode.c:288-371 | filling every missing slot on a path keeps the invariant, all other slots, and takes exactly the missing number of blocks |
| `BlockAlloc.BmapIsLeaf` | fs/inode.c:383-386 | the lookup returns what the leaf slot of the index holds |
| `BlockAlloc.CreateCorrect` | fs/inode.c:378-386 | afterwards bmap returns a block for the index, every other index of every inode maps as before, all blocks stay distinct |
| `BlockAlloc.CreateNeedsSpace` | fs/inode.c:288-381 | the volume invariant survives if and only if the map has as many free blocks as the path is missing |
| `BlockAlloc.CreateData` | fs/inode.c:378-381 | no data block of any inode changes |
| `BlockAlloc.EnsureAllMarks` | fs/inode.c:296-313 | an inode is marked dirty exactly when one of its own block numbers changes, and those it has stay |
| `BlockFree.LogStep` | fs/inode.c:60-122 | releasing one slot's block extends the list of released blocks by that block, which was not on it |
| `BlockFree.ReleaseKeeps` | fs/inode.c:52-125 | with an inode's blocks cleared and the inode gone, the map is exact again and the rest undisturbed |
| `FileSystem.Fs.constructor` | fs/bitmap.c:67-110 | a volume without inodes, its map marking the reserved blocks, is sound |
| `FileSystem.Fs.AddInode` | fs/bitmap.c:113-162 | the same on the running system, for every leftover size |
| `FileSystem.Fs.NewBlock` | fs/bitmap.c:67-110 | takes the least free block, sets its bit, clears it; on a full map changes nothing and gives 65535 |
| `FileSystem.Fs.FreeBlock` | fs/bitmap.c:44-64 | clears exactly the block's bit, for numbers below 1024 |
| `FileSystem.Fs.CreatePath` | fs/inode.c:288-381 | performs exactly the fills of the path and returns the number at its end |
| `FileSystem.Fs.BmapRead` | fs/inode.c:288-371 | returns the mapping of the index |
| `FileSystem.Fs.CreateBlock` | fs/inode.c:378-386 | returns what bmap then returns, leaves every other mapping, inode and all data alone, marks the inode dirty exactly when it changes, and is sound if and only if there is space |
| `FileSystem.Fs.FreeInodeBlock` | fs/inode.c:52-125 | every data and table block of the inode is released exactly once, nothing else is, and the map is exact without the inode |
| `FileContents.WantedNext` | fs/file_dev.c:86-88 | a file without holes of one more block uses exactly the slots on that block's path in addition |
| `FileContents.AppendBlock` | fs/file_dev.c:86-88 | creating the next block keeps the file free of holes and every byte of every file |
| `FileContents.OverwriteKeeps` | fs/file_dev.c:105-111 | writing into a data block changes no slot of any inode and keeps the volume invariant |
| `FileContents.AppendChunkCorrect` | fs/file_dev.c:83-111 | a round appends its bytes to the contents and leaves every other file alone |
| `VolumeRuns.EmptyVolumeInv` | fs/bitmap.c:67-110 | a volume without inodes whose map marks the reserved blocks satisfies the invariant |
| `VolumeRuns.NewInodeKeeps` | fs/bitmap.c:113-162 | a new inode owns no block and leaves every other file alone; with the leftover size it is a file without holes if and only if that is 0 |
| `VolumeRuns.ChangeKeeps` | fs/inode.c:52-381 | new inodes, mapped blocks, writes into data blocks, size changes and deletions each keep the volume invariant |
| `VolumeRuns.EveryRunKeepsVolume` | fs/inode.c:52-381 | in every state of every run all data and table blocks are pairwise distinct and the set bits are exactly the reserved and the owned blocks |
| `FileDev.ChunkSize` | fs/file_dev.c:32-33 | a round stays inside one block, and all but the last end at a block boundary |
| `FileDev.CopyIn` | fs/file_dev.c:105-111 | the byte loop replaces exactly the bytes from the offset on by the chunk |
| `FileDev.WriteChunk` | fs/file_dev.c:83-111 | one round on the running system: contents, size, free blocks and other files |
| `FileDev.FileWrite` | fs/file_dev.c:60-115 | contents become the old ones followed by the written bytes, the file stays without holes, every other file is intact |
| `FileDev.WriteNeedsSpace` | fs/file_dev.c:81-113 | the volume is sound after every create_block and every copy of a write if and only if the map has the blocks its rounds take |
| `FileDev.NeededIs` | fs/file_dev.c:81-88 | those are one block per block of growth and one per table first used |
| `FileDev.LeftoverSizeExact` | fs/file_dev.c:66-88 | the first write to a new inode leaves no hole if and only if the leftover size is below one block; otherwise index 0 stays unmapped |
| `FileDev.LeftoverSizeExample` | fs/file_dev.c:66-88 | a leftover size of 1024: index 1 is mapped, index 0 is not |
| `FileDev.FileRead` | fs/file_dev.c:11-57 | returns exactly the slice of the contents at the position and moves the position by its length |
| `Directory.MatchExact` | fs/name_inode.c:11-30 | the comparison holds if and only if the stored name is the whole name; a zero name matches nothing |
| `Directory.FillSlot` | fs/name_inode.c:121-147 | filling a free slot binds exactly one more name |
| `Directory.FillSlotExact` | fs/name_inode.c:121-147 | filling a slot leaves a map if and only if the name was not bound |
| `Directory.ClearSlot` | fs/name_inode.c:186-198 | clearing a slot unbinds exactly its name |
| `Directory.Dir.constructor` | fs/name_inode.c:47-55 | a directory with one block of zeros binds nothing |
| `Directory.Dir.FindEntry` | fs/name_inode.c:33-81 | finds an entry if and only if the name is bound, with its inode number; otherwise every slot and the one past the end have been probed without a match |
| `Directory.Dir.AddEntry` | fs/name_inode.c:84-155 | stores the entry in the first slot that is not in use; the size grows by 16, and the directory is marked dirty, exactly when that is the end; every other slot stays; the directory stays a map if and only if the name was new; fails exactly when it has no block |
| `Directory.Dir.RemoveEntry` | fs/name_inode.c:158-204 | clears exactly the slot of that name if it lies in the given block or outside block 0, and changes nothing otherwise |
| `Directory.RemoveThenAdd` | fs/name_inode.c:84-204 | removing a name and adding another leaves the size alone |
| `Directory.SlotWritten` | fs/name_inode.c:52-65 | the slots are the 16-byte records of the blocks' bytes: writing a record changes one slot, and none crosses a block |
| `PathNames.SplitJoin` | fs/name_inode.c:212-306 | a path built from components splits into those components |
| `PathNames.GetLastDir` | fs/name_inode.c:212-281 | on every path: all components but the last are looked up in order, from the root if the path starts with a slash and from the working directory otherwise |
| `PathNames.GetLastName` | fs/name_inode.c:283-306 | returns the last component, as the other scanner splits the path, if and only if the path has a slash and the run of slashes before the component is odd or empty behind the first character; and what it returns otherwise |
| `PathNames.ScanEndExact` | fs/name_inode.c:291-304 | the scan stops at the terminator if and only if the path ends in an even number of slashes, and one past it otherwise |
| `PathNames.RelativeNameExample` | fs/name_inode.c:288-289 | for "foo" the component is "foo" and the name "oo" |
| `PathNames.EmptyPartExample` | fs/name_inode.c:283-306 | "/a//b" has the last component "b" behind a run of two slashes |
| `PathNames.DirNamei` | fs/name_inode.c:309-315 | for every absolute path of nonempty components the two scanners agree, and there is no directory if and only if one of the first n - 1 lookups fails |
| `PathNames.DirNameiRelative` | fs/name_inode.c:309-315 | for every relative path of two or more nonempty components: the directory reached from the working directory and the last component; a single component loses its first character |
| `PathNames.ResolveExample` | fs/name_inode.c:258-279 | two lookups in a row, the second in the directory the first found |
| `PathNames.FailsSomewhere` | fs/name_inode.c:258-264 | resolving fails if and only if some lookup fails after all before it succeeded |
| `NameLookup.LookUp` | fs/name_inode.c:258-266 | a lookup of the path scanners is what find_entry decides on the directory |
| `InodeTable.DecodeEncode` | fs/inode.c:179-210 | the 32-byte record gives back every disk field |
| `InodeTable.RecordOffsets` | fs/inode.c:179-210 | the byte offset of every field, for every record |
| `InodeTable.EncodeDecode` | fs/inode.c:179-210 | every record is the record of its fields |
| `InodeTable.Placement` | fs/inode.c:167-176 | numbers from 1 up fall into the blocks of the table, each at its own place |
| `InodeTable.PlacesDiffer` | fs/inode.c:167-176 | distinct numbers have distinct places |
| `InodeTable.ZeroIsOutside` | fs/inode.c:167-170 | number 0 would fall into the block before the table |
| `InodeTable.WriteThenRead` | fs/inode.c:153-215 | what was written is read back and every other inode reads as before |
| `InodeTable.ReadAtBytes` | fs/inode.c:202-210 | the bytes on disk that the fields of inode number ino are read from |
| `InodeTable.Table.constructor` | fs/inode.c:153-215 | the blocks, map sizes and inode map of a mounted volume |
| `InodeTable.Table.WriteInode` | fs/inode.c:153-187 | writes a dirty inode and only that one; a clean one changes nothing |
| `InodeTable.Table.ReadInode` | fs/inode.c:194-215 | reads the fields stored for its number |
| `InodeTable.Table.NewInodeNumber` | fs/bitmap.c:129-145 | the least free number is taken, or none exactly when the map is full |
| `FsAsWritten.FreeClearsWhatNewSet` | fs/bitmap.c:53-94 | freeing clears the bit that allocating set if and only if the bit is below 1024 |
| `FsAsWritten.NumbersCollide` | fs/bitmap.c:94 | two bits get one number if and only if they lie matching multiples of 1024 apart |
| `NewBlockAsWritten.StaleTableBreaks` | fs/bitmap.c:90-107 | a new table that still has entries breaks the volume |
| `NewBlockAsWritten.ClearedTableBreaks` | fs/bitmap.c:103-107 | clearing block k - 128 breaks the volume if that is a table with entries |
| `NewBlockAsWritten.TakeAsWrittenExact` | fs/bitmap.c:90-107 | taking one block for an empty slot, where at most one of the two goes wrong, keeps the volume sound if and only if neither does |
| `NewBlockAsWritten.EnsureAllWrittenKeeps` | fs/inode.c:294-368 | on a clean path with enough free blocks the written lines keep the invariant, fill the path and change no other slot |
| `BmapAsWritten.WrittenMidExact` | fs/inode.c:332-344 | the written entry is always one too far, and outside the table exactly for the last 512 indices |
| `BmapAsWritten.RootlessBreaks` | fs/inode.c:334-353 | an inode without a root gets none: the new table's number lands in block 0, and the volume is unsound |
| `BmapAsWritten.RootReplaced` | fs/inode.c:334-338 | an inode with a root loses it while its bits stay set: the invariant is gone |
| `BmapAsWritten.CreateAsWrittenExact` | fs/inode.c:288-381 | create_block as written, new_block included, where new tables are clean and no table is cleared: sound if and only if the index is below the double-indirect range and the map has the blocks the path is missing |
| `BmapAsWritten.CreateAsWrittenMaps` | fs/inode.c:288-330 | there the index is mapped and every other index of every inode maps as before |
| `BmapAsWritten.CreateAsWrittenExample` | fs/inode.c:332-350 | block 519 of a new file on an empty volume breaks it |
| `BmapAsWritten.StaleTableExample` | fs/inode.c:309-318 | block 7 of a new file breaks the volume when the first free block still has an entry |
| `BmapAsWritten.CoincidenceExample` | fs/bitmap.c:90-107 | a stale table and a cleared table in one call can cancel out |
| `BmapAsWritten.CreateBlockAsWritten` | fs/inode.c:288-381 | the lines in order on the running system perform that function |
| `BmapAsWritten.NewBlockRaw` | fs/bitmap.c:67-110 | the least free number is marked, block k - 128 is cleared, block k is not |
| `FsAsWritten.HoleReadsBlockZero` | fs/inode.c:315-318 | a hole reads as 0 if and only if block 0 has a zero there |
| `FsAsWritten.MidHoleReadsBlockZero` | fs/inode.c:357-360 | without an inner table a hole reads as 0 if and only if block 0 has a zero there |
| `FsAsWritten.RootHoleReadsBlockZero` | fs/inode.c:340-360 | without a root the table named by block 0 is read; a hole reads as 0 if and only if that table has a zero there |
| `SchedModel.PushCounted` | kernel/sched_os.c:116-167 | enqueueing keeps counters, bitmap and nr_running equal to the queue contents |
| `SchedModel.PopCounted` | kernel/sched_os.c:140-181 | dequeueing does too |
| `SchedModel.FillExact` | kernel/sched_os.c:456-458 | arrays filled with a byte agree with their queues if and only if the byte is 0 and the queues are empty; otherwise every level is marked and no swap happens |
| `SchedModel.DropHeadExact` | kernel/sched_os.c:140-151 | dropping the head removes a task if and only if it is the head |
| `SchedModel.TickKeeps` | kernel/sched_os.c:274-299 | a tick keeps the invariant; afterwards the running one still heads its level or a reschedule is pending |
| `SchedModel.RunnableMeans` | kernel/sched_os.c:319-333 | the search finds a level if and only if some task is runnable |
| `SchedModel.ScheduleKeeps` | kernel/sched_os.c:306-350 | after a switch the running task heads its own level in the active array |
| `SchedModel.ForkKeeps` | kernel/sched_os.c:389-394 | a new task joins without disturbing the invariant or the running task |
| `SchedModel.ActivateExact` | kernel/sched_os.c:199-207 | waking a task keeps the invariant if and only if it is not runnable already |
| `SchedModel.LeaveKeeps` | kernel/sched_os.c:383-402 | a task that blocks or ends is queued nowhere, all others stay |
| `SchedModel.LeaveExact` | kernel/sched_os.c:170-174 | taking the running task off its queue keeps the invariant if and only if it stops being runnable |
| `SchedModel.AfterKeeps` | kernel/sched_os.c:116-402 | every event keeps the invariant and the running task at the head of its level |
| `SchedModel.EveryRunKeepsInv` | kernel/sched_os.c:116-402 | both hold in every state of every run |
| `SchedModel.InExactlyOneQueue` | kernel/sched_os.c:116-181 | a runnable task occurs exactly once over both arrays, at its own level |
| `SchedSteps.TickIs` | kernel/sched_os.c:78-83 | a tick in numbers: a real-time task that is not round-robin is left alone, any other loses one unit, or is reloaded with 2800 - 20p below priority 120 and 700 - 5p from there, moved to the end of its expired level, and a reschedule is pending |
| `SchedSteps.ReloadOrder` | kernel/sched_os.c:78-83 | a smaller priority number always reloads strictly more |
| `SchedSteps.ScheduleIs` | kernel/sched_os.c:306-350 | the arrays are exchanged exactly when nobody is active, the head of the first nonempty level runs, and the flag is cleared exactly when that is another task |
| `SchedSteps.TimerIs` | kernel/sched_os.c:249-350 | after a timer interrupt that switches the flag is clear; otherwise it is as the tick left it |
| `SchedSteps.SwitchThenWake` | kernel/sched_os.c:194-350 | after an interrupt that switched, a woken task of higher priority does not get the next one while the running task has more than one unit left |
| `SchedSteps.ForkIs` | kernel/sched_os.c:367-394 | a child has the parent's slice, is round-robin exactly below priority 100, joins the end of its level, and asks for a reschedule |
| `SchedSteps.WakeIs` | kernel/sched_os.c:199-207 | a woken task joins the end of its level and asks for nothing |
| `SchedSteps.LeaveIs` | kernel/sched_os.c:383-402 | a task that stops leaves the head of its level and asks for a reschedule |
| `SchedDrain.PlanLength` | kernel/sched_os.c:249-350 | tasks in priority, then queue order, each for its slice: as long as the sum of the slices |
| `SchedDrain.TickAdvances` | kernel/sched_os.c:274-299 | with nobody of higher priority waiting, one tick takes exactly the first entry off that plan |
| `SchedDrain.TickKeepsOrder` | kernel/sched_os.c:116-137 | per level, expired followed by active never changes order |
| `SchedDrain.FrontOrder` | kernel/sched_os.c:249-350 | with nobody of higher priority waiting, the order in which tasks run is the plan |
| `SchedDrain.TickWork` | kernel/sched_os.c:274-299 | in every state one tick takes exactly one unit off the sum of the remaining slices |
| `SchedDrain.OrderLength` | kernel/sched_os.c:249-350 | in every state the order is as long as the sum of the remaining slices |
| `SchedDrain.TimerStep` | kernel/sched_os.c:249-350 | from every state, one timer interrupt takes the running task off the front of the order without a swap, or empties the array and swaps with every level in order |
| `SchedDrain.DrainsInOrder` | kernel/sched_os.c:249-350 | in every timer run the i-th state runs the i-th task of the order and nothing expired runs |
| `SchedDrain.DrainsInExactlyItsWork` | kernel/sched_os.c:249-350 | the arrays are exchanged after exactly the sum of the remaining slices, from any state |
| `SchedDrain.UntimedNeverDrains` | kernel/sched_os.c:274-287 | an active real-time task that is not round-robin is still active after every tick |
| `SchedDrain.TickNextWork` | kernel/sched_os.c:274-299 | a tick never changes what the next round will take |
| `SchedDrain.ActiveArrayDrains` | kernel/sched_os.c:249-350 | both cases for every timer run from any state: the array drains in order in exactly its work, or holds a real-time task that is not round-robin throughout |
| `SchedDrain.NextRound` | kernel/sched_os.c:249-350 | the round after the swap takes what had expired before and a full slice, as a number in its priority, for every task that was active |
| `SchedDrain.WokenWaits` | kernel/sched_os.c:194-208 | a woken task of higher priority waits for the whole slice of the running one |
| `Scheduler.RunQueue.Enqueue` | kernel/sched_os.c:116-137 | a task is appended to its level and counted, nothing else changes |
| `Scheduler.RunQueue.Dequeue` | kernel/sched_os.c:140-151 | the head of the level leaves, the bit is cleared when it was the last |
| `Scheduler.SchedulerState.constructor` | kernel/sched_os.c:439-460 | one active task in otherwise empty arrays satisfies the invariant |
| `Scheduler.SchedulerState.ActivateTask` | kernel/sched_os.c:154-159 | performs the activation step |
| `Scheduler.SchedulerState.SchedulerTick` | kernel/sched_os.c:274-299 | performs the tick in numbers, keeps the invariant, every slice stays at least 1 so the test for zero never skips |
| `Scheduler.SchedulerState.FindLevel` | kernel/sched_os.c:326-333 | returns the first level whose bit is set |
| `Scheduler.SchedulerState.Schedule` | kernel/sched_os.c:306-350 | the switch with arrays exchanged by reference: who runs, when the arrays are exchanged, when the flag is cleared |
| `Scheduler.SchedulerState.TimerInterrupt` | kernel/interrupt.s:126-152 | a tick and the pending reschedule; the flag is clear after a switch |
| `Scheduler.SchedulerState.SchedFork` | kernel/sched_os.c:389-394 | the child in numbers: policy, slice, place, and the pending reschedule |
| `Scheduler.SchedulerState.WakeUp` | kernel/sched_os.c:199-207 | a blocked task joins the end of its level, the flag and the running task stay as they are |
| `Scheduler.SchedulerState.LeaveActive` | kernel/sched_os.c:383-402 | the running task leaves the head of its level in its new state, a reschedule is pending |
| `SchedAsWritten.EnqueueExact` | kernel/sched_os.c:116-137 | over the links: a task is appended if and only if its own link is null and the level's tail link is right |
| `SchedAsWritten.DequeueReads` | kernel/sched_os.c:140-151 | over the links: the rest of the level is read as before; the task that left keeps its link exactly when another followed |
| `SchedAsWritten.ExpireExact` | kernel/sched_os.c:282-283 | over the links: a task is moved to the expired level if and only if it was alone in its own and the tail link is right |
| `SchedAsWritten.ExpireExample` | kernel/sched_os.c:282-283 | the first of two tasks drags the second along |
| `SchedAsWritten.SwitchExact` | kernel/sched_os.c:346 | the overwritten tail link is right if and only if the old task is the tail |
| `BufferCache.ChainAgrees` | drivers/block_buffer.c:123-143 | a buffer is found in its bucket if and only if a scan of all buffers finds it |
| `BufferCache.ActivateKeeps` | drivers/block_buffer.c:47-72 | taking a free buffer keeps chains, ring and uniqueness of block numbers |
| `BufferCache.ReleaseKeeps` | drivers/block_buffer.c:75-95 | giving a buffer back keeps them |
| `BufferCache.Cache.constructor` | drivers/block_buffer.c:267-296 | all buffers are free and every block reads as on disk |
| `BufferCache.Cache.GetHashBuffer` | drivers/block_buffer.c:123-143 | walks one chain and returns what a scan of all buffers would, with one more reference |
| `BufferCache.Cache.AllocBuffer` | drivers/block_buffer.c:146-187 | the holder of the block, or the head of the free ring, which leaves the ring and goes behind the head of chain x % 400; none exactly when neither exists |
| `BufferCache.Cache.BreadBlock` | drivers/block_buffer.c:210-225 | the buffer shows the disk, every other block reads as before |
| `BufferCache.Cache.Brelse` | drivers/block_buffer.c:190-207 | the last reference writes an edited buffer back and puts it at the end of the ring; no block changes its value |
| `BufferCache.Cache.SyncDev` | drivers/block_buffer.c:104-121 | every dirty buffer is written; no block changes its value |
| `BufferCache.RunScript` | drivers/block_buffer.c:47-225 | every disciplined run of fetches, edits and releases returns exactly what a plain array of blocks would |
| `CacheAsWritten.ClearRaw` | fs/bitmap.c:103-107 | the lines on the cache: raw block k reads as zeros afterwards, every other block as before |
| `CacheAsWritten.FreeRaw` | fs/bitmap.c:51-63 | the lines on the cache: raw block k reads as what the taken buffer last held, every other block as before |
| `CacheAsWritten.RawWriteExact` | fs/bitmap.c:103-107 | block k of the file system reads as written if and only if it did before; all is kept if and only if raw block k held those bytes; from 128 on block k - 128 is hit |
| `CacheAsWritten.FreeRawExample` | fs/bitmap.c:51-63 | after block 1 was read, freeing block 128 puts its bytes into block 0 |
| `CacheAsWritten.RefillExact` | drivers/block_buffer.c:217-218 | the cache stays sound after a read if and only if the read left what the disk has |
| `CacheAsWritten.WriteThenFetch` | drivers/block_buffer.c:146-225 | a write whose buffer is kept, then a fetch of the block: the bytes are still there if and only if a sync came between or the disk had them |
| `CacheAsWritten.WriteThenFetchExample` | drivers/block_buffer.c:146-225 | [7] is written to block 0 and read back as the old [128] |
| `CacheAsWritten.StaleWriteExact` | drivers/block_buffer.c:97-121 | with the dirty flag left set, a sync keeps a block nobody holds if and only if the last dirty buffer for it agrees with the disk |
| `CacheAsWritten.StaleWriteRun` | drivers/block_buffer.c:97-121 | a run of fetches, edits and releases after which a sync loses a write |
| `CacheAsWritten.UnhashExact` | drivers/block_buffer.c:75-95 | over the links: a null link is followed if and only if the buffer is the tail and not the head; otherwise exactly that buffer leaves the chain |
| `CacheAsWritten.SecondUnhashExact` | drivers/block_buffer.c:75-95 | a second release follows a null link if and only if the buffer was the head of its chain, and otherwise changes nothing |
| `CacheAsWritten.HashExact` | drivers/block_buffer.c:56-72 | over the links: the buffer joins the chain if and only if its old links are null where they are not overwritten |
| `CacheAsWritten.TakeFreeExact` | drivers/block_buffer.c:47-54 | over the links: the first buffer leaves the ring, unless it is the only one |
| `CacheAsWritten.HandedOutIs` | drivers/block_buffer.c:146-204 | with nothing coming back, fetches get each buffer once and then the last one for ever |
| `CacheAsWritten.HandedOutDistinct` | drivers/block_buffer.c:146-204 | they get different buffers if and only if there are at most as many fetches as buffers |
| `HdDriver.Driver.EndRequest` | drivers/hd_request_queue.c:39-52 | both locks drop by one and the head leaves the queue |
| `HdDriver.Driver.BadRwIntr` | drivers/hd_device.c:29-35 | the head ends exactly at its eighth error, else only its error count grows; a reset is due from the fourth on |
| `HdDriver.BadHeadExact` | drivers/hd_device.c:29-35 | line 33 finds no head exactly at the eighth error of the last request, and the errors of the next request at that of an earlier one |
| `HdDriver.Driver.DoHdRequest` | drivers/hd_device.c:193-213 | for every stream of results the recursion ends with the queue empty, every request ended once, in order |
| `HdDriver.Driver.ReadIntr` | drivers/hd_device.c:78-115 | the same from inside a read; terminates by queue length, sectors left and errors left |
| `HdDriver.Driver.WriteIntr` | drivers/hd_device.c:118-152 | the same from inside a write |
| `HdDriver.ServedAfterMove` | drivers/hd_device.c:99-111 | moving one sector and serving the rest serves the whole request |
| `HdDriver.OneErrorMore` | drivers/hd_device.c:80-85 | counting one error and serving the rest serves the same requests |
| `HdDriver.MoveMeaning` | drivers/hd_device.c:86-105 | what a request moves is exactly sectors 2b and 2b + 1, as far as it got, and nothing else |
| `HdDriver.Driver.constructor` | drivers/hd_device.c:223-236 | no request is pending, for every stream of results |
| `HdDriver.Driver.GetRequest` | drivers/hd_request_queue.c:12-35 | the first unlocked slot |
| `HdDriver.Driver.ReadWriteBlock` | drivers/hd_request_queue.c:55-82 | the block is transferred whole, or the request failed eight times in a row; both locks are as before, nothing else is touched |
| `HdDriver.ReadComplete` | drivers/hd_device.c:80-114 | a read that stopped short shows the block if and only if the bytes it did not move were right already |
| `HdDriver.WriteComplete` | drivers/hd_device.c:120-151 | a write that stopped short has reached the disk if and only if the sectors it did not move were right already |
| `PageTables.CopyTable` | mm/vmalloc.c:161-173 | the 1024 entries are copied, every word outside that frame is kept |
| `PageTables.CopyPageTables` | mm/vmalloc.c:129-183 | fails exactly when the frames run out; touches only three directory entries and the fresh frames; every present table is copied into the next frame, whose entry is 4096 times the frame plus 7 |
| `PageTables.ChildTranslates` | mm/vmalloc.c:129-183 | below 12 MiB the child's address translates as the parent's does, before and after |
| `PageTables.ChildAccess` | mm/vmalloc.c:129-183 | user mode may do at the child's address exactly what the parent's table entry allows |
| `PageTables.OthersTranslate` | mm/vmalloc.c:129-183 | every address outside the child's three entries translates as before |

## Left out

- BuddyAllocator.Buddy.RemoveFreeArea: keeps the list as a sequence; what the written links do is `WrittenRemoveExact`.
- BuddyAllocator.Buddy.AllocPages: takes exactly one entry off the list; what lines 111-112 do instead is `WrittenTakeExact` and `WrittenTakeLoses`.
- BuddyAllocator.Buddy.TryMerge: unlinks the buddy; unlinking the lower half as written is `WrittenUnlinkExact`.
- BuddyAllocator.Buddy.Coalesce: climbs with the shifted index; the written index is `WrittenBuddyExact`.
- BuddyAllocator.Buddy.FreePages: models coalescing with the shifted index, the buddy unlinked and exactly the block's pages cleared; a whole free as written is `WrittenFreeExact` for one page and `LargeFreeKeepsHead` for more.
- BmapAsWritten.CreateAsWrittenExact: is exact on clean paths; off them soundness goes one way only, because a stale and a cleared table can cancel out (`CoincidenceExample`), and is exact for a single block (`TakeAsWrittenExact`).
- BuddyAllocator.Buddy.ClimbAsWritten: covers starting order 0 on free pages, as the initialisation calls it; a page in use is the subject of `WrittenMergeExact`.
- BuddyAllocator.Buddy.FreeAsWritten: covers starting order 0 on free pages, as the initialisation calls it; a page in use is the subject of `WrittenFreeExact`.
- FileSystem.Fs.NewBlock: clears the block itself; the lines as written are `ClearRaw`.
- FileSystem.Fs.FreeBlock: covers numbers below 1024, the only ones a volume with one map block can have, and writes no block; the buffer lines as written are `FreeRaw`.
- FileSystem.Fs.FreeInodeBlock: writes no block, as `FreeBlock` writes none; each call's buffer lines as written are `FreeRaw`.
- FileDev.FileWrite: is over the abstract block store, where a written block keeps its bytes; with the buffer that is never released they survive exactly as `WriteThenFetch` says. It requires that the map has the blocks the whole write needs, which is exactly when it is sound (`WriteNeedsSpace`), and that the file stays within 262663 blocks.
- FileDev.WriteChunk: requires the block the round may need; `RoundExact` says that this is exactly when the round is sound.
- FileDev.FileRead: covers positions within the file; past the last block the source goes on with a buffer it has released.
- Directory.Dir.AddEntry: takes it that a new directory block can be had; a full map is the subject of `CreateNeedsSpace`.
- PathNames.GetLastName: excludes paths that end in an odd number of slashes, which are exactly those on which the source reads past the end of the string (`ScanEndExact`).
- Scheduler.SchedulerState.constructor: starts with zero-filled arrays and the first task active; the fill as written is `FillExact`.
- Scheduler.SchedulerState.TimerInterrupt: has the effect on the queues, not the return path of kernel/interrupt.s:150-165.
- Scheduler.SchedulerState.WakeUp: requires a blocked task, which is exactly when waking is sound (`ActivateExact`); wait queues are not modelled.
- Scheduler.SchedulerState.Schedule: requires a runnable task; without one the source has no queue to take a task from.
- BufferCache.Cache.AllocBuffer: reports that no buffer is free instead of sleeping; buffer locks and the retry loops around them are not modelled.
- BufferCache.Cache.SyncDev: has no locks; that they stay raised is recorded above.
- BufferCache.Cache.BreadBlock: takes the read to be complete; one that stops short is the subject of `RefillExact` and `ReadComplete`.
- BufferCache.Cache.Brelse: returns the buffer to the ring and clears its flag; the lines as written are `HandedOutIs` and `StaleWriteExact`.
- HdDriver.Driver.BadRwIntr: decides on the reset before the head is gone; what line 33 reads is `BadHeadExact`.
- HdDriver.Driver.GetRequest: requires an unlocked slot; sleeping until there is one is not modelled.
- HdDriver.Driver.ReadWriteBlock: covers a call with an empty queue; insertion into a waiting queue and its sector order (drivers/hd_request_queue.c:85-98) are not modelled, and the wait for the data-request bit is taken to end.
- Extra references on pages (mm/page_alloc.c:150-160): only count zero or not matters to the allocator.
- Slab lists, the free chain after the first use, and descriptors outside the slab (mm/slab.c:41-100, 188-192, 276-313).
- Page faults, page sharing, brk, mmap lists and freeing page tables (mm/memory.c, mm/filemap.c, the rest of mm/vmalloc.c).
- Inode reference counts, the inode cache, open files, directories as system calls and exec (fs/sys_file.c, fs/file_table.c, fs/execve.c, fs/inode.c:128-285).
- Volumes with more than one map block, and the super block (fs/super.c).
- Timers, wait queues and semaphores (kernel/sched_os.c:211-272, kernel/wait.c): sleeping and waking are single steps.
- Timeouts of the disk (drivers/hd_device.c:180-190) and port I/O.
- Boot code, interrupt entry, task switching and descriptor tables (boot/boot.asm, init/head.s, kernel/process.c): no algorithm to state.
- Console, keyboard, tty and formatted printing: device registers and easy loops.
