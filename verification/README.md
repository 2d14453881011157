# Verification of the orcas kernel

orcas is a small operating system kernel in C. This project models its stateful core in Dafny 4.11
and proves what that core is for: the file data path over the buffer cache, two-level paging and
the page allocator, the scheduler and the life of a thread, the mutex with its condition variable,
the producer and consumer over semaphores, and the two self-contained routines `split` and
`printi`. `dafny verify dfyconfig.toml` checks all of it.

## What is modelled

- **Buffer cache** (`Links`, `Counting`, `BlockCache`, `CacheRun`, `CacheAsWritten`, `CacheReads`).
  Class `Cache` has the intrusive LRU ring and the hash chains of `fs.c`; ghost sequences say which
  buffers are where. Its methods keep the structure and refine a plain map from device and block to bytes;
  `CacheRun.Replay` says so of whole runs. `CacheAsWritten` has `blockRead` as it stands and says
  exactly when one search, release and unlinking is right; `CacheReads` says exactly which whole runs
  of it deliver the blocks asked for.
- **Files** (`FileBytes`, `Layout`, `Files`, `FileRun`, `Allocation`). Class `FileSystem` has `read`,
  `write`, `allocData` and their loops over block maps, bitmap and cache; `FileRun` replays any
  sequence of calls against append-only byte sequences with cursors; `Allocation` has
  `diskLayoutInit`, `allocInode`, `freeData` and the allocating part of `creat`, which lead from
  a fresh disk to valid states with files.
- **Paging** (`Arithmetic`, `Address`, `Paging`, `PagingRun`). The macros of `memory.h` bit by bit, memory
  as 32-bit words, and class `Kernel` with `allocPage`, `freePage`, `map`, `rangemap` and the
  table-building part of `kmemInit`, against a flat map from page to entry. `getpte` and
  `translate` are the functions `Paging.GetPte` and `Paging.Translate`.
- **Threads** (`Scheduler`, `Threads`). The dispatch rule with its waiting bounds, the events in a
  thread's life as a state machine, and class `Table` with the functions of `thread.c`, each proved
  to be one step of that machine.
- **Mutex and condition variable** (`Mutex`, `MutexProgress`). Interleaved steps of one memory operation,
  a program counter a thread, over the three lock words; both as written and with the repairs named
  below. `MutexProgress` says that a call returns only with its work done, and who can still get the
  mutex.
- **Semaphores** (`Semaphore`). The producer and the consumer as interleaved steps; the test and the
  decrement of `thrSemDown`, and the two assignments of a body, are one step or, as in the code, two.
- **Text** (`Split`, `Console`). `split` over its array of terms, `printi` over its buffer.

Pointers into the kernel's static arrays are indices, with -1 for `NULL`; an array of structs is one
sequence a member. Disk transfers are reads and updates of a map and succeed.

## Where the model departs from the code

The model follows the code but for the repairs listed here. For each the project also says what
the code itself does, or the case is excluded.

- fs.c:50-51, fs.c:103-104: the search conditions are joined by `||`; `&&` stops at any node sharing
  one of the two numbers (`CacheAsWritten.LookupExactly`, `CacheAsWritten.LookupLooksAtTheFirst`).
- fs.c:56, fs.c:109: the end of a chain is tested before it is read through.
- fs.c:102: the search for the predecessor starts at the bucket's own node
  (`CacheAsWritten.OnlyTheSecondIsUnlinked`).
- fs.c:60-61: a hit leaves the ring alone (`CacheAsWritten.HitKeepsRing`). What the code makes of
  this line and fs.c:50-56 together: `CacheReads.ReadsRightExactly`.
- fs.c:416, fs.c:518, fs.c:542: the block itself is passed, not the address of the local pointer.
- fs.c:415, fs.c:515: with no free index the bitmap is written back as it was; the code stores outside
  the buffer.
- fs.c:991, in the repaired form of class `FileSystem` only: `>` is `>=`. As written the missing block after
  a write that exactly fills its last one has its exact consequence (`Files.FileSystem.Write`).
- fs.c:85-87: `hash_prev` is kept as the code keeps it, but nothing is stated of it: it is no inverse
  of `hash_next`.
- memory.c:78: `freePage` gets storage for its list node; the free list is a sequence.
- thread.c:183-198, in the repaired form of module `Mutex` only: releasing the mutex's spinlock, going to
  sleep and letting go of `thrque_lock` are one step, and a woken thread has no `thrque_lock` to
  release. Mutual exclusion is proved of both forms; the form as written comes to a standstill from three
  threads on (`Mutex.DeadFromThreeAsWritten`, `MutexProgress.LockedOutAsWritten`).
- thread.c:192: `thrCondWait` calls `thrSched` directly; in module `Threads` this is the thread's return
  to the scheduler.

Kept as written, with the exact consequence proved: index against address in `freeData` (fs.c:527-541,
`Allocation.AddressIsNoIndex`), the log region that runs into the inodes (fs.c:230-231,
`Allocation.FreshRegions`), the stale choice of the scheduler (thread.c:113, `Threads.ZombieRunsAgain`),
wake loops that start at slot 1 (thread.c:204, thread.c:216, `Mutex.NoWakeupIsLost`,
`Mutex.StuckFromTwo`), the test and the decrement of `thrSemDown` and the two parts of a loop's body
(thread.c:311-350, `Semaphore.PackedExactly`), the unterminated last term (util.c:104, `Split.Split`),
and negation of the least integer (console.c:115, `Console.OnlyIntMinFails`).

## Model

| member | source | states |
|---|---|---|
| `BlockCache.Cache.constructor` | fs.c:8-39 | a fresh cache is valid over any disk of whole sectors and holds no block |
| `BlockCache.Cache.LinkRing` | fs.c:10-31 | afterwards next and prev are mutual inverses round the sentinel, through buffers 127 down to 0, all unused |
| `BlockCache.Cache.LinkBuffer` | fs.c:14-27 | one buffer more on the stack that becomes the ring |
| `BlockCache.Cache.ClearBuckets` | fs.c:33-38 | every bucket's chain is empty |
| `BlockCache.Cache.Find` | fs.c:46-54 | NULL exactly when no cached buffer has that device and block, otherwise such a buffer (repaired search) |
| `BlockCache.Cache.TakeFirst` | fs.c:76-78 | the head of the ring, the least recently released buffer, leaves it; the ring stays a ring of the others |
| `BlockCache.Cache.Enter` | fs.c:80-87 | the buffer carries the new label and is in the bucket of its block; no block has two buffers |
| `BlockCache.Cache.GetCachedBlock` | fs.c:41-90 | a hit changes neither ring nor places; a miss takes the head of the ring; NULL exactly on a miss with an empty ring; each buffer stays in exactly one of the ring and one bucket |
| `BlockCache.Cache.FindPrev` | fs.c:99-106 | the node before the buffer in its bucket, which is the bucket's own node for the first (repaired start) |
| `BlockCache.Cache.Unlink` | fs.c:109-116 | the chain loses that node and no other chain changes |
| `BlockCache.Cache.HashOut` | fs.c:98-119 | the buffer is in no chain, every other buffer where it was |
| `BlockCache.Cache.Append` | fs.c:122-126 | the buffer is the last of the ring |
| `BlockCache.Cache.RelCachedBlock` | fs.c:95-127 | the buffer moves from its bucket to the tail of the ring; the structure invariant is kept |
| `BlockCache.Cache.ResidentSize` | fs.c:8-127 | buffers on the ring and blocks cached add up to BCACHE_SIZE, so the ring is empty only with that many distinct blocks cached |
| `BlockCache.Cache.Acquire` | fs.c:41-90 | getCachedBlock in terms of the cached blocks and their contents |
| `BlockCache.Cache.BlockRead` | fs.c:129-149 | delivers the bytes the disk has for the block, with room for one more block or a hit; the disk is unchanged |
| `BlockCache.Cache.BlockWrite` | fs.c:151-157 | the disk has the new bytes for the block and is otherwise unchanged; every cached buffer equals its sector |
| `BlockCache.Cache.EditAndWrite` | fs.c:151-157 | the same for a caller's edit in place of the cached buffer, as the file path does it |
| `BlockCache.Cache.Release` | fs.c:95-127 | exactly that block is no longer cached |
| `CacheRun.Serve` | fs.c:129-157 | one operation of a run: what it reads, which blocks are cached after it, and that the cache still mirrors the writes so far |
| `CacheRun.Replay` | fs.c:41-157 | over every run in which each miss finds a buffer on the ring, whatever number of blocks it touches, each read yields the bytes last written to its block, whatever was released and reused in between, and the blocks cached at the end are those the operations say |
| `CacheRun.FewBlocksServed` | fs.c:41-90 | a run on at most BCACHE_SIZE distinct blocks, those cached before it included, finds a buffer at every miss |
| `Links.RingTakeFirst` | fs.c:76-78 | taking the first node off keeps the ring's links mutual inverses |
| `Links.RingAppend` | fs.c:123-126 | appending at the tail keeps the ring's links mutual inverses |
| `Links.RingClose` | fs.c:29-31 | closing the NULL-terminated stack makes it a ring |
| `Links.PushedStep` | fs.c:20-26 | pushing a node extends the stack |
| `Links.ChainPush` | fs.c:85-87 | pushing at the bucket keeps the chain acyclic and NULL-terminated |
| `Links.ChainRemove` | fs.c:109-119 | unlinking a node leaves the chain of the others |
| `CacheAsWritten.LookupLooksAtTheFirst` | fs.c:47-65 | as written, a lookup among blocks of one device is right exactly when the chain is empty, its first node is the block, or no node is |
| `CacheAsWritten.LookupExactly` | fs.c:47-65 | as written, the lookup is right exactly when the chain is empty or its first node sharing device or block shares both or no node does |
| `CacheAsWritten.OnlyTheSecondIsUnlinked` | fs.c:100-117 | as written, a release unlinks a buffer exactly when it is the second of its chain, and reads through NULL when it is the only one |
| `CacheAsWritten.HitKeepsRing` | fs.c:60-61 | as written, a hit keeps the ring exactly when the buffer's stale next pointer is still the head of the ring |
| `CacheReads.ReadKnown` | fs.c:41-149 | as written, a read of the block that is first in its bucket delivers its bytes and puts the buffer behind it at the head of the ring |
| `CacheReads.ReadMissed` | fs.c:41-149 | as written, any other read takes the buffer behind the one read last, and delivers the bytes of the block that was loaded there, when one was |
| `CacheReads.ReadsRightExactly` | fs.c:41-149 | as written, over every run of blockRead on device 0 from an initialised cache all reads deliver the blocks asked for, on every disk, exactly when each block is first in its bucket or the buffer behind the one read last is unused or happens to hold it |
| `CacheReads.ReadsRightWhenNewFollowsNewest` | fs.c:41-149 | as written, over every run on blocks below BLK_HASH_SIZE all reads are right, on every disk, exactly when each first read of a block is the run's first or comes directly after a read of the block that was first read last |
| `CacheReads.FourReadsOutOfOrder` | fs.c:41-149 | blocks 0, 1, 0, 2 are not such a run |
| `CacheReads.FourReads` | fs.c:41-149 | so, as written, reading blocks 0, 1, 0, 2 delivers the bytes of block 1 for block 2 |
| `ByteCopy.CopyIn` | util.c:3-15 | the block with the bytes copied over its middle, nothing else changed |
| `ByteCopy.CopyOut` | util.c:3-15 | the caller's buffer with the bytes copied over its middle, nothing else changed |
| `ByteCopy.MoveWithin` | util.c:3-15 | the copy within one array, byte after byte from the front |
| `ByteCopy.MovesExactly` | util.c:3-15 | that copy moves the bytes as they were exactly when the target does not begin inside the source |
| `FileBytes.AppendChunk` | fs.c:1008-1033 | putting a chunk right behind a file's last byte into the block its map has there appends it, when the blocks of the map are distinct |
| `FileBytes.SliceOfText` | fs.c:948-970 | a chunk of the file inside one block is that chunk of the block |
| `FileBytes.FrameBytes` | fs.c:1008-1033 | writes to other blocks leave a file's bytes alone |
| `FileBytes.ChunkEdge` | fs.c:958-963 | past the head, chunk positions are block edges: head, whole blocks and tail partition the range |
| `Layout.DecodeEncode` | fs.c:188-221 | readSuperblock returns what writeSuperblock wrote |
| `Layout.EncodeBytes` | fs.c:205-221 | each member of the superblock at its offset in the struct of fs.h:80-91, least significant byte first, zeros behind |
| `Layout.DecodeBytes` | fs.c:188-203 | of any block readSuperblock takes the members whose bytes stand at those offsets |
| `Files.ScanBitmap` | fs.c:507-514 | the index of the lowest zero byte, or -1 |
| `Files.FreeMark` | fs.c:515 | marking a free entry leaves one free entry less |
| `Files.ExtendMap` | fs.c:1002-1005 | a map extended by a fresh block is a map of distinct taken blocks |
| `Files.ExtendOther` | fs.c:1002-1005 | every other map stays so, and apart from it |
| `Files.NewBlocksLand` | fs.c:988-994 | the blocks added take the map to the last block of the new length, one short exactly when, as written, the bytes end a block |
| `Files.FileSystem.ReadSuperblock` | fs.c:188-203 | the superblock on the disk |
| `Files.FileSystem.AllocData` | fs.c:496-525 | the address of the lowest free data block, now marked; with none free the bitmap unchanged and the address before the data region |
| `Files.FileSystem.AllocFree` | fs.c:496-525 | with a block free: a block of the data region that was free, and one free block less |
| `Files.FileSystem.ExtendOne` | fs.c:1002-1005 | one turn of the loop: the map is one distinct block longer, nothing on the disk but the bitmap changes |
| `Files.FileSystem.Extend` | fs.c:1001-1005 | the loop: na blocks more, na free blocks less, all maps still apart |
| `Files.FileSystem.PutChunk` | fs.c:1008-1017 | a chunk appended through the cache: the file's bytes grow by it, no other block changes |
| `Files.FileSystem.Fill` | fs.c:1007-1033 | head, whole blocks and tail together append exactly the caller's bytes |
| `Files.FileSystem.FillText` | fs.c:1007-1033 | the text grown by the bytes, other files and the free blocks as they were |
| `Files.FileSystem.OthersKept` | fs.c:1007-1033 | files whose maps are apart keep their text |
| `Files.FileSystem.MapsEnd` | fs.c:1038 | the maps are well formed for the new length exactly when it stays within the last allocated block |
| `Files.FileSystem.AppendText` | fs.c:1001-1033 | the allocation and the filling together: the file's text grown by the bytes, every other file's as it was, free blocks down by the blocks added |
| `Files.FileSystem.WriteAt` | fs.c:1001-1039 | the write once it is known to fit: the file's text grown by the bytes, every other file's unchanged, free blocks down by the blocks added; the state is valid exactly when fs.c:991 is repaired or the last block is not filled to its end |
| `Files.FileSystem.Write` | fs.c:976-1040 | -1 exactly for an unbound descriptor or a file outgrowing NDATA blocks, with nothing changed; otherwise the file's text is appended to and no other file's bytes change; the maps stay valid exactly when fs.c:991 is repaired or the write does not exactly fill its last block, and else the next write would go to block 0 |
| `Files.FileSystem.GetChunk` | fs.c:948-970 | one chunk of the file's text in the caller's buffer |
| `Files.FileSystem.Fetch` | fs.c:948-970 | head, whole blocks and tail together deliver exactly the bytes asked for |
| `Files.FileSystem.Read` | fs.c:922-974 | -1 exactly for an unbound descriptor or too short a file, with buffer and cursor unchanged; otherwise the bytes [off, off+size) of the file's text, the rest of the buffer unchanged, the cursor advanced by size, no file changed |
| `FileRun.ServeWrite` | fs.c:976-1040 | write as a step on what the callers see |
| `FileRun.ServeRead` | fs.c:922-974 | read as a step on what the callers see |
| `FileRun.Replay` | fs.c:922-1040 | the file system over any run of calls ends in the state, and gives the replies, that those steps give; with fs.c:991 as written the run has no write that exactly fills its last block, repaired it may |
| `FileRun.RunIsLog` | fs.c:922-1040 | over every run a file holds what it first held followed by all successful writes to it, a cursor is past all successful reads of its descriptor, and no call changes another file |
| `FileRun.ReadsWhatWasWritten` | fs.c:922-974 | the reply to each read of a run: bytes [off, off+size) of the file's first bytes and all earlier writes to it, or -1 exactly when there are not so many |
| `FileRun.WritesWhileRoom` | fs.c:976-1040 | the reply to each write of a run: its size, or -1 exactly when the file would outgrow its map |
| `FileRun.WholeFile` | fs.c:922-1040 | reading all of a file that began empty returns the concatenation of the writes |
| `Allocation.FreeData` | fs.c:527-547 | -1 exactly for an argument above nDataBlock, with the disk unchanged; otherwise that bitmap byte is zero and nothing else changed |
| `Allocation.FreeUndoesAlloc` | fs.c:496-547 | freeing restores the bitmap from before an allocation exactly when given the block's index |
| `Allocation.AddressIsNoIndex` | fs.c:524-539 | given the address allocData returned, freeData never restores the bitmap, and on a fresh disk always refuses |
| `Allocation.AllocThenFree` | fs.c:496-547 | allocating and freeing by index leaves every sector as it was |
| `Allocation.FreshRegions` | fs.c:227-250 | in the initial layout two regions share a block exactly when they are the log and the inodes |
| `Allocation.SlotsApart` | fs.c:438-440 | for every disk-inode size up to BSIZE distinct inode numbers have disjoint byte ranges, each within one block, and that block is in the inode region exactly for the numbers that fit there |
| `Allocation.AllocInode` | fs.c:395-445 | the lowest free inode number, or -1; byte by byte, its bitmap byte was zero and is one, the bytes of its disk inode are zero, and every other byte of every sector is as it was |
| `Allocation.InodeEntered` | fs.c:395-445 | entering the lowest free number changes exactly those bytes and takes one off the free numbers; there is none exactly when none is free |
| `Allocation.AllocInodes` | fs.c:395-445 | over every run of calls the numbers returned ascend, so are distinct, were free before and are taken after, and are -1 exactly once all that were free are used up |
| `Allocation.DiskLayoutInit` | fs.c:223-252 | the superblock and two zeroed bitmaps, the rest of the disk unchanged; the numbers and starts of the regions stand in block 1 at their offsets |
| `Allocation.FreshDisk` | fs.c:223-252 | what diskLayoutInit leaves is a valid file system without files and with all ten data blocks free |
| `Allocation.KeepFiles` | fs.c:395-445 | changes before the data bitmap leave every file's map and text as they were |
| `Allocation.Creat` | fs.c:680-740 | null exactly when no inode is free; otherwise a new empty file whose map is apart from all others, bound to a new descriptor, and every other file unchanged |
| `Allocation.FirstBlock` | fs.c:732 | the new file's first block is a free one, and the maps stay well formed and apart |
| `Address.Splitting` | memory.h:60-74 | the index, frame, offset and rounding macros are division and remainder |
| `Address.HighMask` | memory.h:65-74 | masking with ~(PGSIZE - 1) rounds down to a page |
| `Address.EntryValue` | memory.c:155 | frame, flags and present bit combined by or |
| `Address.TableEntry` | memory.c:150 | the directory entry of an aligned table: its address plus the flags with the present bit |
| `Address.EntryParts` | memory.c:155 | frame and flags of an entry are those it was made of, with the present bit set |
| `Address.FlagsFit` | memory.h:153-157 | every frame survives in its entry exactly when the flags are below 4096 |
| `Paging.StoreEntry` | memory.c:155 | storing one entry of one table changes the flat map at that page only |
| `Paging.NewTable` | memory.c:147-154 | hanging a zeroed page into an empty directory slot changes the flat map nowhere |
| `Paging.GetPteIsFlat` | memory.c:99-114 | the two-level walk with its masks and shifts reads the flat map |
| `Paging.TranslateEntry` | memory.c:116-126 | a mapped address translates to its frame plus its offset, whatever the flags |
| `Paging.Kernel.AllocPage` | memory.c:56-74 | the most recently freed page, or the page at brk; it was not live, and the live pages grow by exactly it |
| `Paging.Kernel.FreePage` | memory.c:76-84 | the page is zeroed and first in the list; the live pages shrink by exactly it (with storage for the list node) |
| `Paging.Kernel.AddTable` | memory.c:145-154 | a fresh table for an empty directory slot: the entry is the next page of the allocator plus the flags, the other entries and the flat map are unchanged, no table is aliased |
| `Paging.Kernel.StoreTable` | memory.c:148-154 | the table's page zeroed and its entry, address plus flags, in the directory; the other entries and the flat map unchanged |
| `Paging.Kernel.TableFor` | memory.c:132-154 | the table of an address; a new one exactly when its directory entry had none, and then brk or the free list moves by one page |
| `Paging.Kernel.SetEntry` | memory.c:155-158 | the entry of that page and of no other |
| `Paging.Kernel.Map` | memory.c:128-159 | the flat map with the page of va set to the frame of pa, the flags and present; no other page's translation changes, even with a new table; a directory entry that was absent is the new table's address plus the flags, one that was present keeps its value |
| `Paging.LeavesExactly` | memory.c:163-172 | rangemap makes one turn a page exactly when the range ends at or before the last page of the address space; else it never leaves or leaves at once |
| `Paging.Kernel.RangeMap` | memory.c:161-173 | maps exactly the page-rounded range; every other page as it was; one table for each directory entry first needed, each such entry with the flags of the call and every other as it was; with an empty free list brk moves by as many pages |
| `Paging.CoveredRange` | memory.c:161-173 | a range without wrap needs the directory entries from that of its first page to that of its last |
| `Paging.MappedTranslate` | memory.c:161-173 | every offset into a mapped range translates to the same offset from the first frame |
| `Paging.KernelMapped` | memory.c:215 | with the kernel's range mapped, translate(PTOV(a)) is a for all a below KERNSIZE, and every address outside is absent |
| `Paging.Kernel.FirstPage` | memory.c:208-214 | the heap begins at the rounded-up base with the zeroed directory as its first page |
| `Paging.Kernel.KmemInit` | memory.c:208-215 | translate(kpgdir, PTOV(a)) == a and getpte gives the frame of a with PAGE_RW and present for all a < KERNSIZE, all else absent; the 64 directory entries of the kernel's range carry PAGE_RW and present, the others are zero; 65 pages used |
| `PagingRun.MapAll` | memory.c:128-159 | over every run of map calls each page's entry is that of its last mapping or as before, each new directory entry has the flags of the first request in its range and the others are as before, and the pages used are the directory entries first needed |
| `PagingRun.GetPteOfLast` | memory.c:99-126 | getpte and translate after such a run |
| `PagingRun.Serve` | memory.c:56-84 | one allocation or free: what is held, and that the last freed page is the next allocated |
| `PagingRun.PageRun` | memory.c:56-84 | from any state and over every run in which each allocation finds a page, however long, no page is held twice, the held pages are the newly live ones, and held pages plus pgavail grow by the pages brk moves past |
| `PagingRun.PageRunFromBoot` | memory.c:56-84 | from an empty heap, held pages plus pgavail are the pages between heap base and brk |
| `Scheduler.ScanBest` | thread.c:104-111 | the scan finds the highest positive counter, the lowest slot on ties, or none when none is eligible |
| `Scheduler.PickIsBest` | thread.c:98-118 | the dispatch rule holds of the slot picked and of no other |
| `Scheduler.RoundDelay` | thread.c:98-124 | a round that dispatches another thread takes exactly one off the delay when it yields, at least one when it exits |
| `Scheduler.BoundedWaiting` | thread.c:98-145 | a READY thread with positive counter is dispatched after at most the sum of max(0, c_j - c_i), plus one for each lower slot with at least its counter, other dispatches; after exactly so many when none exits |
| `Scheduler.RoundRobin` | thread.c:98-124 | from equal counters dispatch k goes to the (k mod n)-th READY slot, counters differ by at most one, the decremented ones a prefix of the slots |
| `Scheduler.RoundRobinEnds` | thread.c:98-124 | after n times c dispatches no thread is eligible |
| `Scheduler.CreditIsTurns` | thread.c:98-124 | counters are never refilled: with everyone yielding there are exactly as many dispatches as the sum of the counters, each thread getting its own |
| `Threads.StepExactly` | thread.c:36-223 | an event keeps RUNNING threads current, zombies dead and dispatch to the eligible exactly when it is not a dispatch without an eligible thread nor a kill of the running one |
| `Threads.RunKeeps` | thread.c:36-223 | so over every run of such events, and a zombie stays one |
| `Threads.AllocAt` | thread.c:36-48 | the lowest slot never used or stopped, or none exactly when there is none |
| `Threads.UsedStays` | thread.c:36-223 | no event makes a slot available again, and a creation uses up the slot it returns |
| `Threads.TidsDistinct` | thread.c:50-78 | the tids returned by a run are distinct |
| `Threads.AtMostAllSlots` | thread.c:50-78 | at most THRQUESIZE creations succeed |
| `Threads.RoundIsTwoSteps` | thread.c:98-124 | a round of the scheduler is a dispatch and a yield or exit |
| `Threads.RoundsAreRuns` | thread.c:98-145 | so runs of rounds are runs of events |
| `Threads.DispatchedInTime` | thread.c:98-145 | on runs of events: the thread in a slot is dispatched after at most as many rounds as the bound says, and after exactly so many when none exits |
| `Threads.ZombieRunsAgain` | thread.c:100-118 | when no thread is eligible the stale t is dispatched: a thread that has exited runs again |
| `Threads.WakeOneAt` | thread.c:202-212 | a signal changes at most sleepers on the condition, from SLEEPING to READY |
| `Threads.SignalWakesLowest` | thread.c:202-212 | a signal makes the lowest thread from slot 1 on that sleeps on the condition READY and changes nothing else, and nothing at all exactly when there is none |
| `Threads.BroadcastWakesAll` | thread.c:214-223 | a broadcast makes every thread from slot 1 on that sleeps on the condition READY and changes no other slot |
| `Threads.SignalsAreBroadcast` | thread.c:202-223 | as many signals as threads are waiting come to one broadcast |
| `Threads.SleeperStays` | thread.c:181-223 | over every sound run a sleeper stays as it is until its condition is signalled or broadcast or it is killed |
| `Threads.WaiterIsWoken` | thread.c:189-223 | a thread that waits on a condition sleeps on it over every such run, and a broadcast of it makes the thread READY exactly when it is not in slot 0 |
| `Threads.KillIsFinal` | thread.c:147-150 | a kill makes that thread a zombie and changes nothing else, and over every sound run no dispatch sets it running |
| `Threads.KilledRunningYields` | thread.c:119-150 | the running thread, killed, is READY again once it yields |
| `Threads.ExitIsFinal` | thread.c:141-145 | an exit makes the running thread a zombie, which no dispatch of a sound run sets running |
| `Threads.CreatedGetsItsTurns` | thread.c:50-78 | a created thread is READY with DEFAULT_COUNTER, no other slot changes, and with everyone yielding it is dispatched exactly that many times |
| `Threads.Table.constructor` | thread.c:80-88 | the boot state |
| `Threads.Table.ThrAlloc` | thread.c:36-48 | the scan returns the slot of Alloc |
| `Threads.Table.ThrCreate` | thread.c:50-78 | the Create event and the tid it returns |
| `Threads.Table.ThrSched` | thread.c:100-118 | one turn of the loop is the Dispatch event, stale t included |
| `Threads.Table.ThrYeild` | thread.c:119-124 | the Yield event |
| `Threads.Table.ThrExit` | thread.c:141-145 | the Exit event |
| `Threads.Table.ThrKill` | thread.c:147-150 | the Kill event: that slot is a zombie, its counter and cv and every other slot unchanged |
| `Threads.Table.ThrCondWait` | thread.c:189-192 | the Wait event |
| `Threads.Table.ThrCondSignal` | thread.c:202-212 | the Signal event: the lowest thread waiting on the condition from slot 1 on is READY, and the table is unchanged exactly when there is none |
| `Threads.Table.ThrCondBroadcast` | thread.c:214-223 | the Broadcast event: all threads waiting on the condition from slot 1 on are READY, every other slot unchanged |
| `Mutex.ActPasses` | thread.c:181-279 | how one memory operation passes each lock word from free to held and back |
| `Mutex.MoveKeepsInv` | thread.c:181-279 | each operation keeps at most one holder of each word, and the word's value says whether there is one |
| `Mutex.RunKeepsInv` | thread.c:181-279 | so does every interleaving, as written and repaired |
| `Mutex.MutualExclusion` | thread.c:262-279 | in every interleaving at single-operation granularity, as written and repaired, at most one thread is between thrMutexLock and the clear in its own thrMutexUnlock, and m->lock says whether one is |
| `Mutex.RunAwaits` | thread.c:181-223 | repaired, in every reachable state a sleeper in slot 1 or above has the mutex locked or a broadcast on its way to it |
| `Mutex.NoWakeupIsLost` | thread.c:181-223 | for every number of threads and every first slot counted, no wake-up is lost exactly when there are no two threads or no such slot, or release and sleep are one step and slot 0 does not count |
| `Mutex.AsWrittenLoses` | thread.c:186-191 | as written a waiter in any slot from 1 on, between naming its condition and setting its status, is passed by |
| `Mutex.SlotZeroIsLost` | thread.c:216 | repaired, the broadcast starts above a sleeper in slot 0 |
| `Mutex.StuckFromTwo` | thread.c:181-279 | as written and repaired, n threads can reach a state in which those under way are stuck exactly when n is at least 2 |
| `Mutex.DeadFromThreeAsWritten` | thread.c:183-198 | n threads can reach a state in which no thread at all can move exactly as written and with n at least 3 |
| `Mutex.SoloNeverWaits` | thread.c:181-279 | a lone thread never waits |
| `MutexProgress.CallsDoTheirWork` | thread.c:262-279 | over every interleaving, as written and repaired, each move of a thread in thrMutexLock leaves it there or returns it with m->lock set, each move in thrMutexUnlock leaves it there or returns it with m->lock and m->lk clear, and no other thread moves it |
| `MutexProgress.LockReturnsAsOwner` | thread.c:262-271 | so a thread that has been in thrMutexLock and is no longer has come out of it with the mutex in between |
| `MutexProgress.AloneGetsTheMutex` | thread.c:181-271 | from every reachable state with m->lk and m->lock clear a thread in thrMutexLock that is neither asleep nor, as written, about to be gets the mutex by moving alone |
| `MutexProgress.Frees` | thread.c:262-279 | repaired, from every reachable state a continuation clears m->lk and m->lock without a move of a thread that holds neither |
| `MutexProgress.NotLockedOut` | thread.c:181-279 | repaired, from every reachable state a thread in thrMutexLock can still come to return with the mutex exactly when it is not the one in slot 0 asleep or bound to be |
| `MutexProgress.LockedOutAsWritten` | thread.c:183-198 | as written, three threads or more reach a state from which some thread in thrMutexLock never gets the mutex |
| `MutexProgress.RunNamed` | thread.c:189-193 | over every interleaving only a thread in thrCondWait has the mutex as its cv or is asleep |
| `Mutex.CannotMove` | thread.c:181-279 | an operation changes nothing exactly for a thread spinning on a held word or asleep |
| `Mutex.OnlySlotZeroIsStuck` | thread.c:181-279 | repaired, the threads under way are stuck exactly when they are one sleeper in slot 0; slots from 1 on never are |
| `Semaphore.StepKeepsCounts` | thread.c:309-354 | each step, in every form, keeps the balance of units in the counts and in flight |
| `Semaphore.RunKeepsCounts` | thread.c:332-354 | so does every run, each step bringing the end one nearer |
| `Semaphore.StepKeepsTidy` | thread.c:335-351 | with the bodies apart each step keeps the full slots first, counted by idx and the slots being changed |
| `Semaphore.RunKeepsTidy` | thread.c:335-351 | so does every run |
| `Semaphore.ProducerConsumer` | thread.c:332-363 | over every run, whatever the steps, the two counts stay non-negative and with the units in flight add up to the slots, and no slot index is out of range; with the bodies apart idx counts the full slots, which come first |
| `Semaphore.SomeoneMoves` | thread.c:332-354 | some step is enabled exactly until both loops have ended |
| `Semaphore.Terminates` | thread.c:332-363 | every run has at most the steps of two loops, can go on exactly when shorter, and ends with the counts and idx as they began, and with all slots empty when the bodies are apart |
| `Semaphore.PackedExactly` | thread.c:335-351 | outside the two bodies the full slots come first in every run exactly when the body is one step or there are not two slots or not two rounds; splitting the test and the decrement of thrSemDown makes no difference |
| `Semaphore.SplitBodyBreaks` | thread.c:337-350 | with the body as two steps, both threads past their bodies, slot 0 is empty below a full slot 1 |
| `Split.CutLosesNothing` | util.c:89-102 | the terms, each with its separator, and the rest make up the string, and hold no separator |
| `Split.CutOfJoin` | util.c:89-102 | any separator-free terms and rest, joined, are cut into themselves: the cut is the only one |
| `Split.SplitRoundTrip` | util.c:79-105 | terms printed with trailing separators split back to themselves exactly when the first is not empty |
| `Split.StripIsSuffix` | util.c:83-87 | the string without its leading separators, and only those |
| `Split.InRangeExactly` | util.c:94-99 | every cell written is in the array exactly when each term is shorter than LTERM, the rest no longer, and there are at most NTERM terms, fewer with a rest |
| `Split.Put` | util.c:90-102 | one character more in the array, other cells unchanged |
| `Split.Split` | util.c:79-105 | the array holds the ended terms with terminators and the rest without one, other cells unchanged, and the result counts the ended terms only |
| `Console.DigitsRead` | console.c:119-123 | the digits read back as the number, without a leading zero |
| `Console.DigitsUnique` | console.c:119-123 | no other digits do |
| `Console.NumeralReads` | console.c:101-138 | the text reads back as the number |
| `Console.NumeralRoundTrip` | console.c:101-138 | a text is what printi emits for a number exactly when it reads back as it and has no superfluous zero or sign |
| `Console.BufferFits` | console.c:104-132 | at most 32 bytes of the buffer are used, and 32 are for the least number but INT_MIN in base 2 |
| `Console.Fill` | console.c:119-123 | the buffer holds the digits, least significant first |
| `Console.Screen.PrintI` | console.c:101-138 | the screen's text grown by the numeral |
| `Console.Screen.Emit` | console.c:134-137 | the buffer backwards |
| `Console.OnlyIntMinFails` | console.c:113-123 | every index into the table of digits is in range exactly for the numbers other than INT_MIN |

## Left out

- Files.FileSystem.Write: requires as many free blocks as it adds, since a full disk makes the code store outside its buffer (fs.c:515); the source only says that the returned size should then be smaller.
- Files.FileSystem.Read: requires that cursor plus size stay below 2^32; the comparison at fs.c:942 wraps around beyond that.
- BlockCache.Cache.BlockRead: requires room for the block, since the caller reads through the `NULL` that getCachedBlock returns without (fs.c:133).
- Allocation.FreeData: requires the index nDataBlock, which the range check lets through, to lie inside the bitmap block.
- Allocation.Creat: the directory entry, the path lookup and the descriptor counter are not modelled.
- Paging.Kernel.RangeMap: requires a physical range that does not wrap, the condition of `Paging.LeavesExactly`.
- Console.Screen.PrintI: requires a number other than INT_MIN, the condition of `Console.OnlyIntMinFails`; the screen is the text put on it, without cursor, scrolling and video memory.
- Threads.Table.ThrCondWait: models the sleeping part only; the locks around it are the subject of module `Mutex`.
- Semaphore.ProducerConsumer: for one producer and one consumer, as in `semTest`, with each count and idx raised and lowered in one operation; a `thrSemDown` that finds no unit is a step not yet enabled, so the status SLEEPING it sets without leaving the processor is not modelled.
- Failed disk transfers, port input and output, interrupt controllers, timers and keyboard.
- Context switching, stack frames and the contents of thread stacks.
- Directories and names: `namei`, `getFileName`, the entry that `creat` and `mk` append, `ls`, `cd`, `rm`.
- The descriptor bitmap of `open` and `close`; runs start from descriptors bound to inodes.
- The inode cache and writing file sizes back to disk inodes.
- The whole device is taken to fit in the buffer cache (`Files.RegionsOk`), as on the initial layout, because the file path never releases a data block's buffer.
- `copypgt`, `vmalloc`, `sbrk`, `kmalloc`, `kmsize`, and the enabling of paging.
- Descriptor tables, console cursor, shell parsing and the remaining string helpers, which would only add easy members.
- Empty stubs: process, system call and user code, `thrJoin`, `kfree`, `vmfree`.
