# Verified models of the teaching kernel

This project models the algorithms and protocols of the kernel that carry whole-run
guarantees, and proves those guarantees for every input and every run.

| area | modules |
|---|---|
| buddy page allocator | `Bits`, `Buddy`, `BuddyTiling`, `BuddyCanonical`, `BuddyAlignment` |
| file stack: disk, block cache, inode table, paths | `BlockCache`, `CacheSync`, `CacheRuns`, `Files`, `SimpleFS`, `FileRuns`, `Paths`, `Namespace`, `FileCalls` |
| copy-on-write: page-table extension and address spaces | `CowExt`, `AddrSpace` |
| concurrency: kernel lock, event bus, semaphore | `KernLock`, `KernCalls`, `Events`, `Semaphore` |
| regions, frames, pattern scan | `VmMap`, `VmRuns`, `FramePool`, `Kmp` |
| timers, SLIP framing, checksums | `TimerWheel`, `Slip`, `InetChecksum` |

Objects the kernel updates in place are classes. Each method is proved to compute a
specification function on values, and the guarantees are lemmas about runs of those
functions. The kernel lock is a step system with one step per atomic operation.

## Main results

- **Buddy allocator.** In every run that frees only blocks it was given, and for every base address,
  free and outstanding blocks cover each address of the region exactly once. With an aligned base
  the free lists are a function of the set of free addresses, allocation fails exactly when no
  aligned run is free, and freeing everything restores the initial blocks. For page-aligned bases
  this restoration holds if and only if the base is a multiple of the largest block.
- **File stack.** Any sequence of calls on inode table, cache and disk, with synchronisation and
  finite disk faults injected at any point, gives the state and the outcomes of an abstract file
  system whose files are independent byte sequences, with the exact effect of each call. Paths form a
  tree in every reachable state, and lookups undo every way of writing a path. When a
  synchronisation makes every put durable is characterised for all runs of the cache, and follows
  from whole-block puts without failed writes.
- **Copy-on-write.** Each page of `CowExt` reads as if it had been copied when it was mapped. Over
  any number of forked address spaces, a frame returned for writing is mapped by one page only.
- **Concurrency.** Mutual exclusion of the re-entrant lock in every interleaving of any number of
  threads, what every call returns with, and exactly when a nested enter returns; every task whose
  poll of the semaphore found nothing is woken, with the exact condition, for every run, under which
  `set` breaks this.
- **Searches.** The pattern scan, the first-fit search and the two contiguous frame searches equal
  their naive specifications. When regions stay disjoint is characterised for every run, and for the
  binary search over disjoint regions the exact condition for a right answer is given.
- **Timers, framing, checksums.** Every due timer fires or is itself cancelled within one turn of
  the wheel, and timers are conserved; the SLIP reader and writer are inverse in both directions;
  the words that verify a checksum are characterised.

## Modelling decisions

- Numbers are unbounded. Where the kernel's word size matters it is written out: the wrapping
  sums in `insert`, `remove_range` and `find_free`, 32-bit sums and casts in the checksums, the 16-bit
  reference counts of `CowExt`. A plain sum that overflows panics in a checked build; where a caller
  can cause that, the contract asks for arguments that do not.
- A body run under a mutex or a chain spin lock is one step. Sequential consistency is assumed.
- Bit operations (`^`, `& !mask`, `>>`, leading zeros) are defined bit by bit in `Bits`, and their
  arithmetic meaning is proved.
- The clock is a parameter and is read once per `advance`. The frame allocator of the page-fault
  handler is a parameter.
- `CowExt` is modelled over the page tables of the supported architectures, where `map` writes the
  whole entry (kernel/src/arch/x86_64/paging.rs:50-65). The mock table used by the repository's
  tests keeps old shared bits when a page is mapped again. Mapping a page that is already mapped
  panics on the real tables, so the model asks for an unmapped page.
- The header of crate/memory/src/cow.rs says the handler returns false for a page that is really
  read-only. The code copies such a page and makes the copy writable. The model follows the code.
- The comment on `leave` says its id must match the innermost `enter`. The code only prints a mismatch,
  so the model's `leave` has no id.
- The comment on `read_block` speaks of recovery from a journal. The code never reads the journal.
- The page counter of the buddy allocator is an integer, where the code has a wrapping atomic. The tiling
  theorem shows it stays between 0 and the page total.
- Two calls panic in the code and are excluded as undefined: an empty write at offset 0, and an empty
  read at offset 0 of a non-empty file.

## Model

| member | source | states |
|---|---|---|
| `Bits.XorPow2` | kernel/src/kernel/memory.rs:735-736 | XOR with a power of two adds or subtracts it, for every number |
| `Bits.AlignUpLeast` | kernel/src/kernel/vm.rs:316-317 | the align-up idiom gives the least multiple at or above its argument |
| `Bits.AlignsIffPow2` | kernel/src/kernel/vm.rs:314-317 | the idiom aligns every address iff the alignment is a power of two |
| `Bits.Log2Floor` | kernel/src/kernel/utils.rs:339-343 | the result r has 2^r <= v < 2^(r+1), and is 0 for 0 |
| `Buddy.BuddyAllocator.constructor` | kernel/src/kernel/memory.rs:673-704 | the loops build the greedy carving of the region, largest blocks first |
| `Buddy.BuddyAllocator.AllocOrder` | kernel/src/kernel/memory.rs:708-725 | new free lists and returned block as specified; nothing changes on failure |
| `Buddy.BuddyAllocator.FreeOrder` | kernel/src/kernel/memory.rs:729-747 | new free lists as specified, page counter lowered; orders above the maximum are ignored |
| `Buddy.BuddyAllocator.FreePagesCount` | kernel/src/kernel/memory.rs:750-757 | the sum of the pages of all free blocks |
| `BuddyTiling.BuddyIsNeighbour` | kernel/src/kernel/memory.rs:735-736 | the XOR buddy is the neighbour on one side, and the relation is symmetric |
| `BuddyTiling.AllocExact` | kernel/src/kernel/memory.rs:708-725 | which block is taken, the last of the first non-empty list, and where each split half goes; nothing else changes |
| `BuddyTiling.FreeExact` | kernel/src/kernel/memory.rs:729-747 | an unmerged block is appended to its list; otherwise the buddy leaves its list and the lower address is freed one order up; unknown orders change nothing |
| `BuddyTiling.CarveConserves` | kernel/src/kernel/memory.rs:684-696 | carving adds exactly the span: under every measure, so for each address and for the page count |
| `BuddyTiling.AllocConserves` | kernel/src/kernel/memory.rs:708-725 | allocation removes exactly the returned block from the free addresses, splits included |
| `BuddyTiling.FreeConserves` | kernel/src/kernel/memory.rs:729-747 | freeing adds exactly the freed block, merges included |
| `BuddyTiling.EveryRunTilesTheRegion` | kernel/src/kernel/memory.rs:673-757 | every run, every base: blocks pairwise disjoint, inside the region, covering it exactly; allocated plus free pages equal the total |
| `BuddyCanonical.FreeRunInOneBlock` | kernel/src/kernel/memory.rs:733-745 | a wholly free aligned run lies inside one free block |
| `BuddyCanonical.AllocFailsIffNoFreeRun` | kernel/src/kernel/memory.rs:708-725 | in reachable states with an aligned base, an order up to the maximum is refused iff no size-aligned run of that size is wholly free |
| `BuddyCanonical.SameAddressesSameBlocks` | kernel/src/kernel/memory.rs:733-745 | fully merged lists over the same free addresses hold the same blocks |
| `BuddyCanonical.FreeBlocksIndependentOfHistory` | kernel/src/kernel/memory.rs:708-747 | runs that leave the same addresses free leave the same free blocks |
| `BuddyCanonical.FreeingAllRestores` | kernel/src/kernel/memory.rs:673-747 | with an aligned base, freeing everything restores the initial free-block sets |
| `BuddyAlignment.RestoresIffAligned` | kernel/src/kernel/memory.rs:673-747 | for page-aligned bases, all runs that free everything restore the initial blocks iff the base is a multiple of the largest block |
| `BlockCache.Disk.constructor` | kernel/src/kernel/io.rs:182-192 | no blocks, the given number of faults |
| `BlockCache.Disk.SetErrs` | kernel/src/kernel/io.rs:202-204 | the number of faults to come is replaced, at any time |
| `BlockCache.Disk.ReadBlock` | kernel/src/kernel/io.rs:210-228 | retries through the injected faults, then returns, byte by byte, the stored block padded with zeros, or AA for a block never written |
| `BlockCache.Disk.WriteBlock` | kernel/src/kernel/io.rs:269-282 | fails and consumes a fault while any is left, else stores the block cut or padded to 512 bytes |
| `BlockCache.Cache.Fetch` | kernel/src/kernel/cache.rs:547-608 | returns the logical content, changes no block's logical content, caches a miss in its hash chain |
| `BlockCache.Cache.Put` | kernel/src/kernel/cache.rs:611-635 | replaces or appends the slot of the block, marked modified, in its hash chain |
| `BlockCache.Cache.SyncAll` | kernel/src/kernel/cache.rs:645-675 | clears every mark and writes modified slots back in order, through the faults |
| `BlockCache.Cache.DirtyCount` | kernel/src/kernel/cache.rs:719-735 | the number of modified slots in all chains |
| `BlockCache.PutLogical` | kernel/src/kernel/cache.rs:611-635 | a put changes the logical content of its own block only |
| `BlockCache.PutWellHashed` | kernel/src/kernel/cache.rs:611-635 | a put keeps each block at most once and in its own chain |
| `BlockCache.FetchEffects` | kernel/src/kernel/cache.rs:547-608 | a fetch keeps the hashing invariant, all logical contents, the clean slots and the dirty count |
| `BlockCache.FetchCaches` | kernel/src/kernel/cache.rs:547-608 | afterwards the block is cached, and no other block that was not |
| `BlockCache.HashIs` | kernel/src/kernel/cache.rs:549-553 | the chain of a block: the number xored with itself divided by 128, modulo the width |
| `CacheSync.SyncKeepsLogical` | kernel/src/kernel/cache.rs:645-675 | synchronisation never changes a logical content, whatever writes fail |
| `CacheSync.WriteBackSlot` | kernel/src/kernel/cache.rs:661-671 | which modified slots reach the disk: exactly those whose write meets no fault |
| `CacheSync.SyncCleans` | kernel/src/kernel/cache.rs:661-671 | after synchronisation nothing is dirty |
| `CacheSync.SyncMakesDiskCurrentIff` | kernel/src/kernel/cache.rs:645-675 | for every cache, disk and number of faults: afterwards the disk alone equals the logical view iff the clean slots agreed with it, no fault swallowed a change and every write that went through was a whole block |
| `CacheRuns.EveryRunReadsLastPut` | kernel/src/kernel/cache.rs:547-675 | every run, faults injected at any point: each block cached at most once, in its chain, and reading as the last put or the initial disk |
| `CacheRuns.CleanWhileNoLoss` | kernel/src/kernel/cache.rs:547-675 | until a synchronisation loses something, every clean slot agrees with the disk |
| `CacheRuns.SyncMakesDurable` | kernel/src/kernel/cache.rs:645-675 | after every run, faults injected at any point: a synchronisation leaves nothing dirty, and puts every last put on the disk iff the clean slots agreed with the disk and it loses nothing itself |
| `CacheRuns.WholePutsAreDurable` | kernel/src/kernel/cache.rs:611-675 | if every put carries 512 bytes and no write of the run or of the final synchronisation failed, the disk alone then holds every last put |
| `CacheRuns.FaultlessRunIsDurable` | kernel/src/kernel/cache.rs:611-675 | in particular without injected faults, whatever the run |
| `CacheRuns.InjectedFaultLosesPut` | kernel/src/kernel/cache.rs:661-671 | a fault injected in mid-run swallows the only write of a block; later synchronisations never write it |
| `CacheRuns.ShortPutNotDurable` | kernel/src/kernel/cache.rs:611-675 | a one-byte put and a synchronisation without faults after which disk and cache differ |
| `SimpleFS.FileSystem.ReadData` | kernel/src/kernel/fs.rs:177-199 | the bytes of the abstract file in the range, or the code's error; no file changes |
| `SimpleFS.FileSystem.WriteData` | kernel/src/kernel/fs.rs:204-237 | the abstract file is overwritten and grown; errors and count as in the code; no other file changes |
| `SimpleFS.FileSystem.Truncate` | kernel/src/kernel/fs.rs:240-248 | blocks past the new size are dropped, the size is set, growing included |
| `SimpleFS.FileSystem.CreateFile` | kernel/src/kernel/fs.rs:128-137 | a new empty file under the name, replacing an old entry; a number is used up even on failure |
| `SimpleFS.FileSystem.CreateDir` | kernel/src/kernel/fs.rs:140-150 | a new directory under a free name, or the code's error |
| `SimpleFS.FileSystem.Unlink` | kernel/src/kernel/fs.rs:153-161 | refines the abstract unlink, whose effect `FileCalls.UnlinkExact` states |
| `FileCalls.UnlinkExact` | kernel/src/kernel/fs.rs:153-161 | in every reachable state: done exactly for an entry of a directory, else the right error and nothing changed; the entry and its inode are gone, every other entry, file and size is as before |
| `FileCalls.UnlinkedPaths` | kernel/src/kernel/fs.rs:98-161 | for every path: the one that led to the entry is now missing it, those through it are not found, all others lead where they did; calls on the inode find nothing |
| `FileCalls.CreateExact` | kernel/src/kernel/fs.rs:128-150 | in every reachable state: when a create succeeds and each error; a number is used up either way; one empty inode of the kind, entered under the name; everything else as before |
| `FileCalls.DataCallsExact` | kernel/src/kernel/fs.rs:177-248 | when reads, writes and truncates succeed, each error, the count a write reports, and that failed calls and reads change nothing |
| `SimpleFS.FileSystem.Sync` | kernel/src/kernel/cache.rs:645-675 | synchronising the cache changes no file |
| `FileRuns.Execute` | kernel/src/kernel/fs.rs:128-248 | any sequence of calls on the real stack gives the state and the outcomes of the abstract run |
| `FileRuns.Boot` | kernel/src/kernel/fs.rs:73-77 | a new stack is the empty abstract file system |
| `FileRuns.UntouchedFileUnchanged` | kernel/src/kernel/fs.rs:86-89 | over any run, a file no call names keeps its bytes and size |
| `FileRuns.ReadSeesWrite` | kernel/src/kernel/fs.rs:177-237 | for a file whose blocks cover its size: after a non-empty write and any calls on other files, a read returns every byte as written, else as in the old blocks, else AA |
| `FileRuns.ReadAfterTruncate` | kernel/src/kernel/fs.rs:240-248 | after a truncate to no more than the blocks hold, and any calls on other files, a read returns exactly the bytes below the new size |
| `FileRuns.ReadsInFullIff` | kernel/src/kernel/fs.rs:177-199 | reading a whole file returns as many bytes as its size iff its blocks cover the size |
| `FileRuns.CoveredIffNeverOvergrown` | kernel/src/kernel/fs.rs:204-248 | sizes stay covered throughout a run iff no truncate asks for more bytes than the file's blocks hold |
| `FileRuns.GrowingTruncateReadsShort` | kernel/src/kernel/fs.rs:244-246 | a run in which a truncate makes a file read shorter than its size |
| `Namespace.Lookup` | kernel/src/kernel/fs.rs:98-125 | computes the walk over the path's components, pinned by the next rows |
| `Paths.SpelledComponents` | kernel/src/kernel/fs.rs:101-101 | however words are written, with any slashes at the ends and at least one between, splitting gives them back in order |
| `Paths.EveryPathSpelled` | kernel/src/kernel/fs.rs:101-101 | conversely every string is such a spelling of its components |
| `Namespace.LookupWalks` | kernel/src/kernel/fs.rs:98-125 | a lookup of words written in any way walks them from the root, first word first |
| `Namespace.WalkStops` | kernel/src/kernel/fs.rs:107-123 | the walk follows the names in order as far as they are entries of directories, and its result or error is what stands there |
| `Namespace.EveryRunKeepsTree` | kernel/src/kernel/fs.rs:80-161 | every entry names an existing inode with a larger number than its directory, and no inode has two entries |
| `Namespace.WalkIncreases` | kernel/src/kernel/fs.rs:98-125 | following entries strictly increases the inode number, so there are no cycles |
| `Namespace.PathsAreUnique` | kernel/src/kernel/fs.rs:98-125 | two component lists that resolve to one inode are equal |
| `Namespace.CreateAtLookup` | kernel/src/kernel/fs.rs:98-150 | creating where a lookup reported a missing entry makes that path resolve to the new inode and keeps every resolving path |
| `CowExt.CowPageTable.MapToShared` | crate/memory/src/cow.rs:54-64 | a non-writable shared entry and one more reference of its kind |
| `CowExt.CowPageTable.UnmapShared` | crate/memory/src/cow.rs:71-80 | the entry and its reference are gone |
| `CowExt.CowPageTable.PageFaultHandler` | crate/memory/src/cow.rs:91-122 | claims the frame in place or moves the page to the new frame with its content; false for unmapped and private pages |
| `CowExt.CountedFrame` | crate/memory/src/cow.rs:178-197 | a shared entry's count is present and positive, so the decrement never panics |
| `CowExt.SoleWriterIsAlone` | crate/memory/src/cow.rs:106-111 | with no read and one write reference, no other page, shared or private, maps the frame |
| `CowExt.FaultCopiesUnlessLast` | crate/memory/src/cow.rs:106-121 | the frame is kept iff the page is its only reference and a write reference; the shared frame is not changed |
| `CowExt.LoneSharedFault` | crate/memory/src/cow.rs:54-121 | the fault of a page shared alone keeps the frame if it was shared writable and moves to the new frame if read-only, its content kept |
| `CowExt.StepIsEager` | crate/memory/src/cow.rs:54-122 | each operation changes what pages read exactly as eager copying does |
| `CowExt.EveryPageReadsItsOwnCopy` | crate/memory/src/cow.rs:54-122 | every run: a page reads as its frame did when mapped, changed by its own writes only |
| `AddrSpace.AddressSpace.ForkFrom` | kernel/src/kernel/address_space.rs:47-74 | the child holds what inserting the parent's regions one by one accepts, which is all of them when they are apart; every page counts one more on both sides |
| `AddrSpace.AddressSpace.HandleCowFault` | kernel/src/kernel/address_space.rs:79-119 | computes the fault specification, whose outcome the next rows state |
| `AddrSpace.FaultOutcome` | kernel/src/kernel/address_space.rs:79-119 | segmentation fault exactly without a region or its write bit, out of memory exactly when a frame is needed and none is free, neither changing anything; the frame of a page counted once is kept; otherwise the least free frame is taken for the page alone |
| `AddrSpace.EveryFaultOutcome` | kernel/src/kernel/address_space.rs:79-119 | the two errors so characterised in every run, for the page at the multiple of 4096 at or below the address |
| `AddrSpace.WriteBit` | kernel/src/kernel/address_space.rs:85-85 | the permission tested is bit 1 of the flags |
| `AddrSpace.AddressSpace.UnmapRange` | kernel/src/kernel/address_space.rs:125-140 | regions meeting the range and pages inside it are removed and counted |
| `AddrSpace.UnmapExact` | kernel/src/kernel/address_space.rs:125-140 | exactly the pages from the start up to the end go, and exactly the regions meeting the range or empty within it |
| `AddrSpace.RaisedExact` | kernel/src/kernel/address_space.rs:61-67 | a fork keeps every page and frame and raises each count by one |
| `AddrSpace.ForkInv` | kernel/src/kernel/address_space.rs:47-74 | a fork keeps the sharing invariant over all spaces |
| `AddrSpace.FaultInv` | kernel/src/kernel/address_space.rs:79-119 | a write fault keeps the sharing invariant and makes the faulting page sole owner of the returned frame |
| `AddrSpace.RunInv` | kernel/src/kernel/address_space.rs:47-140 | every run: mapped frames are taken, and pages with one frame both count at least two |
| `AddrSpace.RunPlaced` | kernel/src/kernel/address_space.rs:47-140 | every run whose added regions end within the address space keeps the regions of every space apart, so every fork gives the child exactly its parent's regions |
| `AddrSpace.WrittenFramesAreExclusive` | kernel/src/kernel/address_space.rs:79-119 | in every run over one pool, the frame a write fault returns is mapped by no other page of any space |
| `VmMap.Map.Insert` | kernel/src/kernel/vm.rs:249-268 | refused iff some region meets the range up to the wrapped end of the new one; otherwise placed in order of base |
| `VmMap.Map.Find` | kernel/src/kernel/vm.rs:272-286 | the loop computes the bisection |
| `VmMap.Map.RemoveRange` | kernel/src/kernel/vm.rs:290-307 | the regions that fail both tests against the range with its wrapped end remain, in order; the rest are counted |
| `VmMap.Map.FindFree` | kernel/src/kernel/vm.rs:312-339 | for any region list and alignment a free place; for an alignment that is a power of two, or 4096 when it is 0 or 1, the least multiple that fits, and none only if none fits; the iteration cap never cuts the search short |
| `VmMap.BisectIsLinear` | kernel/src/kernel/vm.rs:272-286 | when every region ends before the later ones start, the binary search is a linear scan |
| `VmMap.LookupIff` | kernel/src/kernel/vm.rs:272-286 | over regions apart, the binary search for an address of region k finds k iff its probes, given by indices alone, reach k before a later region with the same start, and nothing otherwise |
| `VmMap.OutsideExact` | kernel/src/kernel/vm.rs:290-307 | removal deletes exactly the regions that share an address with the range and the empty ones within its bounds, and keeps the order |
| `VmMap.InsertSortedIff` | kernel/src/kernel/vm.rs:249-268 | an accepted insertion keeps the order of the binary search iff it is not an empty region at the start of a non-empty one |
| `VmMap.InsertApartIff` | kernel/src/kernel/vm.rs:249-268 | an insertion keeps the regions disjoint iff the new one, up to its true end, meets none |
| `VmMap.AcceptedMeetsIff` | kernel/src/kernel/vm.rs:249-268 | what the overlap test accepts overlaps a region iff its end wraps and some region reaches above its start |
| `VmMap.SkipConflict` | kernel/src/kernel/vm.rs:320-336 | jumping past a conflict loses no place and leaves one more region behind |
| `VmRuns.RunHoldsExactly` | kernel/src/kernel/vm.rs:249-307 | after every run the list holds each region exactly as often as it was accepted since the last removal that hit it, in order of base |
| `VmRuns.ApartIffNothingOverlaps` | kernel/src/kernel/vm.rs:249-307 | the regions stay disjoint throughout a run iff no accepted region wraps over another |
| `VmRuns.WrappingRegionOverlaps` | kernel/src/kernel/vm.rs:249-268 | a two-step run in which a region that wraps is accepted over another, while alone it leaves the list disjoint |
| `VmRuns.SortedIffNothingHidden` | kernel/src/kernel/vm.rs:249-307 | the order of the binary search lasts through a run iff no step inserts an empty region at the start of another |
| `VmRuns.LookupExactIff` | kernel/src/kernel/vm.rs:249-307 | after every run that keeps regions disjoint and for every address: the lookup finds what a linear scan finds iff its probes reach the region that has the address, and finds nothing otherwise; with nothing hidden it is exact |
| `VmRuns.EmptyRegionHidesAnother` | kernel/src/kernel/vm.rs:249-286 | a two-step run after which the binary search misses a region that has the address |
| `FramePool.Pool.GetInner` | kernel/src/kernel/memory.rs:355-364 | takes the least free frame, or nothing |
| `FramePool.FirstFit` | kernel/src/kernel/memory.rs:369-381 | the specification both searches meet: aligned, wholly free, and nothing below it is |
| `FramePool.Pool.GetContig` | kernel/src/kernel/memory.rs:369-381 | the least aligned free run is found and taken; for size 0, frame 0 of a non-empty pool |
| `FramePool.Pool.FrameAllocContig` | kernel/src/kernel/memory.rs:559-581 | the same least aligned free run, as an address; nothing for size 0; the loop ends |
| `FramePool.SearchesAgree` | kernel/src/kernel/memory.rs:369-581 | on equal bitmaps both searches succeed alike, with the same start and the same resulting bitmap |
| `Kmp.BuildTable` | kernel/src/kernel/utils.rs:192-199 | every entry is the longest proper border of its prefix |
| `Kmp.FallBack` | kernel/src/kernel/utils.rs:202-202 | falling back to the longest border skips no match |
| `Kmp.MemScanPattern` | kernel/src/kernel/utils.rs:188-211 | at most `max_matches` occurrences (one when it is 0), the first ones in order, and all of them if fewer; none for an empty pattern |
| `Kmp.OccurrencesAreAll` | kernel/src/kernel/utils.rs:188-211 | the reported list is strictly increasing and holds exactly the occurrences, overlapping ones included |
| `KernLock.MutualExclusion` | kernel/src/kernel/locking.rs:83-193 | every interleaving: one thread inside, `owner_tid` names only it, and except while a leave lowers `depth` or releases, the stack lists its open enters and `depth` counts them |
| `KernLock.FreedExactlyAtOutermostLeave` | kernel/src/kernel/locking.rs:151-193 | the flag is dropped exactly by the step that ends the last open enter |
| `KernLock.OthersDoNotInterfere` | kernel/src/kernel/locking.rs:83-242 | while a thread holds the lock, steps of others change none of its atomics |
| `KernCalls.CallsReturnWith` | kernel/src/kernel/locking.rs:83-242 | every interleaving, every thread: `enter(id)` returns only with the id open on top and the lock the caller's; `try_enter(id)` likewise, or with its enters unchanged exactly if it met the flag up; `leave` with the last enter gone |
| `KernCalls.LeaveReturns` | kernel/src/kernel/locking.rs:151-193 | a `leave` never blocks: its caller's steps alone bring it back |
| `KernCalls.FirstEnter` | kernel/src/kernel/locking.rs:83-139 | whenever the lock is free, any thread between calls can enter |
| `KernCalls.NestedEnterReturnsIff` | kernel/src/kernel/locking.rs:94-128 | in every reachable state a nested `enter(id)` by the holder can return iff the id is not 0 and fewer than 16 enters are open |
| `KernCalls.NestedTryEnterReturnsIff` | kernel/src/kernel/locking.rs:216-242 | a holder's `try_enter(id)` re-enters under the same condition, and returns with its enters unchanged iff the id is 0 |
| `KernCalls.EnterZeroDeadlocks` | kernel/src/kernel/locking.rs:94-128 | a run from a new lock after which the holder waits for itself in every continuation |
| `KernCalls.PanicsOnlyWhenFull` | kernel/src/kernel/locking.rs:94-95 | a thread panics only as the holder of a full stack |
| `KernCalls.EveryNestingReached` | kernel/src/kernel/locking.rs:83-139 | any ids up to the capacity, the nested ones not 0, can be open at once in some run |
| `Events.EventBus.Change` | kernel/src/sync/event_bus.rs:52-61 | new flags; on a change, exactly the callbacks that fire are woken and removed |
| `Events.EventBus.Subscribe` | kernel/src/sync/event_bus.rs:63-65 | the callback joins the end of the list |
| `Events.EventBus.PollWait` | kernel/src/sync/event_bus.rs:85-100 | ready with the flags when the mask is met, otherwise subscribed |
| `Events.RegisteredWaitersAreDue` | kernel/src/sync/event_bus.rs:52-100 | every run: a registered waiter's mask is not met, and the change that meets it wakes and removes it |
| `Events.PolledTaskIsWoken` | kernel/src/sync/event_bus.rs:52-100 | a poll is ready exactly if its mask is met; otherwise over every later run the task that polled is woken, or its mask is still unmet and the change that meets it wakes it |
| `Events.KeptOrder` | kernel/src/sync/event_bus.rs:52-61 | callbacks are kept in order of subscription |
| `Events.WokenOrder` | kernel/src/sync/event_bus.rs:52-61 | callbacks are called in order of subscription |
| `Semaphore.Semaphore.PollAcquire` | kernel/src/sync/semaphore.rs:71-92 | one poll, as `PollExact` states it |
| `Semaphore.PollExact` | kernel/src/sync/semaphore.rs:71-92 | gone iff removed, acquired iff not removed and the count allows it, pending otherwise with the polling task registered; count and flag after each |
| `Semaphore.PendingTaskIsWoken` | kernel/src/sync/semaphore.rs:51-147 | over every later run without a lowering `set`, a task whose poll was pending is woken, or the count is still below one and the next release reaching one and the removal both wake it |
| `Semaphore.Semaphore.Release` | kernel/src/sync/semaphore.rs:105-111 | count plus one, and the flag raised from one upwards |
| `Semaphore.Semaphore.Remove` | kernel/src/sync/semaphore.rs:51-55 | marked removed and the flag raised |
| `Semaphore.Semaphore.Set` | kernel/src/sync/semaphore.rs:141-147 | the count is replaced; the flag is only ever raised |
| `Semaphore.CountIsConserved` | kernel/src/sync/semaphore.rs:51-147 | the count is the value last set, or the initial one, plus releases minus successful acquires since |
| `Semaphore.NoLostWakeup` | kernel/src/sync/semaphore.rs:51-147 | in every run without a `set` below one while the flag is up: a registered waiter implies count below one and not removed; a release reaching one or a removal wakes all waiters |
| `Semaphore.SafeIffNeverLowered` | kernel/src/sync/semaphore.rs:51-147 | a run, sets included, stays safe throughout iff no `set` lowers the count below one while the flag is up and the semaphore not removed |
| `Semaphore.EveryRunStrandsIff` | kernel/src/sync/semaphore.rs:51-147 | after every run, sets included: some continuation strands a waiter iff one is stranded already or the flag is up over a count below one |
| `Semaphore.SetStrandsIff` | kernel/src/sync/semaphore.rs:141-147 | after a safe run, a `set` makes stranding possible iff it lowers the count below one with the flag up and the semaphore not removed |
| `TimerWheel.TimerWheel.AddTimer` | kernel/src/kernel/timer.rs:92-96 | the timer joins the slot of its deadline |
| `TimerWheel.TimerWheel.Advance` | kernel/src/kernel/timer.rs:102-125 | pointer, slots and reported timers of one advance |
| `TimerWheel.TimerWheel.Cancel` | kernel/src/kernel/timer.rs:131-142 | the first active timer of the callback loses its mark; reports whether there was one |
| `TimerWheel.AdvanceExact` | kernel/src/kernel/timer.rs:102-125 | slot by slot: kept timers, plus exactly one re-armed entry per fired periodic timer in the slot of its new deadline |
| `TimerWheel.PeriodicTimerReturns` | kernel/src/kernel/timer.rs:45-125 | a periodic timer that fires is back with deadline clock plus interval, the same interval and callback, in the slot of that deadline, and is reported so |
| `TimerWheel.CancelExact` | kernel/src/kernel/timer.rs:131-142 | true exactly when some active timer has the callback; then one such timer is marked and no other, else nothing changes |
| `TimerWheel.SlotOrder` | kernel/src/kernel/timer.rs:107-114 | timers fire and stay in slot order |
| `TimerWheel.DueTimerFires` | kernel/src/kernel/timer.rs:36-142 | whatever is added or cancelled meanwhile, within one turn of advances past its deadline every copy of an active timer fires or is itself the one a cancel picks |
| `TimerWheel.ExecPlaced` | kernel/src/kernel/timer.rs:92-142 | over any run every timer, re-armed ones included, sits in the slot of its deadline |
| `TimerWheel.FiresOnTime` | kernel/src/kernel/timer.rs:36-142 | in every reachable wheel nothing fires at or before its deadline, every copy fires or is itself cancelled within 256 advances past it, and so a timer no cancel picks fires even if its callback is cancelled elsewhere |
| `TimerWheel.TimersConserved` | kernel/src/kernel/timer.rs:92-142 | over any run from any wheel, for every active timer: copies fired, cancelled and left equal copies present, added and re-armed |
| `TimerWheel.OneShotFiresAtMostOncePerAdd` | kernel/src/kernel/timer.rs:92-142 | a one-shot timer fires no more often than it was present, added, or left behind by a timer repeating with interval 0; without such timers the last term is 0 |
| `Slip.EscapeSnoc` | tools/k210/kflash.py:409-414 | the two replacements, in that order, escape byte by byte |
| `Slip.SlipReader.Consume` | tools/k210/kflash.py:277-310 | one read: the state and packets of its bytes; an empty read is a timeout |
| `Slip.ChunksAreConcat` | tools/k210/kflash.py:281-287 | how the line splits the stream does not matter |
| `Slip.Receive` | tools/k210/kflash.py:277-310 | a whole run of non-empty reads: the packets and state of the chunked stream |
| `Slip.AcceptedIsFraming` | tools/k210/kflash.py:277-310 | whatever the reader accepted is the framing of what it returned plus the packet in progress |
| `Slip.RoundTrip` | tools/k210/kflash.py:277-414 | the reader ends between packets having returned `ps` iff the stream is the framing of `ps` |
| `Slip.FrameBytes` | tools/k210/kflash.py:409-414 | the bytes of a frame: C0 at both ends, C0 written DB DC, DB written DB DD, every other byte as it is |
| `Slip.FailsIff` | tools/k210/kflash.py:289-303 | which byte fails after which stream, and with which error |
| `InetChecksum.ComputeInetChecksum` | kernel/src/kernel/net.rs:113-128 | the complement of the folded word sum, for all data whose word sum fits 32 bits |
| `InetChecksum.TcpChecksum` | kernel/src/kernel/net.rs:35-56 | the same over header words, 32-bit length and payload, whenever that total fits 32 bits |
| `InetChecksum.BuildPseudoHeader` | kernel/src/kernel/net.rs:91-107 | the twelve header bytes |
| `InetChecksum.HeaderReadsBack` | kernel/src/kernel/net.rs:91-107 | source, destination, zero, protocol and length read back from their positions |
| `InetChecksum.FoldIs` | kernel/src/kernel/net.rs:124-126 | folding gives the residue modulo 65535, in 1..65535 for a non-zero sum |
| `InetChecksum.TcpIsInetChecksum` | kernel/src/kernel/net.rs:35-128 | for every payload: `tcp_checksum` is the Internet checksum of pseudo-header and payload iff the upper half of the 32-bit length is 0 or all ones |
| `InetChecksum.AppendedWordVerifiesIff` | kernel/src/kernel/net.rs:113-128 | the words that make even-length data verify to zero: its checksum, and all ones when that is zero |

## Left out

- BlockCache.Disk.ReadBlock: a permanent fault (`errs == usize::MAX`) makes the code retry forever; the model requires a finite number of faults.
- BlockCache.Cache.Fetch: a miss on a permanently faulty disk, for the same reason; hits are covered.
- VmMap.Map.FindFree: start and region ends whose alignment sum overflows, which panics, are excluded.
- VmRuns.SortedIffNothingHidden: runs in which an accepted region wraps over another are excluded.
- VmRuns.LookupExactIff: runs in which an accepted region wraps over another are excluded, because an address may then have two regions.
- VmRuns.RunHoldsExactly: a scan over a region that wraps overflows a plain sum and panics; runs that go on past such a scan are covered but do not exist in the code.
- AddrSpace.AddressSpace.UnmapRange: a range end past the address space overflows a plain sum and panics, so it is excluded.
- InetChecksum.ComputeInetChecksum: word sums past 32 bits overflow a plain sum and panic, so they are excluded.
- InetChecksum.TcpChecksum: totals past 32 bits are excluded for the same reason.
- AddrSpace.AddressSpace.HandleCowFault: page contents, because the code allocates the new frame without copying.
- KernLock.MutualExclusion: loads made only for the debug output, weak memory orderings, and progress of waiting threads.
- `BlockCache::invalidate` uses another hash than `fetch`, and `evict_cold` drops modified slots, so neither fits the cache refinement.
- `IoQueue`, the journal device, `read_block_n` and `flush`: no effect on block contents.
- Region reference counts, file offsets and tags, `protect` and `split_region`: not read by the operations modelled.
- `largest_free_order`, `fragmentation_score` and `snapshot` of the buddy allocator: read-only summaries.
- `SyncQueue`, futexes, scheduling, signals, the slab and zone code, system-call dispatch, drivers, sockets, the module loader, rboot and architecture code.
- The rest of tools/k210/kflash.py: device input and output, and AES tables.
