# Models and proofs for the kernel

This project models parts of a small teaching kernel in Dafny and proves properties of the model. It covers
the storage stack, the scheduler, the semaphore, the kernel heap, and the printer and parser of group records.
`dafny verify dfyconfig.toml` checks everything.

## What is modelled

**Storage.** `Ata` turns word-wise, whole-sector transfers into one circular byte array per drive. `DiskCache` puts
ten write-back slots in front of it; a full cache gives up the first slot with the fewest accesses. `CacheSlots` has its
steps on values, for every sector number, and proves that below sector 0x8000 they act on flat byte arrays, the `View`
of each drive. `CacheRuns` lifts this to whole runs, and `CacheLimits` says, again for whole runs, what happens above.
`CacheCounts` ties the access counts to the calls, and so says which sector a cache gives up.
`DiskLayout` reads the first megabyte of the view as an image: the header sector
with the inode bits, the inode table, the block bitmap and 4096 blocks of 256 bytes. `FileChains` says when a chain of
blocks holds a file of a given length; `Reservation` has the bitmap and the steps between sound images;
`DiskManager` is the imperative manager on top of the cache, with a ghost map from inodes to chains. Its `Valid`
is the invariant of all runs: chains without repetition and disjoint, as long as the inode entry says, full pages
before at most one partial page before empty pages, and the set bits of the bitmap exactly the union of the chains.
`WritePosition` shows where the skipping in a write ends, `PageWrites` and `EntryWrites` what a write to any offset makes
of the image; `DeadInodes` has writes and deletions through the entries of deleted inodes, `INodeOverruns` the number
behind the table. `FreeSpace` counts free blocks, and `FileRuns`
refines the manager, over whole runs from a formatted drive on, to a map from inode numbers to byte strings, of which
`FileLaws` says, byte by byte, what each request answers and changes.
`DirRecords`, `DirSlots` and `Directories` see a directory file as a sequence of 28-byte records, as a row of slots, and
as a finite map from names to inode numbers. `FileTrees` is the tree of plain files and directories that users see,
with its invariant, and `DirectoryRuns` refines the directory operations, over whole runs from a formatted drive on, to
steps on this tree. `TreeLaws` says, slot by slot, what each step answers and changes, and `TreePaths` which nodes can be
reached from the root.

**Processes.** `Processes` describes a scheduling decision on table values, `Starvation` the bound on waiting,
`KillTree` the families in the process table, and `Scheduler` is the imperative table of 32 slots. `SchedulerRuns`
applies the bound to runs of the scheduler's own calls. Preempted processes
keep the status RUNNING, so several processes may have it.

**Semaphore.** `Semaphore` has the ring of five waiters as a class, its steps as functions, and the interleavings of
all processes as runs of steps.

**Heap.** `OrderedArray` is the insertion-sorted index. `HeapValue` describes the heap as a value (boundary tags by
address, index, bounds); `HeapSafety`, `HeapFree`, `HeapRuns` and `HeapMixedRuns` prove what halloc, hfree and runs of
them keep, `HeapPlaces` where blocks and the heap end are put, and `HeapOrder` when the index stays sorted; `HeapWitnesses` reaches the heaps in which they go wrong;
`KernelHeap` is the imperative heap, each method equal to its function on values.

**Text.** `Numerals`, `Atoi`, `Printf`, `Tokens`, `CStrings` and `Groups` follow printf.c, stdlib.c, string.c and group.c.

## Where the code does not do what one would expect

Each of these comes with the exact condition under which it happens, and, where the condition does not name the input
itself, with a run that leads there. Inode 255 is the exception: no run here reaches it.

- A write that starts behind a page that is not full does not find its place (`WritePosition.SeekExact`). If the file was
  written to before and the write starts less than 228 bytes behind its end, the bytes go to the next page, at the wrong
  offset; else they go nowhere and the answer is -1. Either way the file system is not sound afterwards, unless the
  write failed without having reserved a block (`DiskManager.DiskManager.WriteOverGap`). One byte at offset 200 shows
  both (`DiskManager.DiskManager.FreshFileGap`, `DiskManager.DiskManager.ShortFileGap`). Offsets up to the length are
  always fine.
- A deleted inode keeps its entry, and is refused only if the entry has not the magic number
  (`DiskManager.DiskManager.ReadEntry`, `DiskManager.DiskManager.WriteEntry`): right after its deletion a file is still
  read and written (`DiskManager.DiskManager.DeleteThenRead`, `DiskManager.DiskManager.DeleteThenWrite`). As long as no
  live file has a block linked behind the entry, a write through it changes no live file (`DeadInodes.WriteThrough`), and
  a second deletion leaves a sound file system exactly then (`DeadInodes.DeadDeleteExact`). Otherwise a write can change
  a live file, and a deletion frees blocks of one (`DeadInodes.WriteHitsLiveFile`, `DeadInodes.DeleteHitsLiveFile`).
- The inode table has room for 128 entries, but inode numbers go on. The next one is stored over the bitmap of blocks, and
  the file system stays sound only if the bits were those of the entry already (`Reservation.OverBitmapExact`,
  `INodeOverruns.OverrunReached`).
- Removing a directory that still has nodes cuts them off from the root for good, and only that does
  (`TreePaths.RunReachableExact`). The number of their former parent can go to another file (`TreePaths.ParentReused`).
- A read that skips the first page copies nothing if and only if an uninitialised local happens to be 0
  (`DiskManager.DiskManager.ReadChain`).
- From sector 0x8000 on the look-up takes the sector for a negative number, and every access loads it again. Bytes written
  there are read back only if the read gives up the slot of the write, or the drive has the same bytes anyway
  (`CacheLimits.ReadAfterWriteExact`). Whatever calls came before, the first happens exactly if the cache was full
  (`CacheLimits.ReadAfterWriteOnRuns`); on a new cache it does not (`CacheLimits.HighSectorRead`). The file system itself
  stays below that sector.
- The free test of a directory record looks at one byte, and takes inode 255 for a removed record
  (`DirRecords.FreeTestExact`, `DirRecords.Inode255LooksRemoved`). Such a number lies behind the end of the inode table.
- A sixth waiter overwrites the ring of a semaphore (`Semaphore.SixthWaiterOverwrites`, `Semaphore.SixWaiters`).
- A merge to the right leaves a stale footer, and freeing the next block then corrupts the heap
  (`HeapFree.BackPointersExact`, `HeapFree.StaleFooterBreaksNextFree`, `HeapWitnesses.StaleFooterReached`).
- Growing a hole that does not abut the end makes it overlap the live block behind it (`HeapSafety.GrownExact`,
  `HeapSafety.GrownOverlaps`, `HeapWitnesses.OverlapReached`).
- The index of holes loses its order when hfree grows a hole in place past its successor, and over any run of calls only
  then (`HeapOrder.FreeSortedExact`, `HeapOrder.RunSortedExact`); halloc keeps it (`HeapOrder.AllocKeepsSorted`). The scan
  is then still a best fit for every request if and only if every hole behind a larger one has a hole of its own size in
  front of that one (`HeapSafety.BestFitExact`); `HeapWitnesses.MissReached` reaches a heap where it is not.
- atoi counts the minus sign as a digit (`Atoi.ReadsBackExact`).

## Model

| member | source | states |
|---|---|---|
| `Ata.Controller.Normalize` | src/driver/ata_disk.c:24-29 | moving whole sectors from the offset into the 16-bit sector number names the same cell of the circular disk |
| `Ata.NormalizedCell` | src/driver/ata_disk.c:40-43 | the same as an arithmetic law, also when the sector number wraps |
| `Ata.NextSectorCell` | src/driver/ata_disk.c:45-51 | a transfer that reaches a sector end goes on at the start of the next sector |
| `Ata.Controller.TranslateBytes` | src/driver/ata_disk.c:78-81 | a data word is split into its low and high byte |
| `Ata.Controller.WriteDataToRegister` | src/driver/ata_disk.c:135-136 | two bytes are packed into one word, low byte first |
| `Ata.BytesOfUpdate` | src/driver/ata_disk.c:124-136 | storing one word changes exactly its two bytes of the flat array |
| `Ata.Controller.ReadSector` | src/driver/ata_disk.c:62-76 | the requested part of one sector of the flat array is returned |
| `Ata.Controller.WriteSector` | src/driver/ata_disk.c:114-127 | read-modify-write of one sector splices the bytes into the flat array and leaves all others |
| `Ata.Overlay` | src/driver/ata_disk.c:118-126 | writing a whole sector overlaid with a message is a write of the message alone |
| `Ata.Controller.Read` | src/driver/ata_disk.c:31-60 | any transfer reads a slice of one circular byte array of 0x2000000 bytes; an unknown drive reads nothing |
| `Ata.Controller.Write` | src/driver/ata_disk.c:83-112 | any transfer is a put into that array; an unknown drive changes nothing; the loop terminates |
| `Ata.PutCells` | src/driver/ata_disk.c:91-111 | a write gives each written cell its byte and keeps every other cell |
| `Ata.PutAppend` | src/driver/ata_disk.c:97-103 | a write in two parts is the write of the whole |
| `Ata.ReadBack` | src/driver/ata_disk.c:31-112 | what was written is read back, wherever the transfer starts and even if it wraps |
| `Ata.PutInRange` | src/driver/ata_disk.c:83-112 | a write that does not wrap is a slice update |
| `Ata.GetInRange` | src/driver/ata_disk.c:31-60 | a read that does not wrap is a slice |
| `DiskCache.Cache.constructor` | src/fs/diskCache.c:12-18 | an empty cache shows clients what is on the drives |
| `DiskCache.Cache.CacheIndex` | src/fs/diskCache.c:70-86 | the first slot that holds the sector, looked up as a signed 16-bit number, or -1 |
| `DiskCache.Cache.NextFreeIndex` | src/fs/diskCache.c:91-105 | the first empty slot, else the first with the fewest accesses; the drives are as before but for that slot, written back if dirty |
| `DiskCache.Cache.WriteBack` | src/fs/diskCache.c:101-104 | the sector on the drive becomes the contents of the slot, and nothing else changes |
| `CacheSlots.WriteBackKeepsView` | src/fs/diskCache.c:101-104 | writing a slot to its sector keeps the invariant and the client view, before and after its dirty flag is cleared |
| `DiskCache.Cache.CacheSector` | src/fs/diskCache.c:110-117 | the slot holds the sector as it is on the drive, for every sector number, and the other slots are kept |
| `CacheSlots.LoadKeepsView` | src/fs/diskCache.c:110-117 | loading over an empty or clean slot keeps at most one copy per sector and the client view |
| `DiskCache.Cache.Fetch` | src/fs/diskCache.c:20-30 | look-up, eviction and load give the slots, the drives and the slot number of the step Fetched, for every sector number |
| `CacheSlots.EvictKeepsView` | src/fs/diskCache.c:91-105 | giving up a slot leaves what clients see, and makes the contents of the slot those of the drive |
| `CacheSlots.FetchKeepsView` | src/fs/diskCache.c:20-30 | below sector 0x8000 look-up and load leave what clients see, and the sector is cached |
| `DiskCache.Cache.ReadAny` | src/fs/diskCache.c:20-41 | a read of any sectors takes the cache from step to step, each part from the slot just fetched |
| `DiskCache.Cache.WriteAny` | src/fs/diskCache.c:43-65 | a write of any sectors, in the same way |
| `CacheSlots.ReadLaw` | src/fs/diskCache.c:20-41 | below sector 0x8000 these steps answer with a slice of the flat array and change nothing that clients see |
| `CacheSlots.WriteLaw` | src/fs/diskCache.c:43-65 | below sector 0x8000 these steps splice the flat array of one drive |
| `CacheSlots.StoreSplicesView` | src/fs/diskCache.c:52-64 | marking a slot dirty and storing bytes in it is a splice of the flat array clients see |
| `DiskCache.Cache.Read` | src/fs/diskCache.c:20-41 | the bytes are those of the flat array, over any number of sectors and evictions on the way |
| `DiskCache.Cache.Write` | src/fs/diskCache.c:43-65 | the flat array is spliced exactly, the other drive is unchanged |
| `DiskCache.Cache.Store` | src/fs/diskCache.c:52-64 | the slot is marked, counted and overwritten from the offset on; nothing else changes |
| `DiskCache.Cache.FlushAny` | src/fs/diskCache.c:119-127 | whatever sectors were asked for, the dirty slots are written back in turn |
| `CacheSlots.LastFlushed` | src/fs/diskCache.c:119-127 | of several dirty slots with one sector, the last one is on the drive after a flush |
| `CacheSlots.NotFlushed` | src/fs/diskCache.c:119-127 | a sector that no dirty slot holds is as it was |
| `CacheSlots.FlushLaw` | src/fs/diskCache.c:119-127 | below sector 0x8000 clients see no flush |
| `DiskCache.Cache.Flush` | src/fs/diskCache.c:119-127 | then no slot is dirty, the drives equal the client view, and the view is unchanged |
| `CacheSlots.CleanViewIsMedia` | src/fs/diskCache.c:119-127 | without dirty slots clients see exactly the drives |
| `CacheRuns.Handle` | src/fs/diskCache.c:20-127 | one read, write or flush acts on the flat arrays as specified |
| `CacheRuns.Replay` | src/fs/diskCache.c:20-127 | any sequence of reads, writes and flushes answers and ends like the same sequence on flat arrays |
| `CacheRuns.LastWriteWins` | src/fs/diskCache.c:43-65 | in any run the last write that covers a byte decides it; an uncovered byte keeps its first value |
| `CacheRuns.ReadAnswers` | src/fs/diskCache.c:20-41 | a read answers, byte for byte, what the flat array holds from sector times 512 plus offset on |
| `CacheLimits.HighReadAfterWrite` | src/fs/diskCache.c:20-117 | what a read from sector 0x8000 on answers after a write, said of the cache before the write: the bytes written if the same slot is given up twice, else those of the drive after the two slots given up in turn were written back, dirty copies of the sector included |
| `CacheLimits.ReadAfterWriteExact` | src/fs/diskCache.c:20-117 | bytes written within a sector are read back if and only if the sector is below 0x8000, the same slot is given up twice, or the drive then has the same bytes |
| `CacheLimits.StaysVictimExact` | src/fs/diskCache.c:91-105 | the same slot is given up twice if and only if all others were accessed at least twice, and those in front of it more often |
| `CacheLimits.ReadUses` | src/fs/diskCache.c:20-41 | a read leaves no slot accessed just once, even if it evicts its own slots on the way |
| `CacheLimits.StaysVictimIfFull` | src/fs/diskCache.c:91-105 | if no slot was accessed just once, the same slot is given up twice if and only if none is empty, or only that one is and those in front of it were accessed more than twice |
| `CacheLimits.ReadAfterWriteOnRuns` | src/fs/diskCache.c:12-127 | so, after any run of calls to a new cache, bytes written from sector 0x8000 on are read back if and only if the cache is full in this sense or the drive has the same bytes |
| `CacheLimits.HighSectorLost` | src/fs/diskCache.c:70-117 | with two slots still empty a read from sector 0x8000 on gives the bytes of the drive, not the ones just written |
| `CacheLimits.HighSectorRead` | src/fs/diskCache.c:12-65 | so it is on a new cache at sector 0x8000 |
| `CacheCounts.HitCounts` | src/fs/diskCache.c:20-65 | a transfer within a cached sector counts one access of the slot that holds it, and changes no other slot |
| `CacheCounts.MissCounts` | src/fs/diskCache.c:20-117 | a transfer within a sector that is not cached takes the first of the slots with the fewest accesses, where the sector starts with two, and changes no other slot |
| `CacheCounts.HitsCounted` | src/fs/diskCache.c:20-127 | over any run of calls on cached sectors every slot keeps its sector and counts exactly the calls that asked for it |
| `CacheCounts.LeastUsedGivenUp` | src/fs/diskCache.c:20-117 | after such a run the next sector that is not cached takes the place of the one used least, counting the run, the first of several |
| `DiskLayout.PageRoundTrip` | include/fs/diskManager.h:36-44 | a page header is read back from its 28 bytes |
| `DiskLayout.INodeRoundTrip` | include/fs/diskManager.h:46-50 | an inode entry is read back from its 36 bytes |
| `DiskLayout.HeaderRoundTrip` | include/fs/diskManager.h:52-60 | a file header is read back from its 48 bytes |
| `DiskLayout.PageFormat` | include/fs/diskManager.h:36-44 | which four bytes hold which field of a page header, least significant byte first |
| `DiskLayout.INodeFormat` | include/fs/diskManager.h:46-50 | an entry is a page header and the two counts behind it |
| `DiskLayout.HeaderFormat` | include/fs/diskManager.h:52-60 | a file header is its magic number, 24 name bytes and five words, in this order |
| `Bytes.BitWeight` | src/fs/diskManager.c:360-366 | bit j of a byte has the weight 2^j: the bits above it, the bit and those below make up the byte |
| `DiskLayout.ImageBlockWrite` | src/fs/diskManager.c:13-15 | a write into block k changes that block alone |
| `DiskLayout.ImageTableWrite` | src/fs/diskManager.c:470-473 | a write below the block bitmap changes the inode table alone |
| `DiskLayout.ImageBitmapWrite` | src/fs/diskManager.c:470-473 | a write into the block bitmap changes it alone |
| `Reservation.OverBitmapExact` | src/fs/diskManager.c:470-473 | after the entry of an inode number from 128 on is stored over the block bitmap, the file system is sound if and only if the 288 bits under it were those of the entry already |
| `Reservation.MagicOverBitmap` | src/fs/diskManager.c:470-473 | it is not if one of the first six of these blocks was taken, because the magic number shows them as free |
| `INodeOverruns.OverrunReached` | src/fs/diskManager.c:79-125 | the 129th inode created gets the number 128; storing its entry marks block 0, which the first file has, as free |
| `FileChains.StreamSlice` | src/fs/diskManager.c:245-274 | a piece of one page is the matching piece of the file stream |
| `FileChains.StreamWrite` | src/fs/diskManager.c:289-339 | a write into the payload of a page splices the file stream |
| `FileChains.PageDataStream` | src/fs/diskManager.c:289-339 | a page write with its header rewrite splices the stream and touches no other block |
| `FileChains.PageDataKeepsChain` | src/fs/diskManager.c:289-339 | full pages, then at most one partial page, then empty pages: kept by a write into a page behind full ones, for the new length |
| `FileChains.FullOrLast` | src/fs/diskManager.c:260-274 | a page that holds a byte of the file is full or holds its end |
| `FileChains.FirstFullOrLast` | src/fs/diskManager.c:245-259 | the same for the first page, whose used count may still be 0 |
| `Reservation.AppendReserved` | src/fs/diskManager.c:448-466 | linking a reserved chain behind the last page keeps length, shape and bytes of the file |
| `WritePosition.SeekExact` | src/fs/diskManager.c:278-316 | the skipping by used counts finds the right page and offset if and only if no page before it is partly unfilled; otherwise it stays on the chain if and only if the file was written to and the offset is less than 228 behind its end |
| `WritePosition.SeekOverFullPages` | src/fs/diskManager.c:278-316 | over full pages the skipping ends at the place of the byte |
| `WritePosition.SeekOverGap` | src/fs/diskManager.c:278-316 | over a page that is not full it ends on the page after the last one, as far in as the offset is behind the end of the file, or off the chain |
| `WritePosition.SeekPastEnd` | src/fs/diskManager.c:304-341 | pages behind the end of the file take nothing off the offset, so the skipping runs off the chain |
| `PageWrites.LaidInOrder` | src/fs/diskManager.c:304-341 | a long write behind full pages keeps the page shape for the new length and splices the stream |
| `PageWrites.WrittenInPlace` | src/fs/diskManager.c:278-342 | a write within the file or right behind full pages succeeds, splices the stream at its offset, keeps the page shape for the new length, and touches no other block |
| `PageWrites.GapWritten` | src/fs/diskManager.c:278-342 | any other write does nothing if it is empty, fails without writing if it is not near the end, and else starts on the page after the last one |
| `PageWrites.LaidStream` | src/fs/diskManager.c:304-341 | as much of the data as the chain has room for is in the stream, from where the write started |
| `PageWrites.SameAt` | src/fs/diskManager.c:410-478 | an inode entry and the page headers leave no choice for the chain of a file |
| `EntryWrites.RewrittenInPlace` | src/fs/diskManager.c:189-219 | a write in its place completes a step of the file system: sound image, contents overwritten, all other files kept |
| `EntryWrites.RewrittenOverGap` | src/fs/diskManager.c:189-219 | what any other write leaves: the status, where its bytes are, and that no file has the inode any more, unless it failed without writing or reserving |
| `EntryWrites.ApartKeepsFs` | src/fs/diskManager.c:127-219 | changes to the entry of a dead inode and to blocks no live file has leave every live file as it is |
| `EntryWrites.DeadWriteKeepsFs` | src/fs/diskManager.c:189-219 | so a write through the entry of a dead inode touches no live file, if none has a block linked behind that entry |
| `Reservation.TakenKeepsLinks` | src/fs/diskManager.c:366-397 | a round of the reservation loop keeps the taken pages linked in order |
| `Reservation.ReservingTakes` | src/fs/diskManager.c:360-397 | a round keeps the loop state: lowest clear bits taken so far, linked pages, nothing else changed |
| `Reservation.ClearUndoesSet` | src/fs/diskManager.c:345-432 | setting clear bits and clearing them again restores the bitmap |
| `DiskManager.DiskManager.Reserve` | src/fs/diskManager.c:345-408 | exactly the lowest n clear bits are set and a terminated chain of n pages runs through them |
| `DiskManager.DiskManager.Free` | src/fs/diskManager.c:410-432 | the walk over a chain terminates and clears exactly its bits |
| `DiskManager.DiskManager.ReserveThenFree` | src/fs/diskManager.c:345-432 | reserving and freeing restores the bitmap |
| `Reservation.EstimateIsEnough` | src/fs/diskManager.c:434-447 | 228 times the two-pass estimate exceeds the size, for every size |
| `Reservation.EstimateBounds` | src/fs/diskManager.c:434-447 | what 4096 blocks can serve stays far below 2^32 bytes |
| `Reservation.EstimateExact` | src/fs/diskManager.c:434-447 | exactly how many blocks are estimated: the least number of 257 bytes each that exceeds the size with 48 more bytes for every block of a first count, which is the least such number for the size alone |
| `DiskManager.DiskManager.Extend` | src/fs/diskManager.c:434-467 | the estimate is reserved, lowest free blocks first, and linked behind the last page; the file keeps its shape and bytes |
| `Reservation.ReservedExtends` | src/fs/diskManager.c:448-466 | a reserved and linked chain extends the file without touching its blocks |
| `Reservation.UpdateKeepsFs` | src/fs/diskManager.c:189-219 | giving a file newly taken blocks keeps all chains acyclic, disjoint, as long as their inode says, and the bitmap their union |
| `Reservation.RemoveKeepsFs` | src/fs/diskManager.c:127-147 | freeing a chain and its inode keeps the same for the remaining files |
| `Reservation.CreatedFs` | src/fs/diskManager.c:101-125 | a new one-block file keeps the same |
| `Reservation.CreatedFile` | src/fs/diskManager.c:101-125 | the created image is a sound file system with the new header and entry, and all other files as before |
| `Reservation.DeletedFile` | src/fs/diskManager.c:127-147 | the image after a deletion is sound and keeps every other file |
| `Reservation.INodeMapKeepsFs` | src/fs/diskManager.c:79-99 | setting bits for inode numbers touches no file |
| `Reservation.FreeAfterOne` | src/fs/diskManager.c:101-125 | taking one clear bit leaves one free block less |
| `Reservation.ContentsWritten` | src/fs/diskManager.c:199-218 | what the stream of the extended and written chain says about the contents |
| `Reservation.FormattedFs` | src/fs/diskManager.c:65-77 | an empty bitmap is a sound file system without files and 4096 free blocks |
| `DiskManager.DiskManager.constructor` | src/fs/diskManager.c:34-56 | the manager starts from a drive that holds a sound file system |
| `DiskManager.DiskManager.WriteHeader` | src/fs/diskManager.c:65-77 | formatting leaves no inode and no block taken |
| `DiskManager.DiskManager.ReadChain` | src/fs/diskManager.c:234-276 | within the length exactly the slice is read; nothing is copied if the uninitialised local holds 0 and the first page is skipped |
| `DiskManager.DiskManager.ReadNextPages` | src/fs/diskManager.c:260-274 | the loop over later pages reads the rest of the slice |
| `DiskManager.DiskManager.WriteInPage` | src/fs/diskManager.c:289-303 | data and, if it grew, the used count of one page are written |
| `DiskManager.DiskManager.WriteChain` | src/fs/diskManager.c:278-342 | for every offset: the image and the status of laying the data over the pages from where the skipping ends, as far as the chain goes |
| `DiskManager.DiskManager.WriteNextPages` | src/fs/diskManager.c:304-341 | the loop over later pages skips by used counts, writes page after page, and answers -1 if it runs off the chain |
| `DiskManager.DiskManager.LinkBlock` | src/fs/diskManager.c:366-397 | a taken block is linked behind the previous one |
| `DiskManager.DiskManager.MakeRoom` | src/fs/diskManager.c:199-211 | after it the chain has room for offset plus length, extended by the estimate only if it had not, and the entry counts both |
| `DiskManager.DiskManager.WriteContents` | src/fs/diskManager.c:189-219 | within the file or right behind full pages exactly contents[offset..offset+length] is replaced, growing the file if needed; header, inode bits and every other file unchanged; an entry without the magic number is refused |
| `DiskManager.DiskManager.WriteEntry` | src/fs/diskManager.c:189-219 | for every offset, also past 2^32: refused if and only if the entry has not the magic number, else room is made, the pages are written, and the entry is set unless that failed |
| `DiskManager.DiskManager.WriteOverGap` | src/fs/diskManager.c:189-219 | a write that does not start in its place: where its bytes go, when it answers -1, that reserved blocks then stay linked while the entry keeps its count, and when exactly the file system stays sound |
| `DiskManager.DiskManager.FreshFileGap` | src/fs/diskManager.c:101-219 | on a new file a byte for offset 200 is refused, and a linked but uncounted block is left |
| `DiskManager.DiskManager.ShortFileGap` | src/fs/diskManager.c:101-219 | on a file of one byte a byte for offset 200 is put at offset 379 |
| `DiskManager.DiskManager.ReadEntry` | src/fs/diskManager.c:221-231 | a read is refused if and only if the entry has not the magic number, whether or not the inode is live |
| `DiskManager.DiskManager.ReadContents` | src/fs/diskManager.c:221-231 | exactly the slice of the contents within the length; nothing changes; an entry without the magic number is refused |
| `DiskManager.DiskManager.WriteThenRead` | src/fs/diskManager.c:189-231 | a write is read back as written, and no other byte of this or another file changes |
| `DiskManager.DiskManager.NextINode` | src/fs/diskManager.c:79-99 | the lowest clear inode bit is set and returned, or -1 if none; the words in front of the bits are kept |
| `DiskManager.DiskManager.CreateINode` | src/fs/diskManager.c:101-125 | a new empty file on the lowest free block, which was never written to: the entry word for word, the header with the given fields and name, all other files kept |
| `DiskManager.DiskManager.Delete` | src/fs/diskManager.c:127-147 | the file is gone, its blocks and inode bit are free, all others kept; the inode entry and the old contents are still there, but the magic word of the file header is 0 |
| `DiskManager.DiskManager.DeleteThenRead` | src/fs/diskManager.c:127-147 | a deleted file is still read through its entry, with the old contents |
| `DiskManager.DiskManager.DeleteThenWrite` | src/fs/diskManager.c:127-219 | and written to: the bytes go into free blocks, and no live file changes |
| `DiskManager.DiskManager.WriteFitting` | src/fs/diskManager.c:189-219 | a write through any entry with the magic number, live or dead, that fits the blocks it counts: along whatever pages are linked behind it |
| `DiskManager.DiskManager.WriteRoomed` | src/fs/diskManager.c:212-218 | the data is written, and the entry is set unless that failed |
| `DiskManager.DiskManager.DeleteEntry` | src/fs/diskManager.c:127-147 | a deletion through any entry with the magic number: the bits of whatever pages are linked behind it are cleared, with the magic word of the header set to 0 and the inode bit cleared |
| `DiskManager.DiskManager.ReadINode` | src/fs/diskManager.c:149-181 | diskManager_readInode of any inode: refused if and only if the entry or the header it leads to has not the magic number, else the fields of both |
| `DiskManager.DiskManager.ReadLiveINode` | src/fs/diskManager.c:149-181 | a live inode is read, with name, mask, owner, flags, number and length, if its header is marked; so it is after formatting and any run |
| `DiskManager.DiskManager.DeleteThenReadINode` | src/fs/diskManager.c:127-168 | a deleted inode is refused, although its entry still has the magic number |
| `DeadInodes.WriteThrough` | src/fs/diskManager.c:189-219 | a write through a dead entry leaves every live file as it is, if none has a block linked behind the entry |
| `DeadInodes.DeadDeleteExact` | src/fs/diskManager.c:127-147 | a deletion through a dead entry leaves a sound file system if and only if no live file has a block linked behind it; then every live file is as before |
| `DeadInodes.DeleteThrough` | src/fs/diskManager.c:127-147 | so for diskManager_delete in place |
| `DeadInodes.WriteHitsLiveFile` | src/fs/diskManager.c:79-219 | two files created and deleted, a third one created and grown: a write to the second changes one byte of the third and nothing else |
| `DeadInodes.DeleteHitsLiveFile` | src/fs/diskManager.c:79-219 | and a second deletion of the second leaves blocks of the third marked as free |
| `DiskManager.DiskManager.GetINode` | src/fs/diskManager.c:475-478 | the 36 bytes at entry n are read, for every number that nextInode returns |
| `DiskManager.DiskManager.SetINode` | src/fs/diskManager.c:470-473 | the 36 bytes at entry n and nothing else are written: below 128 the entry, from 128 on a part of the block bitmap |
| `DiskManager.DiskManager.GetFileHeader` | src/fs/diskManager.c:535-545 | the header of the file is read; an entry without the magic number is refused |
| `DiskManager.DiskManager.SetFileHeader` | src/fs/diskManager.c:547-556 | the 48 header bytes in the first block are written; an entry without the magic number is refused |
| `DiskManager.DiskManager.Size` | src/fs/diskManager.c:559-563 | the length of the file, or whatever the entry says |
| `FreeSpace.FreeAfterTaking` | src/fs/diskManager.c:345-397 | taking a chain of free blocks lowers the number of free blocks by its length |
| `FreeSpace.FreeAfterGrowth` | src/fs/diskManager.c:189-219 | a file that grew took exactly its new blocks from the free ones |
| `FreeSpace.FreeAfterRemoval` | src/fs/diskManager.c:127-147 | a deleted file gives all its blocks back |
| `FileRuns.FileStore.ServeCreate` | src/fs/diskManager.c:79-125 | a create as a step of the abstract store: the lowest free number, an empty file, one block less |
| `FileRuns.FileStore.ServeWrite` | src/fs/diskManager.c:189-219 | a write as a step of the store: contents overwritten, blocks added only if needed and then as estimated |
| `FileRuns.FileStore.ServeRead` | src/fs/diskManager.c:221-231 | a read as a step of the store: the slice, and no change |
| `FileRuns.FileStore.ServeRemove` | src/fs/diskManager.c:127-147 | a delete as a step of the store: the file is gone and its blocks are free |
| `FileRuns.FileStore.Run` | src/fs/diskManager.c:79-231 | any run of admissible creates, writes, reads and deletes answers and ends like the same run on a map from inode numbers to contents; headers of live files keep the magic number |
| `FileRuns.FileStore.RunFormatted` | src/fs/diskManager.c:65-231 | the same from a freshly formatted drive, where all headers are marked |
| `FileLaws.CreateAnswers` | src/fs/diskManager.c:79-125 | a create in the abstract store answers the lowest number without a file, which gets an empty one; every other file is kept |
| `FileLaws.WriteAnswers` | src/fs/diskManager.c:189-219 | a write there: each byte written is at its offset, every other byte and file is as before, and the length is the larger end |
| `FileLaws.ReadAnswers` | src/fs/diskManager.c:221-231 | a read there answers byte for byte what the file holds |
| `FileLaws.RemoveAnswers` | src/fs/diskManager.c:127-147 | a delete there: exactly that file is gone |
| `FileLaws.RunKeepsFile` | src/fs/diskManager.c:79-231 | a run that neither writes to nor deletes a file keeps its bytes |
| `FileLaws.ReadAfterRun` | src/fs/diskManager.c:79-231 | what was written is read back after any run that neither writes to nor deletes the file |
| `FileRuns.BlocksConserved` | src/fs/diskManager.c:101-231 | in every run free blocks and blocks of files add up to the same |
| `DirRecords.AppendAddsEntry` | src/fs/fs.c:161-185 | adding a fresh name adds exactly that entry, and keeps the number of records if and only if one was free |
| `DirRecords.RemoveDeletesEntry` | src/fs/fs.c:266-276 | marking a record removed deletes exactly its entry |
| `DirRecords.CreateReusesRemoved` | src/fs/fs.c:161-185 | a create after a remove reuses the freed record without growing the directory |
| `DirRecords.FreeTestExact` | src/fs/fs.c:167-175 | the one-byte free test is right if and only if no live inode number ends in 0xFF |
| `DirRecords.Inode255LooksRemoved` | src/fs/fs.c:171 | a live record of inode 255 passes for a removed one |
| `DirRecords.RecordsReplace` | src/fs/fs.c:176-180 | overwriting 28 bytes replaces one record |
| `DirRecords.RecordsAppend` | src/fs/fs.c:176-182 | 28 bytes behind the end append one record |
| `DirRecords.InodeReplace` | src/fs/fs.c:270-274 | overwriting the first four bytes replaces only the inode number |
| `DirRecords.RecordFormat` | src/fs/fs.c:176-182 | a record is the inode number, least significant byte first, and 24 name bytes |
| `DirRecords.LiveFromAt` | src/fs/fs.c:200-209 | in the list of live records each one stands at the number of live ones in front of it |
| `DirRecords.LiveFromSize` | src/fs/fs.c:200-209 | and the list has no others |
| `DirSlots.PutIs` | src/fs/fs.c:166-182 | an item takes the first vacant slot, or a new one at the end |
| `DirSlots.SlotsAppended` | src/fs/fs.c:166-182 | adding a record to the file is adding an item to the slots |
| `DirSlots.ListingIsEntries` | src/fs/fs.c:220-236 | the map of names is the one the slots make up |
| `DirSlots.ListingPut` | src/fs/fs.c:161-185 | adding an item with a fresh name adds exactly that name to the map |
| `DirSlots.ListingClear` | src/fs/fs.c:266-276 | vacating a slot removes exactly its name from the map |
| `DirSlots.PositionOfRecord` | src/fs/fs.c:266-269 | the first slot with the number is the first record with it |
| `DirSlots.NumbersOfLive` | src/fs/fs.c:200-209 | the numbers in the slots are those of the live records, in order |
| `Directories.FindName` | src/fs/fs.c:226-235 | the search agrees with the finite map of names |
| `Directories.FindRemoved` | src/fs/fs.c:166-176 | the offset of the first free record, or the end |
| `Directories.FindIndex` | src/fs/fs.c:200-217 | each live record behind the first is found by the number of live ones between the two; every index from their total on finds none, but the greatest index finds -1 if there are none at all |
| `Directories.IndexAnswers` | src/fs/fs.c:200-217 | the same, for the list of live records |
| `Directories.FindInode` | src/fs/fs.c:261-269 | the first record behind the third with the inode number, or -1 |
| `Directories.Directories.FindDir` | src/fs/fs.c:220-236 | finddir answers from the map of live names and changes nothing |
| `Directories.Directories.ReadDir` | src/fs/fs.c:194-218 | readdir(k) answers the inode of the live record of the directory that has k live ones between the first record and it, and none from their total on; nothing changes |
| `Directories.Directories.AppendFile` | src/fs/fs.c:148-186 | the record goes to the first free slot, else to the end; all other files kept; blocks are taken exactly as estimated and only if the last one is full |
| `Directories.Directories.WriteWhole` | src/fs/fs.c:174-185 | rewriting at least the whole contents from their start replaces them |
| `Directories.Directories.AddRecord` | src/fs/fs.c:148-186 | a fresh name is added to the map without new blocks |
| `Directories.Directories.AddLink` | src/fs/fs.c:148-186 | without a name the record takes the name in the header of the file: the new sequence of records, slots, map of names, blocks and free blocks |
| `Directories.Directories.InitDir` | src/fs/fs.c:137-142 | a new directory has exactly the records of the root, itself and its parent, in this order |
| `Directories.Directories.NewFile` | src/fs/fs.c:124-142 | the lowest free inode number becomes an empty file or a directory with its three records; its header has the name and the given mask, owner, group, flags and kind |
| `Directories.Directories.MakeEntry` | src/fs/fs.c:247-254 | a new inode and its record: the records, slots and names of the directory after it, every other file kept, blocks accounted for |
| `Directories.Directories.CreateDir` | src/fs/fs.c:238-255 | a fresh name is bound to the lowest free inode by one appended record and every other entry and file is kept; an existing name or missing right is refused without any change |
| `Directories.Directories.RemoveDir` | src/fs/fs.c:257-280 | exactly the first matching record behind the third is vacated and its inode deleted; an unknown inode is refused without any change |
| `FileTrees.CreateKeepsSound` | src/fs/fs.c:238-255 | a create keeps the invariant of directories: three first items, distinct names, every other item the only one that names its live node |
| `FileTrees.RemoveKeepsSound` | src/fs/fs.c:257-280 | so does a remove |
| `FileTrees.StepKeepsSound` | src/fs/fs.c:194-280 | so does every request |
| `FileTrees.RunKeepsSound` | src/fs/fs.c:194-280 | so does every run; in particular the root stays |
| `FileTrees.NamesStep` | src/fs/fs.c:194-280 | every request changes the map of names of a directory exactly as a map update says, and of no other directory |
| `FileTrees.CreateReusesSlot` | src/fs/fs.c:161-185 | a create after a remove in a directory leaves the number of its slots and blocks as it was |
| `FileTrees.BlocksConserved` | src/fs/fs.c:109-280 | in every run free blocks and blocks of files and directories add up to the same |
| `TreePaths.StepReachableExact` | src/fs/fs.c:194-280 | a request leaves every node within reach of the root if and only if it removes no directory that still has nodes; else a node is left that no directory names |
| `TreePaths.RunReachableExact` | src/fs/fs.c:194-280 | after a run every node can be reached if and only if no directory that still had nodes was removed: a node cut off stays so |
| `TreePaths.StepKeepsParents` | src/fs/fs.c:109-280 | a directory that has a parent names itself and this parent in its second and third record, after every request |
| `TreePaths.RunsFromRoot` | src/fs/fs.c:109-280 | from the root alone on: reachability as in RunReachableExact, and if it holds every directory names the directory that names it |
| `TreePaths.ParentReused` | src/fs/fs.c:238-280 | a run after which a directory that can no longer be reached names a plain file as its parent |
| `DirectoryRuns.FileTree.ServeCreate` | src/fs/fs.c:238-255 | fs_createdir as a step on the tree of nodes |
| `DirectoryRuns.FileTree.ServeRemove` | src/fs/fs.c:257-280 | fs_removedir as a step on the tree |
| `DirectoryRuns.FileTree.ServeFind` | src/fs/fs.c:220-236 | fs_finddir as a step on the tree: the answer of the map of names |
| `DirectoryRuns.FileTree.ServeEntry` | src/fs/fs.c:194-218 | fs_readdir as a step on the tree, whose answers ListingAnswers states |
| `DirectoryRuns.FileTree.ServeWrite` | src/fs/diskManager.c:189-219 | a write to a plain file as a step on the tree: no directory changes |
| `DirectoryRuns.FileTree.ServeRead` | src/fs/diskManager.c:221-231 | a read of a plain file as a step on the tree |
| `DirectoryRuns.FileTree.Run` | src/fs/fs.c:194-280 | any run of creates, removes, look-ups, directory listings, writes and reads answers and ends like the same run on a tree of plain files and directories |
| `DirectoryRuns.FileTree.RunFormatted` | src/fs/fs.c:109-116 | the same on any drive after formatting and making the root directory |
| `TreeLaws.ListingAnswers` | src/fs/fs.c:194-218 | a listing of a directory in the tree: for index 0, 1, ... the items behind the first in order, none from their total on |
| `TreeLaws.FindAnswers` | src/fs/fs.c:220-236 | a look-up answers the number of the item with the name, and none if no item has it |
| `TreeLaws.CreateAnswers` | src/fs/fs.c:238-255 | a create is refused for want of access or for a name that is there, else makes the node with the lowest free number and puts its item into the first vacant slot or behind all; nothing else changes |
| `TreeLaws.RemoveAnswers` | src/fs/fs.c:257-280 | a remove vacates the first slot behind the third that names the number and deletes the node, or is refused; nothing else changes |
| `TreeLaws.WriteAnswers` | src/fs/diskManager.c:189-219 | a write to a plain file: each byte written is at its offset, every other byte and node is as before |
| `TreeLaws.ReadAnswers` | src/fs/diskManager.c:221-231 | a read answers byte for byte what the file holds |
| `TreeLaws.ReadAfterWrite` | src/fs/diskManager.c:189-231 | so what was written is read back |
| `Processes.BestIsFirstMaximum` | src/process/scheduler.c:127-162 | the sweep keeps the first of the highest positive scores |
| `Processes.DecidedSlots` | src/process/scheduler.c:104-162 | a decision slot by slot: finalized processes leave the table, the chosen one runs with age 0, other runnable ones are one older, blocked ones and those without priority are untouched |
| `Processes.ChosenSlot` | src/process/scheduler.c:127-162 | the one chosen is the first with the greatest positive sum of its new age and, with priorities, twice its priority; without such a one it is the idle process |
| `Scheduler.Scheduler.constructor` | src/process/scheduler.c:28-37 | the idle process alone is in the table, with pid 0 |
| `Scheduler.Scheduler.Examine` | src/process/scheduler.c:132-158 | one slot is emptied if its process is finalized, else aged and scored |
| `Scheduler.Scheduler.NextTask` | src/process/scheduler.c:127-162 | slot by slot: finalized processes leave the table, runnable ones are one older, the others are untouched; and the best one is picked |
| `Scheduler.Scheduler.GetNextProcess` | src/process/scheduler.c:104-118 | slot by slot: finalized processes left the table, the chosen one runs with age 0, every other runnable one is one older, all else is as before |
| `Scheduler.Scheduler.DecideThenCreate` | src/process/scheduler.c:71-141 | after a decision a process can be created, if one was finalized before it |
| `Starvation.PassedOverByRival` | src/process/scheduler.c:132-161 | whoever is chosen before a waiting process is one of at most 30 rivals |
| `Starvation.DecisionSpendsBudget` | src/process/scheduler.c:104-162 | each decision for another process brings the waiting one strictly closer to its turn |
| `Starvation.PassedOver` | src/process/scheduler.c:104-162 | n decisions for others use up n units of the budget |
| `Starvation.NoStarvation` | src/process/scheduler.c:104-162 | a waiting process of priority at least p is chosen within 43 - 2p decisions (41 for the lowest), 31 without priorities, whatever happens to the others |
| `Starvation.SetStatusBetween` | src/process/scheduler.c:164-173 | blocking and waking others is something the bound allows for |
| `Starvation.SetPriorityBetween` | src/process/process.c:51-63 | so is changing priorities up to 6 |
| `Starvation.KillBetween` | src/process/scheduler.c:213-239 | so is killing a family the process is not in |
| `Starvation.CreateBetween` | src/process/scheduler.c:71-93 | so is creating processes |
| `Starvation.ForegroundBetween` | src/process/scheduler.c:71-102 | so is a foreground creation, which blocks the creator and resets its age |
| `Starvation.DecidedKeepsPriorities` | src/process/scheduler.c:104-118 | a decision keeps priorities within 6 |
| `SchedulerRuns.ActionBetween` | src/process/scheduler.c:71-239 | each call of the scheduler that does not stop a process from waiting leaves it waiting and the table in order |
| `SchedulerRuns.NoStarvationByCalls` | src/process/scheduler.c:71-239 | whatever calls of the scheduler are made between decisions, as long as none stops the process from waiting, it is chosen within the bound |
| `Scheduler.Scheduler.SetStatus` | src/process/scheduler.c:164-173 | the process with the pid has the status and no waiting flags, all others are as before |
| `Scheduler.Scheduler.SetPriority` | src/process/process.c:51-63 | answer 0: the process with the pid has the priority, and nothing else changed; answer -1, exactly for unknown pids and for taking the priority of the idle process away: nothing changed |
| `Scheduler.Scheduler.GetProcess` | src/process/scheduler.c:188-197 | the first process with the pid, or null |
| `Scheduler.Scheduler.Kill` | src/process/scheduler.c:213-225 | exactly the process and everything under it is finalized, its parent is ready and waits for nothing, all else is unchanged; refused without a parent |
| `Scheduler.Scheduler.KillFamily` | src/process/scheduler.c:216-224 | the part of kill behind its test |
| `Scheduler.Scheduler.KillChildren` | src/process/scheduler.c:232-239 | every family of a child of the process is finalized; the recursion terminates because pids grow downwards |
| `KillTree.UnderSomeChild` | src/process/scheduler.c:232-239 | whoever is strictly under a process is under one of its children |
| `KillTree.UnderOneChild` | src/process/scheduler.c:232-239 | and under one only |
| `KillTree.ChildrenKill` | src/process/scheduler.c:232-239 | killing the child in one slot extends the killed families by exactly its own |
| `KillTree.KillSteps` | src/process/scheduler.c:213-225 | the order children, parent, process gives the same table as the family description |
| `KillTree.KillComposed` | src/process/scheduler.c:213-225 | the same for the whole table |
| `KillTree.KillSlots` | src/process/scheduler.c:213-239 | the family description slot by slot: who is finalized, that the parent is ready, and that pids, parents, priorities and ages stay |
| `KillTree.StatusSlots` | src/process/scheduler.c:164-173 | with unique pids the new status is that of the one process with the pid |
| `KillTree.PrioritySlots` | src/process/process.c:51-63 | and so is the new priority |
| `KillTree.KinCreate` | src/process/process.c:14-41 | a new pid and an older parent keep pids unique and parents older than children |
| `KillTree.KinDecided` | src/process/scheduler.c:104-118 | a scheduling decision keeps that order |
| `Scheduler.Scheduler.Create` | src/process/scheduler.c:71-93 | the first empty slot gets a process with the next pid and the running process as parent |
| `Scheduler.Scheduler.Schedule` | src/process/scheduler.c:71-102 | in addition a foreground process blocks its creator |
| `Scheduler.Scheduler.BlockCurrent` | src/process/scheduler.c:175-179 | the running process is blocked with the flag |
| `Scheduler.Scheduler.Clean` | src/process/scheduler.c:181-186 | a process that returned is finalized and its parent ready |
| `Semaphore.Semaphore.constructor` | src/util/semaphore.c:5-9 | the count and an empty ring |
| `Semaphore.Semaphore.Signal` | src/util/semaphore.c:11-22 | the step: one more, and the process at first is woken if the count was negative |
| `Semaphore.Semaphore.Wait` | src/util/semaphore.c:24-34 | the step: one less, and the caller is put into the ring and blocked if the count became negative |
| `Semaphore.WaitKeeps` | src/util/semaphore.c:24-34 | with at most five waiters the ring holds exactly the blocked processes in order, after a wait |
| `Semaphore.SignalKeeps` | src/util/semaphore.c:11-22 | and after a signal, which wakes the one that waited longest |
| `Semaphore.RunsKeepInvariant` | src/util/semaphore.c:11-34 | the invariant holds in every interleaving with at most five waiters |
| `Semaphore.AtMostInitCountInside` | src/util/semaphore.c:11-34 | at most the initial count of callers are past sem_wait without a signal; as many as that while anyone waits; max(0, -count) are blocked; arrival order |
| `Semaphore.SixthWaiterOverwrites` | src/util/semaphore.c:24-34 | a further waiter keeps the ring right, and the next signal fair, if and only if fewer than five wait |
| `Semaphore.SixWaiters` | src/util/semaphore.c:11-34 | after six calls of sem_wait and one of sem_signal the sixth process is woken, not the first |
| `OrderedArray.OrderedArray.constructor` | src/memory/ordered_array.c:20-29 | an empty array |
| `OrderedArray.OrderedArray.Insert` | src/memory/ordered_array.c:35-54 | the item is put behind the items that are less, below capacity |
| `OrderedArray.OrderedArray.ShiftIn` | src/memory/ordered_array.c:44-51 | the tail moves up by one cell |
| `OrderedArray.OrderedArray.Lookup` | src/memory/ordered_array.c:56-59 | the item at the index |
| `OrderedArray.OrderedArray.Remove` | src/memory/ordered_array.c:61-67 | the item at the index is taken out |
| `OrderedArray.InsertKeepsSorted` | src/memory/ordered_array.c:35-54 | a sorted array stays sorted and gains exactly the item |
| `OrderedArray.RemoveKeepsSorted` | src/memory/ordered_array.c:61-67 | a sorted array stays sorted and loses exactly the item |
| `HeapValue.FirstFit` | src/memory/kheap.c:119-145 | the first hole in index order that is large enough |
| `HeapSafety.BestFit` | src/memory/kheap.c:119-145 | with a sorted index that is a smallest hole that is large enough |
| `HeapSafety.BestForExact` | src/memory/kheap.c:119-145 | for one request the scan finds a smallest hole that is large enough if and only if no later hole that is large enough is smaller than the first one that is |
| `HeapSafety.BestFitExact` | src/memory/kheap.c:119-145 | it does so for every request if and only if every hole behind a larger one has a hole of its own size in front of that one |
| `HeapOrder.GrowingSortedExact` | src/memory/kheap.c:231-239 | growing a hole in place keeps the index sorted if and only if the next hole is as large |
| `HeapOrder.GrownSortedExact` | src/memory/kheap.c:195-241 | the index is sorted after the expansion if and only if the grown hole is not larger than the next one in the index |
| `HeapOrder.CutSortedExact` | src/memory/kheap.c:244-303 | a cut leaves the index sorted if and only if the other holes were, whatever the size of the one cut |
| `HeapOrder.AllocKeepsSorted` | src/memory/kheap.c:188-307 | halloc keeps a sorted index sorted for every request, in every sound heap: the hole an expansion puts out of order is the one the same call cuts |
| `HeapOrder.FreeSortedExact` | src/memory/kheap.c:309-389 | hfree keeps a sorted index sorted if and only if it does not merge to the left, or the merged hole is not larger than the next one left in the index; with merges on both sides and stale footers elsewhere |
| `HeapOrder.RunSortedExact` | src/memory/kheap.c:188-389 | over any run of halloc and hfree the index stays sorted if and only if no hfree grows a hole past the next one |
| `HeapOrder.OrderlyRunsFitBest` | src/memory/kheap.c:160-389 | after such a run from create_heap on the scan is a best fit for every request |
| `HeapValue.GrownFits` | src/memory/kheap.c:195-241 | after the expansion a hole fits, so halloc calls itself at most once |
| `HeapSafety.Covered` | src/memory/kheap.c:151-186 | in a tiled heap every address lies in exactly one block or hole |
| `HeapSafety.TilingUnique` | src/memory/kheap.c:244-306 | the headers determine the tiling |
| `HeapSafety.CutKeeps` | src/memory/kheap.c:244-306 | cutting a block from a hole keeps tiling, footers, index and apartness of holes |
| `HeapSafety.CutAllocates` | src/memory/kheap.c:244-306 | the block is new and large enough, and every other allocated block is where and as it was |
| `HeapSafety.GrownExact` | src/memory/kheap.c:195-241 | growing the endmost hole keeps the tiles if and only if that hole abuts the end or there is none |
| `HeapSafety.GrownOverlaps` | src/memory/kheap.c:231-239 | if the endmost hole does not abut the end, the block behind it is live and begins inside the grown hole |
| `HeapSafety.AllocKeeps` | src/memory/kheap.c:188-307 | halloc keeps a sound heap sound, found hole or expansion, and adds exactly one block |
| `HeapSafety.AllocRoomExact` | src/memory/kheap.c:191-254 | the block has room for the request if and only if size + 17 fits 32 bits |
| `HeapFree.MergesAre` | src/memory/kheap.c:329-343 | the tags decide the merges: left if and only if a hole ends at the block, right through an indexed hole |
| `HeapFree.FreeKeeps` | src/memory/kheap.c:309-389 | hfree below the heap end keeps tiling, index and apartness of holes and every other block, up to the footer of a hole merged to the right |
| `HeapFree.BackPointersExact` | src/memory/kheap.c:340-347 | all footers are right afterwards if and only if the block was not merged to the right |
| `HeapFree.StaleFooterBreaksNextFree` | src/memory/kheap.c:331-338 | after a merge to the right, freeing the next block merges into the wrong header and leaves no sound tiling |
| `HeapFree.FreeUndoesCut` | src/memory/kheap.c:188-389 | freeing the block just cut gives back tiles, headers and indexed holes |
| `HeapRuns.CreatedSound` | src/memory/kheap.c:151-186 | create_heap makes a sound heap with one hole up to the end |
| `HeapRuns.OneHoleAtEnd` | src/memory/kheap.c:205-217 | a hole at the end only means at most one index entry, and it abuts the end |
| `HeapRuns.AllocsKeep` | src/memory/kheap.c:188-307 | any run of halloc calls keeps that, and every block it returned in place |
| `HeapRuns.RunsFromCreate` | src/memory/kheap.c:151-307 | from create_heap on, any run: at most one hole, abutting the end; blocks disjoint and inside the heap |
| `HeapPlaces.AllocPlaced` | src/memory/kheap.c:188-307 | where halloc puts a block, and how far it moves the heap end |
| `HeapPlaces.CutExact` | src/memory/kheap.c:251-303 | a block takes what is asked for and the rest is a hole, unless less than two tags would be left |
| `HeapPlaces.FreePlaced` | src/memory/kheap.c:309-389 | what hfree makes of the tags and the index, in any heap whose tags allow it |
| `HeapPlaces.RunAligned` | src/memory/kheap.c:67-391 | a heap of whole pages has whole pages after every run of halloc and hfree |
| `HeapPlaces.RunsFromCreateAligned` | src/memory/kheap.c:67-391 | so it is from create_heap with an aligned end on; the first hole begins at the page boundary behind the index |
| `HeapMixedRuns.HallocSound` | src/memory/kheap.c:188-307 | halloc keeps a sound heap sound in any run with frees, and adds one block of its own |
| `HeapMixedRuns.HfreeSound` | src/memory/kheap.c:309-391 | hfree of an owned block keeps it sound, up to the footer of a hole merged to the right, and every other block |
| `HeapMixedRuns.RunSound` | src/memory/kheap.c:188-391 | any run of halloc and hfree calls that can be served keeps the heap sound |
| `HeapMixedRuns.RunKeepsBlock` | src/memory/kheap.c:188-391 | a block that a run does not free keeps its place and size |
| `HeapMixedRuns.OwnedApart` | src/memory/kheap.c:188-391 | owned blocks are disjoint and inside the heap |
| `HeapMixedRuns.RunsOwnDisjointBlocks` | src/memory/kheap.c:151-391 | so they are after any run from create_heap on, and have room for what was asked for |
| `HeapWitnesses.StaleFooterReached` | src/memory/kheap.c:151-391 | four blocks, of which the second and the first are freed: the third then cannot be freed soundly |
| `HeapWitnesses.OverlapReached` | src/memory/kheap.c:151-307 | two blocks that fill a page, the first freed: a request for a page grows a hole over the second block |
| `HeapWitnesses.MissReached` | src/memory/kheap.c:119-391 | five blocks, of which the fourth, the first and the second are freed: the index is out of order, and the scan misses the smallest hole |
| `KernelHeap.Heap.constructor` | src/memory/kheap.c:151-186 | the heap value create_heap makes |
| `KernelHeap.Heap.FindSmallestHole` | src/memory/kheap.c:119-145 | the first fit, or -1 |
| `KernelHeap.Heap.Expand` | src/memory/kheap.c:67-90 | from one page on, the new length is the page boundary behind the length asked for |
| `KernelHeap.Heap.FindEndmost` | src/memory/kheap.c:205-217 | the index of the hole with the largest address, or -1 |
| `KernelHeap.Heap.Grow` | src/memory/kheap.c:195-239 | the grown heap value, with its end on the page boundary behind the old length plus what is needed |
| `KernelHeap.Heap.CutHole` | src/memory/kheap.c:244-303 | the cut heap value |
| `KernelHeap.Heap.TakeBlock` | src/memory/kheap.c:244-285 | its first part: the hole leaves the index, and its front becomes a block |
| `KernelHeap.Heap.AddRest` | src/memory/kheap.c:289-303 | its last part: what is left of the hole becomes a hole |
| `KernelHeap.Heap.Halloc` | src/memory/kheap.c:188-307 | the heap value and address after halloc: the first hole that is large enough, without moving the end; else the endmost hole or the old end, with the end moved to the next page boundary; one recursive call at most |
| `KernelHeap.Heap.Hfree` | src/memory/kheap.c:309-391 | the heap value after hfree, tag by tag: the block is a hole joined with those in front and behind, and enters the index unless joined in front; a null pointer changes nothing |
| `KernelHeap.Heap.JoinLeft` | src/memory/kheap.c:315-338 | its first part: the block is marked and joined with a hole in front of it |
| `KernelHeap.Heap.JoinRight` | src/memory/kheap.c:340-359 | its second part: a hole behind it is joined and leaves the index |
| `KernelHeap.SoundIsFreeReady` | src/memory/kheap.c:315-359 | in a sound heap every allocated block below the end may be freed |
| `Numerals.NumberBaseNToString` | src/lib/printf.c:92-119 | the numeral of the number, terminated, in at most 32 of the 40 digit cells; the rest of the buffer is kept |
| `Numerals.TakeDigits` | src/lib/printf.c:99-108 | the digits are collected from the last one on |
| `Numerals.WriteDigits` | src/lib/printf.c:110-113 | and written in reverse |
| `Numerals.NumeralDenotes` | src/lib/printf.c:92-119 | the text denotes the number in digits of the base, without leading zero |
| `Numerals.NumeralUnique` | src/lib/printf.c:92-119 | and is the only such text |
| `Numerals.NumeralLength` | src/lib/printf.c:93-108 | the number of digits is fixed by the powers of the base |
| `Numerals.PutDigits` | src/lib/printf.c:168-179 | the digits of a magnitude are put below a position |
| `Numerals.Itoa` | src/lib/printf.c:165-183 | the decimal text of any int, the minimum included, inside the 21 bytes |
| `Numerals.DecimalLength` | src/lib/printf.c:163-167 | eleven characters are enough |
| `Atoi.AToI` | src/lib/stdlib.c:34-41 | every character is taken for a digit, in wrapping 32-bit arithmetic |
| `Atoi.ReadingNumeral` | src/lib/stdlib.c:36-39 | digits behind a prefix shift it by a power of ten |
| `Atoi.ReadsBackExact` | src/lib/stdlib.c:34-41 | atoi reads back what itoa printed if and only if the number is not negative, or is -2115098112 |
| `CStrings.StrCmp` | src/lib/string.c:12-19 | zero if and only if the texts are equal, else the difference, as signed bytes, at the first place where they differ |
| `Printf.MemCpy` | src/lib/stdlib.c:20-27 | the bytes are copied behind what is already there, and the rest of the buffer is kept |
| `Printf.SPrintf` | src/lib/printf.c:121-161 | every argument in place of its conversion, terminated; the number of conversions; the rest of the buffer is kept |
| `Printf.ArgShown` | src/lib/printf.c:130-151 | a character is shown as it is, a string up to its terminator, a number in decimal with its sign |
| `Printf.FormattedUnknown` | src/lib/printf.c:130-151 | an unknown conversion shows nothing and takes no argument |
| `Printf.ConversionsUsed` | src/lib/printf.c:121-161 | exactly as many arguments are used as there are conversions that show one |
| `Printf.Convert` | src/lib/printf.c:130-151 | one conversion: the argument is put behind what is there, and the rest of the buffer is kept |
| `Tokens.StrSpn` | src/lib/string.c:90-100 | the number of leading separators |
| `Tokens.StrPBrk` | src/lib/string.c:125-136 | the first separator, or none |
| `Tokens.NextTokenIs` | src/lib/string.c:112-121 | a token is the first longest run without separators |
| `Tokens.Tokenizer.StrTok` | src/lib/string.c:102-123 | the token, the terminator put behind it, and the saved position |
| `Tokens.TokenText` | src/lib/string.c:118-122 | the token reads as such, and the rest of the text is left at the saved position |
| `Tokens.NextPiece` | src/lib/string.c:102-123 | successive calls take the text apart piece by piece |
| `Tokens.PieceOf` | src/lib/string.c:112-121 | a text without separators in front of one is the next piece |
| `Groups.StrCpy` | src/lib/string.c:42-47 | the text and its terminator overwrite the start of the buffer |
| `Groups.GroupTable.constructor` | src/access/group.c:137-141 | no row is set |
| `Groups.GroupTable.Add` | src/access/group.c:30-43 | a free row in range is set with empty name and password |
| `Groups.GroupTable.Delete` | src/access/group.c:45-53 | a set row is unset; an unset or unknown one is refused |
| `Groups.GroupTable.Find` | src/access/group.c:205-212 | the first set row with the name, or none |
| `Groups.GroupTable.IsValidFormat` | src/access/group.c:229-236 | no colon in the text |
| `Groups.GroupTable.SetGroupname` | src/access/group.c:91-116 | set if and only if the row is set and the name is given, not empty, without colon and free |
| `Groups.GroupTable.SetPassword` | src/access/group.c:118-135 | set if and only if the row is set and the password has no colon |
| `Groups.RecordFormatted` | src/access/group.c:146-150 | the template gives gid, name and password with colons between |
| `Groups.GroupTable.GroupString` | src/access/group.c:143-156 | the record of a set row as text, an empty text else |
| `Groups.ParsedRecord` | src/access/group.c:177-197 | the tokens of a printed record are its fields |
| `Groups.GroupTable.Parse` | src/access/group.c:177-203 | accepted if and only if the gid is in range and free and the name is there and free; then exactly that row is new, else no set row changes |
| `Groups.PrintThenParse` | src/access/group.c:143-203 | printing and parsing rebuilds the record if and only if gid and name are free in the table parsed into |

## Left out

- DiskManager.DiskManager.Reserve: requires enough free blocks; the branch for a full drive walks a page that was never written.
- DiskManager.DiskManager.Extend: the same, for the blocks of the estimate.
- DiskManager.DiskManager.MakeRoom: the same, if the write does not fit.
- DiskManager.DiskManager.WriteEntry: the same, and an entry with the magic number must fit its chain.
- DiskManager.DiskManager.WriteContents: the same, and an offset up to the length or behind full pages; `WriteOverGap` has the other offsets.
- DiskManager.DiskManager.WriteOverGap: the same, and an end below 2^32.
- DiskManager.DiskManager.ReadContents: requires the slice to lie within the length, because the loop does not test for the last page.
- DiskManager.DiskManager.ReadEntry: the same.
- DiskManager.DiskManager.ReadChain: the same.
- DiskManager.DiskManager.ReadNextPages: the same.
- DiskManager.DiskManager.CreateINode: leaves out inode numbers from 128 on, whose entries lie over the bitmap of blocks.
- DiskManager.DiskManager.SetINode: says what entries from 142 on, which lie over the blocks, do to the flat array only.
- DiskManager.DiskManager.Delete: of a live inode; `DeleteEntry` has the others whose entry has the magic number.
- DiskManager.DiskManager.DeleteThenWrite: right after the deletion; `DeadInodes.WriteThrough` has later writes.
- DiskManager.DiskManager.ReadINode: a name without a terminator is copied up to the end of its field, where the code copies on.
- DiskManager.DiskManager.WriteFitting: leaves out writes through a dead entry that need more blocks than it counts.
- DiskManager.DiskManager.GetFileHeader: leaves out dead inodes whose entry has the magic number.
- DiskManager.DiskManager.WriteHeader: the number of nodes written into the header is a parameter.
- FileRuns.FileStore.Run: requires every request to be admissible for the abstract store: enough free blocks, an inode number below 128, a write within or right behind the contents, a read within them.
- DirectoryRuns.FileTree.Run: the same for the tree; names are below 24 bytes, and the number that marks a removed record is not removed.
- DiskCache.Cache.Read: requires a known drive and sectors below 0x8000, the one behind the transfer included; `ReadAny` has the other sectors. Access counters do not overflow.
- DiskCache.Cache.Write: the same; a flush by the timer in the middle of a write is left out, cache operations are atomic.
- DiskCache.Cache.Flush: of a cache that was asked for sectors below 0x8000 only; `FlushAny` has the others.
- DiskCache.Cache.Fetch: requires a known drive, as `ReadAny`, `WriteAny` and `CacheSector` do; from another one the driver reads nothing, and the slot keeps what it held.
- CacheCounts.HitsCounted: of transfers that end inside one sector below 0x8000, as `HitCounts`, `MissCounts` and `LeastUsedGivenUp`.
- CacheLimits.ReadAfterWriteExact: of transfers that end inside one sector, as `HighReadAfterWrite` and `ReadAfterWriteOnRuns`.
- CacheRuns.Handle: sectors below 0x8000 only.
- CacheRuns.Replay: sectors below 0x8000 only.
- Directories.Directories.AppendFile: requires the blocks that one more record takes to be free.
- Directories.Directories.AddRecord: of a record that takes no further block.
- Directories.Directories.NewFile: requires an inode number below 128 and a block to be free, because the code does not test the answer -1.
- Directories.Directories.CreateDir: the same, if the name is made; access rights are a parameter.
- Directories.Directories.RemoveDir: requires the matching record to name a live inode other than the directory, which the invariant of `FileTrees` provides; session and permission tests are left out.
- Scheduler.Scheduler.GetNextProcess: leaves out the saved stack pointer, page flipping, the switch counter and the log of the last hundred processes.
- Scheduler.Scheduler.Create: pids are unbounded integers; stack frames, terminals and argument lists are left out. A full table is refused, where the code reads one slot past its end first.
- Scheduler.Scheduler.BlockCurrent: without the switch to another process that follows.
- Scheduler.Scheduler.Clean: without the switch that follows.
- Semaphore.AtMostInitCountInside: wake-ups come from sem_signal only, and at most five processes wait; the count is unbounded.
- SchedulerRuns.NoStarvationByCalls: the calls are steps on the table; that the methods of the scheduler take these steps is in their contracts.
- HeapSafety.AllocKeeps: addresses are unbounded integers, requests are not page-aligned, and an expansion finds the endmost hole at the end; `GrownExact` and `GrownOverlaps` have the other case.
- OrderedArray.OrderedArray.Insert: below capacity; the code writes behind a full array.
- OrderedArray.OrderedArray.Remove: below capacity; the code reads behind a full array.
- KernelHeap.Heap.FindSmallestHole: without page alignment.
- KernelHeap.Heap.Halloc: without page alignment, and with room for one more index entry; mapping of page frames is left out.
- KernelHeap.Heap.Hfree: leaves out frees whose hole reaches the heap end, where the contraction does not round to pages, and frees of addresses without tags, where the code only logs.
- KernelHeap.Heap.constructor: requires the first address behind the index to lie below the end.
- HeapOrder.FreeSortedExact: of blocks that may be freed, as in `FreeKeeps`.
- HeapFree.FreeKeeps: leaves the footer of a hole merged to the right out of what is kept, as the code does not write it.
- Tags in memory: headers and footers are kept by address apart from user data; data written over a tag, or data that looks like one, is left out. Sound heaps have no overlapping tags.
- Groups.GroupTable.Find: passes over unset rows, where the code follows a null pointer.
- Groups.GroupTable.Parse: requires a first token, a password behind every name, and lengths below 32 and 16; without them the code follows a null pointer or overruns a buffer.
- Printf.SPrintf: requires an argument of the right type for every conversion, no lone percent sign at the end, and room for the output.
- Caller buffers: messages handed to the drivers are sequences, so overlapping caller buffers are left out.
- Locals the code does not initialise are parameters or arbitrary: the first count of a read, the bytes behind a name, the next fields of a last page.
- Hardware ports, polling, interrupts, paging structures and stack set-up are left out; each operation is atomic.
- The RAM array of inodes, sessions, permissions and the direct strategy of the disk manager are left out.
- The page-frame bitset, contract, pipes, lists, terminals, the shell and its commands are left out.
