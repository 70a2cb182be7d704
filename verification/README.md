# Pintos in Dafny

A model of the hard parts of the Pintos kernel, and proofs about them. The modules follow the kernel's files.

**File store.** `Words`, `Bits` and `Bitmap` are bytes, words and the bit-packed map. `BufferCache` is the 64-entry
write-back cache over the raw disk, with the flush thread free to run between its operations. `FileStore` says what a
file is: the bytes reached through direct, indirect and double-indirect sectors, every sector of every file owned for one
purpose. `FileSysState`, `FileEdit`, `FileFree` and `FileLife` prove, on values, what each step of allocation, reading,
writing, freeing, opening, closing and creating does to that. `FileCount` counts sectors: allocation spends one free
sector for each node a file gains, so two numbers known before a call decide whether it gets through. `FileSystem` is the
code itself, class, loops and mutual recursion included. `FileRuns` concludes that every sequence of calls is a run of a
table of flat byte arrays, with the exact condition for every panic and failure, and `FileBoot` that shutdown and boot
from the raw disk lose nothing.

**Threads.** `Synch` is a transition system whose steps are the interrupt-off sections of semaphores, locks and condition
variables, `SynchRuns` what holds over every interleaving, and `SynchCalls` what each call does from the call to its
return. `Scheduling` is the round-robin scheduler, the time slice and the alarm clock on values, over every run,
`SchedulingCalls` what each operation means for its thread; `Scheduler` is the code on its fields, with the sleep list as linked
elements that are unlinked in the middle of the traversal. `Donation` and `Mlfqs` are the alternative configuration:
priority donation through chains of locks, and the fixed-point arithmetic of the feedback scheduler.

**Allocator.** `Arenas` is the block arithmetic and the invariant of `malloc`, `Malloc` the code over the page pool, whose
pages are a `Bitmap` and whose bytes are an array.

**Library.** `KernelList` is the doubly linked list with the in-place natural merge sort, `MergeSort` the same sort on
sequences; `HashTable` the resizing hash table; `Arithmetic` 64-bit division from a 64-by-32-bit divide; `Printf`,
`PrintfAtoi`, `PrintfShape`, `ParseConversion`, `Snprintf` and `Atoi` integer conversion both ways.

How things are modelled:

- Assertions and panics of the kernel are preconditions where the caller is to blame. Where a call may panic whatever the
  caller does (too few free sectors, a removed file with holes), the method returns a flag and its contract says exactly
  when, in terms of the state before the call.
- File-system calls are serialised, as by the system-call lock. Between cache operations the flush thread may run.
- `disk_read` and `disk_write` are a sequence of sectors read and updated; `divl` is division whose precondition is that
  it does not trap; `va_arg` is a function from positions to values; whether `malloc` succeeds inside the hash table
  is a parameter.
- Fixed widths are written out: 32-bit words in the bitmap and the inodes, `% 2^32` and two's complement wrap-around in
  the arithmetic, in `atoi`, in field widths and precisions, in the counters of `vsnprintf`, in the page count of big
  blocks and in a new thread's recentCpu.

Where the code does not do what its comments promise, the model follows the code, and a lemma gives the exact condition:

- `free_blocks` says it frees every block of a file; it gets through, and frees everything, only without holes among the
  direct blocks, missing index sectors, or blocks past the length (`FileSystem.FreeBlocks`, `FileLife.NothingLeaked`).
- `umod64` and `smod64` return 32 bits of a 64-bit remainder (`UModExact`, `SModExact`).
- `malloc` of a size within 12 bytes of 2^32 returns a single page (`PageCountEnough`).
- A negative field width, written as a `*` argument or as a number that does not fit an int, sets the minus flag after the
  zero flag has been looked at, and the field comes out too wide (`ParsedFieldWidth`).
- `vsnprintf` counts in an int: an output or a buffer longer than 2^31 is stored wrongly, and a length of 2^31 or more is
  not what it returns (`SnprintfInt`).
- Under the group flag `printf` writes what `atoi` does not read back (`AtoiUndoesFormat`).
- A creation that fails loses the sectors it had allocated (`FileRuns.DoCreate`).
- A read beyond the end of a file allocates blocks; no file shows it (`FilesRead`).

## Model

| member | source | states |
|---|---|---|
| `Bitmap.Bitmap.constructor` | src/lib/kernel/bitmap.c:79-94 | a new map of cnt bits, all false |
| `Bitmap.Bitmap.Mark` | src/lib/kernel/bitmap.c:158-167 | exactly bit i becomes true, whatever words the bits are packed in |
| `Bitmap.Bitmap.Reset` | src/lib/kernel/bitmap.c:171-180 | exactly bit i becomes false |
| `Bitmap.Bitmap.Flip` | src/lib/kernel/bitmap.c:186-195 | exactly bit i changes |
| `Bitmap.Bitmap.Test` | src/lib/kernel/bitmap.c:199-204 | the value of bit i of the abstract bit sequence |
| `Bitmap.Bitmap.SetMultiple` | src/lib/kernel/bitmap.c:219-229 | exactly the bits from start to start + cnt take the value |
| `Bitmap.Bitmap.Contains` | src/lib/kernel/bitmap.c:252-264 | true if and only if not every bit of the range has the opposite value |
| `Bitmap.Bitmap.Scan` | src/lib/kernel/bitmap.c:297-311 | the least group of cnt equal bits at or after start; none is reported only if there is none |
| `Bitmap.Bitmap.ScanAndFlip` | src/lib/kernel/bitmap.c:321-327 | the same group, which then has the opposite value; nothing else changes, and nothing at all on failure |
| `Bitmap.BitLastMask` | src/lib/kernel/bitmap.c:66-70 | the last mask has ones exactly in the bit positions the last word uses |
| `Bitmap.ElemCntSuffices` | src/lib/kernel/bitmap.c:49-54 | the fewest words that hold that many bits |
| `Bitmap.Bitmap.LoadImage` | src/lib/kernel/bitmap.c:342-352 | reading a stored map gives each bit of the image and clears the padding |
| `Bitmap.ImageRoundTrip` | src/lib/kernel/bitmap.c:342-361 | a map written to a file and read back has the same bits |
| `BufferCache.ViewIsDetermined` | src/filesys/cache.c:22-58 | disk and cache list determine the bytes every sector shows (the cached copy if there is one, else the disk) |
| `BufferCache.EvictKeepsView` | src/filesys/cache.c:34-58 | writing the oldest entry back before dropping it changes no sector as seen through the cache |
| `BufferCache.FillKeepsView` | src/filesys/cache.c:75-89 | an entry filled from disk changes no sector as seen through the cache |
| `BufferCache.MissKeepsView` | src/filesys/cache.c:34-89 | a whole miss, eviction included, changes no sector as seen through the cache |
| `BufferCache.PutKeepsView` | src/filesys/cache.c:91-105 | bytes put into a cached entry show in its sector and in no other |
| `BufferCache.DropKeepsOthers` | src/filesys/cache.c:60-73 | dropping an entry uncovers the disk contents of that sector and of no other |
| `BufferCache.CacheTable.constructor` | src/filesys/cache.c:10-20 | an empty cache shows the disk |
| `BufferCache.CacheTable.Find` | src/filesys/cache.c:22-32 | the position of the one entry for a block, or that there is none |
| `BufferCache.CacheTable.AllocateCache` | src/filesys/cache.c:34-58 | at the size limit the first entry leaves, written back, and the new one is last; below it nothing leaves; the list is never empty there |
| `BufferCache.CacheTable.Load` | src/filesys/cache.c:75-105 | the sector is cached afterwards and no sector shows other bytes; a hit leaves the list alone, a miss puts the sector last, at the limit in place of the first |
| `BufferCache.CacheTable.Read` | src/filesys/cache.c:75-89 | returns the bytes the sector shows and changes none, with a flush allowed before and after |
| `BufferCache.CacheTable.Write` | src/filesys/cache.c:91-105 | the sector shows the written range changed, exactly that, and no other sector changes |
| `BufferCache.CacheTable.Flush` | src/filesys/cache.c:107-115 | afterwards the raw disk is what every sector shows, and nothing shown has changed |
| `BufferCache.CacheTable.MayFlush` | src/filesys/cache.c:117-122 | the flush thread may run between cache operations without changing anything shown |
| `BufferCache.CacheTable.FreeCache` | src/filesys/cache.c:60-73 | the entry is gone without write-back, the size counter untouched, and the table is still not empty if the counter is positive |
| `BufferCache.CacheTable.Destroy` | src/filesys/cache.c:124-134 | everything is on the disk and nothing is cached |
| `BufferCache.CacheTable.DiskWrite` | src/filesys/inode.c:344-344 | a header written past the cache shows at once, because headers are never cached |
| `FileStore.DistinctSectors` | src/filesys/inode.c:55-123 | two different (file, node) pairs, data blocks and index sectors alike, never have the same sector |
| `FileStore.SetSectorResolve` | src/filesys/inode.c:55-123 | a write to any sector but a live index sector moves no block of any file |
| `FileStore.ResolveThrough` | src/filesys/inode.c:71-121 | how a block behind one or two index sectors is reached |
| `FileStore.LinkResolve` | src/filesys/inode.c:55-123 | installing a new sector changes where that one node is and no other |
| `FileStore.LinkByte` | src/filesys/inode.c:55-123 | installing a new sector changes no byte of any file: fresh data blocks read as the zeros of the hole |
| `FileStore.LinkKeepsWf` | src/filesys/inode.c:55-123 | installing an unused sector keeps all sectors of all files distinct, marked used and owned for one purpose |
| `FileStore.PokeByte` | src/filesys/inode.c:453-472 | writing inside one block changes exactly the bytes covered, of exactly one file |
| `FileStore.PokeKeepsWf` | src/filesys/inode.c:453-472 | writing data keeps the store well formed, zero tails included |
| `FileStore.InodeRoundTrip` | src/filesys/inode.c:268-349 | a header stored in its sector and read back is the same header |
| `FileSysState.MarkKeeps` | src/filesys/free-map.c:27-40 | between marking a sector and writing the map to its file the invariant of the system holds |
| `FileSysState.AllocatedCanLink` | src/filesys/inode.c:55-123 | a sector the free map has just handed out may be installed where the hole was, even after the nested write to the free-map file |
| `FileSysState.LinkGrows` | src/filesys/inode.c:55-123 | installing an allocated sector only adds a mapping: nothing moves and no file shows another byte |
| `FileSysState.LinkKeepsInv` | src/filesys/inode.c:55-123 | installing an allocated sector keeps the invariant of the whole system |
| `FileEdit.LengthKeepsInv` | src/filesys/inode.c:443-445 | raising the length of a file uncovers only zeros and keeps the invariant |
| `FileEdit.EditAllocate` | src/filesys/inode.c:447-451 | allocate_block in the middle of a read or write keeps what has been written so far |
| `FileEdit.EditPoke` | src/filesys/inode.c:447-505 | after the next chunk the file shows the old bytes with one chunk more of the buffer written over them |
| `FileEdit.EditEnd` | src/filesys/inode.c:447-509 | the file after the loop, seen from the state before the call |
| `FileEdit.WholeFileWritten` | src/lib/kernel/bitmap.c:357-361 | after bitmap_write the free-map file holds exactly the bits of the free map |
| `FileEdit.ContentWritten` | src/filesys/inode.c:429-509 | the file is the old byte array overwritten at offset: extended if need be, the gap zero, nothing else changed |
| `FileEdit.FilesWritten` | src/filesys/inode.c:429-509 | a write changes one byte array and no other |
| `FileEdit.FilesRead` | src/filesys/inode.c:364-421 | a read, although it allocates the holes it meets, changes no byte array |
| `FileFree.ClearKeepsInv` | src/filesys/free-map.c:44-49 | clearing the bit of a sector no live file uses keeps the invariant |
| `FileFree.ReleaseClears` | src/filesys/free-map.c:44-49 | free_map_release gives up one sector, and the free-map file follows |
| `FileFree.LeaveLimboInv` | src/filesys/inode.c:136-176 | after free_map_release and free_cache nobody owns the sector and the invariant holds again |
| `FileFree.OtherSectorCached` | src/filesys/inode.c:136-176 | the free-map block that release leaves cached is not the sector free_cache is about to drop, so the cache never becomes empty under a positive size |
| `FileFree.DyingDistinct` | src/filesys/inode.c:125-178 | the sectors of distinct nodes of the file being freed are distinct |
| `FileFree.NotYetFreed` | src/filesys/inode.c:125-178 | walking down from the last block, an index sector whose turn has not come has not been given up: no index sector is read after its release |
| `FileFree.Survivor` | src/filesys/inode.c:125-178 | what has not been given up yet still holds what it held |
| `FileFree.OwnedBetweenStep` | src/filesys/inode.c:125-178 | one position down, the sectors given up are exactly one more data block and the index sectors that start there |
| `FileFree.SectorsSuffice` | src/filesys/inode.c:18-22 | bytes_to_sectors is the fewest sectors that hold that many bytes |
| `FileLife.DropHeader` | src/filesys/inode.c:327-337 | the removed file leaves the table and its sectors are the ones about to be freed |
| `FileLife.CloseWritesBack` | src/filesys/inode.c:342-345 | after the last close the header is in its sector and every file is as it was |
| `FileLife.OpenReadsBack` | src/filesys/inode.c:268-298 | opening gives the header the last close stored |
| `FileLife.Register` | src/filesys/inode.c:208-229 | a new header without blocks reads as zeros and keeps the invariant |
| `FileLife.FilesCreated` | src/filesys/inode.c:194-262 | a successful creation adds one byte array of zeros of the given length and changes no other |
| `FileLife.GaveBackHolds` | src/filesys/inode.c:332-341 | freeing a removed file clears the bits of its header, its blocks and its index sectors, once each, and no other bit |
| `FileLife.NothingLeaked` | src/filesys/inode.c:125-178 | every sector of the file is given back if and only if it had no block past its length |
| `FileLife.Reload` | src/filesys/free-map.c:53-60 | the map read back from its file has the bits it had |
| `FileLife.MapClosed` | src/filesys/free-map.c:64-67 | closing the free-map file leaves it with its header, its length, all its blocks and the bits of the map |
| `FileLife.HeaderStored` | src/filesys/inode.c:342-345 | the sector of a closed file decodes to its header |
| `FileLife.ShutdownPersists` | src/filesys/filesys.c:53-60 | the raw disk alone holds every closed file, found from its header sector with the bytes it had, and through the header of the free-map file the bits of the free map |
| `FileCount.Conservation` | src/filesys/inode.c:55-123 | allocation for a file takes exactly one free sector for each block or index sector the file gains |
| `FileCount.GotThem` | src/filesys/inode.c:55-123 | whoever got all of some nodes had a free sector for each it lacked |
| `FileCount.RanOut` | src/filesys/inode.c:55-123 | whoever lacks one when the disk is full had fewer free sectors than nodes to provide |
| `FileCount.FullAddsNothing` | src/filesys/inode.c:55-123 | on a full disk no node can be added to any file |
| `FileCount.AllThere` | src/filesys/inode.c:71-121 | a range of blocks that are all there has all the index sectors on the way to them |
| `FileCount.PathsCount` | src/filesys/inode.c:55-123 | how many sectors a file of n blocks takes: the blocks, one indirect and one double-indirect sector, and a second-level sector for each 128 blocks |
| `FileCount.EditDecided` | src/filesys/inode.c:429-509 | a write gets through if and only if the free sectors suffice for the blocks and index sectors missing in its range, and then has spent exactly that many |
| `FileCount.ReadDecided` | src/filesys/inode.c:364-421 | a read gets through if and only if the free sectors suffice for the blocks and index sectors missing below its end; it spends one for each node missing in what it asks for, the block at the end of the file included, or all there are |
| `FileCount.CreateDecided` | src/filesys/inode.c:229-234 | a file can be created if and only if there is a free sector for each of its blocks and index sectors |
| `FileCount.StillLacking` | src/filesys/inode.c:229-234 | inode_create goes on after a failure, in vain |
| `FileSystem.FileSystem.constructor` | src/filesys/filesys.c:26-43 | what filesys_init starts from: an empty cache over the disk, no open file, and a map with the two system sectors marked |
| `FileSystem.FileSystem.FreeMapAllocate` | src/filesys/free-map.c:27-40 | success hands out a sector that was free and marks it, and the free-map file agrees; failure only if the disk is full, with nothing changed |
| `FileSystem.FileSystem.BitmapWrite` | src/lib/kernel/bitmap.c:357-361 | the free-map file holds the map afterwards; the nested write needs no new block, which is why the recursion ends |
| `FileSystem.FileSystem.Install` | src/filesys/inode.c:84-90 | the pointer is stored and the sector filled, as LinkSys says |
| `FileSystem.FileSystem.NewNode` | src/filesys/inode.c:84-90 | a missing node is there afterwards and every other node where it was, for one free sector; otherwise the disk is full |
| `FileSystem.FileSystem.ReadPointer` | src/filesys/inode.c:83-83 | a pointer read through the cache changes nothing shown |
| `FileSystem.FileSystem.NodeBelow` | src/filesys/inode.c:83-90 | the node an index sector points to, provided if it is missing: every other node stays where it was, one free sector is spent at most, and failure means a full disk |
| `FileSystem.FileSystem.AllocateBlock` | src/filesys/inode.c:55-123 | the sector of the block, allocated with its index sectors if missing; existing mappings never move, no byte of any file changes, the sectors newly used are exactly those of the nodes added on the way to this block, and failure means a full disk |
| `FileSystem.FileSystem.AllocateIndirect` | src/filesys/inode.c:71-90 | the same for the indirect range |
| `FileSystem.FileSystem.AllocateSecond` | src/filesys/inode.c:91-111 | the second-level index sector on the way to a block |
| `FileSystem.FileSystem.AllocateDouble` | src/filesys/inode.c:91-121 | the same for the double-indirect range |
| `FileSystem.FileSystem.WriteChunk` | src/filesys/inode.c:447-505 | one more chunk of the buffer is in the file, and the loop makes progress |
| `FileSystem.FileSystem.PutChunk` | src/filesys/inode.c:453-472 | the bytes of the chunk are in the block and nowhere else |
| `FileSystem.FileSystem.WriteAll` | src/filesys/inode.c:447-505 | all of the buffer is in the file, or the disk is full |
| `FileSystem.FileSystem.WriteUndenied` | src/filesys/inode.c:443-509 | inode_write_at past the test for denied writes: the file overwritten, at the cost of the missing nodes, if and only if these fit |
| `FileSystem.FileSystem.InodeWriteAt` | src/filesys/inode.c:429-509 | all bytes written and the file the old array overwritten at offset; a denied write writes nothing; a panic if and only if the write is not denied and the free sectors are fewer than the blocks and index sectors missing in its range, which otherwise is what it costs; a write inside allocated blocks touches no other file, header or bit |
| `FileSystem.FileSystem.ReadChunk` | src/filesys/inode.c:374-417 | one more chunk of the file, or the end of it |
| `FileSystem.FileSystem.GetChunk` | src/filesys/inode.c:391-391 | the bytes of the block, which are those of the file, with nothing changed |
| `FileSystem.FileSystem.ReadAll` | src/filesys/inode.c:374-417 | the slice of the file that was asked for |
| `FileSystem.FileSystem.InodeReadAt` | src/filesys/inode.c:364-421 | min(size, length - offset) bytes of the file as it was, and no file changes although holes are allocated; a panic if and only if the free sectors are fewer than the nodes missing below the end of the read; otherwise what it asks for is what it costs, as far as the free sectors go |
| `FileSystem.FileSystem.FreeMapRelease` | src/filesys/free-map.c:44-49 | the sector is free, in memory and in the free-map file, and some free-map block is cached |
| `FileSystem.FileSystem.ReleaseNode` | src/filesys/inode.c:136-176 | one more sector of the dying file given back, none twice |
| `FileSystem.FileSystem.ReadDyingPointer` | src/filesys/inode.c:145-161 | the pointer that was in the index sector, which has not been given back |
| `FileSystem.FileSystem.FreeIndirectAt` | src/filesys/inode.c:141-153 | a block behind the indirect sector, and with the first of them that sector |
| `FileSystem.FileSystem.FreeDoubleAt` | src/filesys/inode.c:154-176 | a block behind the double-indirect sector, with the index sectors that start there |
| `FileSystem.FileSystem.FreeBlocks` | src/filesys/inode.c:125-178 | gets through if and only if every direct block and index sector below the length is there, and then has given back exactly the sectors owned below the length, each once, leaving all others alone |
| `FileSystem.FileSystem.InodeOpen` | src/filesys/inode.c:268-298 | one more reference to a shared inode, or a fresh one with the stored header; no file changes |
| `FileSystem.FileSystem.InodeRemove` | src/filesys/inode.c:354-358 | only marks the file; it stays readable until the last close |
| `FileSystem.FileSystem.InodeDenyWrite` | src/filesys/inode.c:514-518 | one more denial, no file changes |
| `FileSystem.FileSystem.InodeAllowWrite` | src/filesys/inode.c:524-529 | one denial less, no file changes |
| `FileSystem.FileSystem.FreeRemoved` | src/filesys/inode.c:332-341 | the removed file is gone and its sectors are free; it gets through exactly when free_blocks does |
| `FileSystem.FileSystem.InodeClose` | src/filesys/inode.c:320-349 | panics if and only if it is the last close of a removed file that free_blocks cannot free; otherwise the state after it: a reference less, or the header in its sector and the inode gone, or the file gone and exactly its sectors given back |
| `FileSystem.FileSystem.CreateBlocks` | src/filesys/inode.c:229-234 | whether all blocks of the new file are there; if not, the disk is full |
| `FileSystem.FileSystem.FinishCreate` | src/filesys/inode.c:238-239 | the header is in its sector and no file changes |
| `FileSystem.FileSystem.InodeCreate` | src/filesys/inode.c:194-262 | a file of zeros with all its blocks, the length, directory flag and parent asked for, if and only if there is a free sector for each of its nodes, at that cost; otherwise no file changes and the disk is full |
| `FileSystem.FileSystem.FreeMapCreate` | src/filesys/free-map.c:72-84 | the free-map file exists, fully allocated, and holds the map, if and only if the free sectors suffice for it |
| `FileSystem.FileSystem.FreeMapClose` | src/filesys/free-map.c:64-67 | the header is in its sector, and the closed file has its length, its blocks and the bits of the map; nothing else changes |
| `FileSystem.FileSystem.FreeMapOpen` | src/filesys/free-map.c:53-60 | whatever map is in memory, afterwards it is the one on the disk, and the files are those of the disk |
| `FileRuns.DoRead` | src/filesys/inode.c:364-421 | a read is a read of a flat byte array, at the cost of the nodes missing in what it asks for; it panics if and only if the free sectors do not suffice for the nodes missing in the range |
| `FileRuns.DoWrite` | src/filesys/inode.c:429-509 | a write is a write to a flat byte array, at the cost of the nodes missing in the range; it panics if and only if it is not denied and the free sectors do not suffice for them |
| `FileRuns.DoCreate` | src/filesys/filesys.c:136-142 | creation adds one array of zeros with the directory flag and parent asked for and costs a sector for the header and for each node, or fails, if and only if the free sectors do not suffice for these; a failure changes no file and leaves one free sector at most, because the blocks allocated so far are lost |
| `FileRuns.DoClose` | src/filesys/inode.c:320-349 | a close is a close of the table of arrays; it panics if and only if it is the last close of a removed file with a hole among its direct blocks or a missing index sector |
| `FileRuns.DoSimple` | src/filesys/inode.c:268-358 | open, remove, deny, allow and flush are steps of the table of arrays |
| `FileRuns.Do` | src/filesys/inode.c:194-529 | every call is a step of the table of flat byte arrays; the state before it decides whether it panics or fails, and the free sectors are accounted for |
| `FileRuns.CacheBetweenCalls` | src/filesys/cache.c:34-73 | between calls cached sectors are distinct, marked used and never headers, entry count <= size <= 64, and eviction never meets an empty list |
| `FileRuns.SectorsBetweenCalls` | src/filesys/inode.c:55-123 | between calls sectors of different files or nodes are different and marked used, and the free-map file holds the free map |
| `FileRuns.Run` | src/filesys/inode.c:194-529 | every sequence of calls is, reply by reply, a run of the table of flat byte arrays with directory flags, parents and open counts; each call panics or fails if and only if the state before it says so, and the sectors spent and given back are accounted for throughout |
| `FileBoot.Format` | src/filesys/filesys.c:300-309 | after formatting there is one file, the root directory, of zeros, its header a directory's without parent, and the closed free-map file holds the map; it panics if and only if the free sectors do not suffice for these two |
| `FileBoot.InitFormatted` | src/filesys/filesys.c:26-49 | filesys_init with format gives a mounted system with an empty root directory, marked as a directory, if and only if the disk is big enough |
| `FileBoot.FreshFree` | src/filesys/free-map.c:13-20 | at first every sector but two is free |
| `FileBoot.InitFromDisk` | src/filesys/filesys.c:26-49 | filesys_init without format, on the sectors a shutdown left, gives a mounted system with the same files, bytes and free sectors |
| `FileBoot.FilesysDone` | src/filesys/filesys.c:54-60 | afterwards the raw disk holds every closed file: its sector decodes to its header, directory flag and parent included, and through it the disk shows its bytes; and the bits of the free map; in the header sector of a file still open is what was there before |
| `FileBoot.Restart` | src/filesys/filesys.c:26-60 | with every file closed, shutdown and boot from what is left on the disk: the same table of files, no open handles, the same free sectors |
| `KernelList.ListInsert` | src/lib/kernel/list.c:169-178 | the element stands in front of the given one in a well-formed list |
| `KernelList.ListRemove` | src/lib/kernel/list.c:257-263 | the list without that element, whose own links still lead to its old neighbours |
| `KernelList.SplicedLinked` | src/lib/kernel/list.c:184-204 | the rewritten pointers form a well-formed list in the new order |
| `KernelList.ListSplice` | src/lib/kernel/list.c:184-204 | the range stands in front of the given element and the list is well formed |
| `KernelList.FindEndOfRun` | src/lib/kernel/list.c:366-380 | the end of the maximal run that starts at the given element |
| `KernelList.InplaceMerge` | src/lib/kernel/list.c:388-407 | the two runs are merged in place, the left one first on ties |
| `KernelList.MergeNextRuns` | src/lib/kernel/list.c:429-443 | one more pair of runs merged, or the last run left alone |
| `KernelList.SortPass` | src/lib/kernel/list.c:428-443 | one pass: adjacent runs merged two by two, and their number |
| `KernelList.SortChain` | src/lib/kernel/list.c:413-448 | passes until one run is left; it stops because a pass with more than one run leaves fewer runs |
| `KernelList.List.constructor` | src/lib/kernel/list.c:61-68 | an empty well-formed list |
| `KernelList.List.PushBack` | src/lib/kernel/list.c:217-220 | the element is last |
| `KernelList.List.PushFront` | src/lib/kernel/list.c:209-212 | the element is first |
| `KernelList.List.PopFront` | src/lib/kernel/list.c:268-273 | the first element is out |
| `KernelList.List.Sort` | src/lib/kernel/list.c:413-448 | a well-formed list of the same elements, in the order of a stable sort |
| `MergeSort.RunIsMaximal` | src/lib/kernel/list.c:366-380 | a run has no descent inside and ends at one |
| `MergeSort.MergeElements` | src/lib/kernel/list.c:388-407 | merging loses and adds nothing |
| `MergeSort.MergeSorted` | src/lib/kernel/list.c:388-407 | merging sorted runs gives a sorted one |
| `MergeSort.MergeStable` | src/lib/kernel/list.c:388-407 | merging keeps equivalent elements in order |
| `MergeSort.PassRunsBound` | src/lib/kernel/list.c:422-445 | a pass at least halves the number of maximal runs, rounded up |
| `MergeSort.OneRunSorted` | src/lib/kernel/list.c:422-447 | a pass that puts out one run has sorted the list |
| `MergeSort.SortIsStableSort` | src/lib/kernel/list.c:413-448 | for every list and strict weak order the result is a sorted permutation with equivalent elements in their old order |
| `MergeSort.SortUnique` | src/lib/kernel/list.c:413-448 | and it is the only one |
| `Donation.ChainShrinks` | src/threads/thread.c:809-895 | on an acyclic graph the recursion goes to threads with strictly smaller chains behind them |
| `Donation.PriIsEffective` | src/threads/thread.c:809-824 | without mlfqs a thread runs at the highest base priority of itself and all who wait for it through any chain; with mlfqs at its own |
| `Donation.PriFromDonors` | src/threads/thread.c:809-824 | the maximum over direct donors is the maximum over chains |
| `Donation.EffectiveUnique` | src/threads/thread.c:809-824 | that priority is determined |
| `Donation.Priority` | src/threads/thread.c:809-824 | terminates with that priority, if no base priority is below PRI_MIN |
| `Donation.DonatedPriority` | src/threads/thread.c:889-895 | the highest priority among the waiters of a semaphore, PRI_MIN if there are none |
| `Donation.PriorityBack` | src/threads/thread.c:861-886 | the last of the threads with the highest current priority, whatever order the list is in |
| `Donation.PriorityPop` | src/threads/thread.c:835-859 | takes out a thread of highest current priority, even if donations have changed since it was queued, and leaves the others in order |
| `Donation.PriorityPush` | src/threads/thread.c:830-833 | the thread stands behind all of lower priority and in front of those it ties with |
| `Donation.PushKeepsQueue` | src/threads/thread.c:826-833 | a queue ordered by priority, youngest first among equals, stays so |
| `Donation.PopIsOldestUrgent` | src/threads/thread.c:835-886 | from such a queue the oldest of the most urgent threads is taken |
| `Synch.NumMove` | src/threads/synch.c:62-150 | a step of one thread changes the count of threads at a place by that thread alone |
| `Synch.TestKeepsInv` | src/threads/synch.c:62-87 | one turn of the loop of sema_down keeps the invariant, barging included |
| `Synch.RaisedKeepsInv` | src/threads/synch.c:120-150 | sema_up by a thread keeps the invariant |
| `Synch.InterruptUpKeepsInv` | src/threads/synch.c:120-150 | so does sema_up from an interrupt handler |
| `Synch.TryDownKeepsInv` | src/threads/synch.c:95-113 | so does sema_try_down |
| `Synch.AcquiredKeepsInv` | src/threads/synch.c:246-257 | so does a successful lock_try_acquire before it records the holder |
| `Synch.HolderSetKeepsInv` | src/threads/synch.c:222-237 | so does recording the holder, which no other thread can have done |
| `Synch.HolderClearedKeepsInv` | src/threads/synch.c:266-279 | so does clearing the holder before the sema_up |
| `Synch.LockTakenKeepsInv` | src/threads/synch.c:246-257 | so does lock_try_acquire in an interrupt handler, which makes the interrupted thread the holder |
| `Synch.StartWaitKeepsInv` | src/threads/synch.c:331-341 | so does joining the queue of a condition variable |
| `Synch.PopKeepsInv` | src/threads/synch.c:355-401 | so does taking the oldest waiter off the queue |
| `Synch.StepKeepsInv` | src/threads/synch.c:45-401 | every step of every thread, every interrupt and every creation and end of a thread keeps the invariant |
| `SynchRuns.RestIsInv` | src/threads/synch.c:45-51 | the invariant holds of a system at rest |
| `SynchRuns.MutualExclusion` | src/threads/synch.c:222-279 | the threads between a lock's successful down and its up number one minus its value; a holder is alone there |
| `SynchRuns.SafeOverRuns` | src/threads/synch.c:62-279 | over every interleaving: mutual exclusion, and whenever threads sleep on a semaphore its value is at most the number of woken threads yet to test again |
| `SynchRuns.WakeupGetsThrough` | src/threads/synch.c:62-150 | so a positive semaphore with sleepers has a woken thread whose next step takes a unit |
| `SynchRuns.OthersMove` | src/threads/synch.c:62-401 | a thread is moved by its own steps only, except that a sema_up may wake it |
| `SynchRuns.SemasStep` | src/threads/synch.c:62-150 | whatever a step does to a semaphore is one of these: it takes a unit, puts a thread to sleep at the back for want of one, adds a unit and wakes the thread asleep longest, or starts a cond_wait's own; which call does which is said from the calls (DownCall and the like) |
| `SynchRuns.QueuesStep` | src/threads/synch.c:331-401 | a condition variable's queue changes only by cond_wait joining at the back and a signal or broadcast taking the first |
| `SynchRuns.SignalReleasesOldest` | src/threads/synch.c:355-385 | cond_signal on a nonempty queue releases the oldest waiter and nobody else |
| `SynchRuns.WaiterStep` | src/threads/synch.c:331-345 | no waiter leaves cond_wait's sleep except by its own step after a signal released it |
| `SynchRuns.ReleaseStays` | src/threads/synch.c:331-345 | a signal between the waiter's lock_release and its sema_down is not lost |
| `SynchRuns.ReleasedIsServed` | src/threads/synch.c:331-385 | a released waiter's signal has arrived and it is awake, or a thread is about to deliver it |
| `SynchRuns.AcquireReturnsHolding` | src/threads/synch.c:222-237 | over every run, a thread inside lock_acquire returns holding the lock |
| `SynchRuns.WaitReturnsHolding` | src/threads/synch.c:331-345 | over every run, a thread inside cond_wait returns holding the lock, its element on no queue |
| `SynchRuns.BroadcastUndisturbed` | src/threads/synch.c:394-401 | while a thread broadcasts no other can touch the queue |
| `SynchRuns.BroadcastEnds` | src/threads/synch.c:394-401 | cond_broadcast ends with an empty queue within two own steps per waiter and one more, under every interleaving |
| `SynchCalls.DownCall` | src/threads/synch.c:62-87 | sema_down, from the call: it returns only past a step of its own that takes a unit, and every step that finds none puts it to sleep at the back of the list |
| `SynchCalls.UpCall` | src/threads/synch.c:120-150 | sema_up, from the call: its next step adds one unit and wakes the thread asleep longest, and it is back |
| `SynchCalls.InterruptUpCall` | src/threads/synch.c:120-150 | the same in an interrupt handler, at once |
| `SynchCalls.TryDownCall` | src/threads/synch.c:95-113 | sema_try_down, by a thread or an interrupt handler: a unit less if there is one, and nothing else |
| `SynchCalls.AcquireCall` | src/threads/synch.c:222-237 | lock_acquire, from the call: it returns only as the holder, past a step of its own that took the lock's unit |
| `SynchCalls.ReleaseCall` | src/threads/synch.c:266-279 | lock_release, from the call: no holder, then the unit back and the thread asleep longest woken, and it is back |
| `SynchCalls.TryAcquireCall` | src/threads/synch.c:246-257 | lock_try_acquire changes nothing if the lock has no unit; otherwise it takes the unit and is the holder one step later |
| `SynchCalls.InterruptTryAcquireCall` | src/threads/synch.c:246-257 | in an interrupt handler it does so at once, for the thread interrupted |
| `SynchCalls.WaitCall` | src/threads/synch.c:331-345 | cond_wait, from the call: it joins the queue at the back, gives the lock up, sleeps until its own semaphore has a unit, reacquires the lock, and is back only after a signal took it off the queue |
| `SynchCalls.SignalCall` | src/threads/synch.c:355-385 | cond_signal takes the oldest waiter off the queue and gives it its unit; on an empty queue it does nothing |
| `SynchCalls.BroadcastCall` | src/threads/synch.c:394-401 | cond_broadcast, from the call: with k waiters it is back, and the queue empty, within 2k + 1 further steps of its own |
| `SynchCalls.OneSemaAtMost` | src/threads/synch.c:62-401 | no step changes two semaphores |
| `SynchCalls.HoldersStep` | src/threads/synch.c:222-279 | the holder of a lock changes only from none to the thread that acts or was interrupted, or from that thread to none |
| `SynchCalls.LifeCalls` | src/threads/thread.c:202-363 | a new thread is outside every primitive; one that has ended takes no step |
| `Scheduling.StepKeepsInv` | src/threads/thread.c:265-386 | every operation and interrupt keeps: one thread runs, ready threads other than idle are on the ready list exactly once, blocked ones never |
| `Scheduling.PlaceStep` | src/threads/thread.c:658-738 | each schedule moves a queued thread up by one place, nothing else does |
| `Scheduling.IdleOnlyForWant` | src/threads/thread.c:658-669 | a schedule leaves the processor idle exactly when no other thread is ready |
| `Scheduling.RunsInTurn` | src/threads/thread.c:658-738 | a thread with i others in front runs at exactly the (i + 1)-th schedule and at none before, over every run |
| `Scheduling.TicksBringSchedules` | src/threads/thread.c:159-176 | every four ticks bring a schedule |
| `Scheduling.WaitIsBounded` | src/threads/thread.c:159-176 | within 4(i + 1) ticks, whatever happens in between, the thread at place i of the ready list has run |
| `Scheduling.SleeperStep` | src/devices/timer.c:172-179 | a sleeper loses one tick at each timer interrupt and nothing else touches it |
| `Scheduling.SleepsThrough` | src/threads/thread.c:775-799 | over every run it stays blocked until its last tick |
| `Scheduling.WakesOnTime` | src/threads/thread.c:775-804 | a thread sleeping n > 0 ticks is unblocked at exactly the n-th timer interrupt |
| `Scheduling.Parted` | src/devices/timer.c:172-179 | each sleeper expires or stays, by whether it has one tick left |
| `Scheduling.TickedStep` | src/devices/timer.c:172-179 | the traversal one element at a time is the traversal as a whole |
| `SchedulingCalls.MadeReady` | src/threads/thread.c:283-300 | thread_unblock and thread_create make the thread ready, last on the ready list, and change nothing else |
| `SchedulingCalls.ReadiedRuns` | src/threads/thread.c:202-300 | so it runs at exactly the (r + 1)-th schedule from the call, with r threads ready before, and at none earlier |
| `SchedulingCalls.BlockBlocks` | src/threads/thread.c:265-272 | thread_block blocks the caller, and whoever was first in line runs |
| `SchedulingCalls.StaysBlocked` | src/threads/thread.c:265-300 | over every run it stays blocked and does not run until somebody unblocks it |
| `SchedulingCalls.YieldGoesBack` | src/threads/thread.c:368-386 | thread_yield puts the caller behind all others, or lets it run on if there are none |
| `SchedulingCalls.YieldedRuns` | src/threads/thread.c:368-386 | so it runs again at exactly the r-th schedule after, with r threads ready |
| `SchedulingCalls.ExitEnds` | src/threads/thread.c:338-363 | thread_exit removes the caller, and whoever was first in line runs |
| `SchedulingCalls.StaysGone` | src/threads/thread.c:338-363 | over every run it is gone for good |
| `SchedulingCalls.SleepSleeps` | src/threads/thread.c:775-790 | ThreadSleep blocks the caller, last on the sleep list, for n > 0; otherwise nothing happens |
| `SchedulingCalls.ExpireInOrder` | src/devices/timer.c:172-179 | sleepers that expire together are made ready in the order they went to sleep |
| `SchedulingCalls.InterruptLines` | src/devices/timer.c:148-182 | the ready list after a timer interrupt: those on it, then the sleepers that expire, then the running thread if its turn is over; of these the first runs at the end of the turn |
| `SchedulingCalls.OthersKeepStatus` | src/threads/thread.c:265-386 | no other thread's status changes |
| `Scheduler.Scheduler.constructor` | src/threads/thread.c:535-545 | the state once idle has registered |
| `Scheduler.Scheduler.Schedule` | src/threads/thread.c:658-738 | the front of the ready list runs, idle if it is empty, with a new time slice |
| `Scheduler.Scheduler.ThreadBlock` | src/threads/thread.c:265-272 | the running thread is blocked and another runs |
| `Scheduler.Scheduler.ThreadUnblock` | src/threads/thread.c:283-300 | the thread is ready, at the back of the ready list |
| `Scheduler.Scheduler.ThreadYield` | src/threads/thread.c:368-386 | the running thread goes to the back of the ready list, unless it is idle |
| `Scheduler.Scheduler.ThreadExit` | src/threads/thread.c:338-363 | the running thread is gone |
| `Scheduler.Scheduler.ThreadCreate` | src/threads/thread.c:202-256 | the new thread is ready |
| `Scheduler.Scheduler.Enqueue` | src/threads/thread.c:785-786 | the running thread is last on the linked sleep list, with its ticks |
| `Scheduler.Scheduler.ThreadSleep` | src/threads/thread.c:775-790 | nothing for n <= 0; otherwise asleep for n ticks and another thread runs |
| `Scheduler.Scheduler.Unlink` | src/threads/thread.c:801-804 | the element is off the linked list and still leads to its old successor |
| `Scheduler.Scheduler.TickElem` | src/threads/thread.c:792-804 | one sleeper loses a tick, and with the last its place on the list |
| `Scheduler.Scheduler.TickSleeper` | src/devices/timer.c:173-179 | the successor is read from an element that may just have been unlinked, and is the right one |
| `Scheduler.Scheduler.TickSleepers` | src/devices/timer.c:172-179 | the pointer traversal gives every sleeper exactly one tick |
| `Scheduler.Scheduler.TimerInterrupt` | src/devices/timer.c:148-182 | a tick of the turn and of every sleeper, and a yield when the turn is over |
| `Arenas.BlockRoundTrip` | src/threads/malloc.c:268-294 | block_to_arena undoes arena_to_block, for every arena, descriptor and index |
| `Arenas.AddressRoundTrip` | src/threads/malloc.c:268-294 | an address that passes the assertions of block_to_arena is that of a block |
| `Arenas.BlocksApart` | src/threads/malloc.c:286-294 | blocks of an arena do not overlap |
| `Arenas.LiveDisjoint` | src/threads/malloc.c:90-154 | any two live blocks are disjoint, big ones included |
| `Arenas.AllFree` | src/threads/malloc.c:241-252 | the count of an arena is full if and only if all its blocks are on the free list |
| `Arenas.AddArenaSound` | src/threads/malloc.c:129-145 | a new arena adds free blocks only |
| `Arenas.TakeSound` | src/threads/malloc.c:148-151 | the block handed out was nobody's and is big enough |
| `Arenas.GiveSound` | src/threads/malloc.c:238-242 | a block given back is on its free list exactly once and counted |
| `Arenas.DropSound` | src/threads/malloc.c:241-253 | the page of an entirely free arena holds no live block |
| `Arenas.AddBigSound` | src/threads/malloc.c:107-119 | a big block is disjoint from all others and big enough |
| `Arenas.DropBigSound` | src/threads/malloc.c:259-260 | freeing a big block frees its pages and nothing else |
| `Arenas.MallocKeepsInv` | src/threads/malloc.c:148-153 | malloc from a free list keeps the invariant |
| `Arenas.MallocNewKeepsInv` | src/threads/malloc.c:124-153 | malloc from a new arena keeps the invariant |
| `Arenas.FreeKeepsInv` | src/threads/malloc.c:238-242 | free of a block keeps the invariant |
| `Arenas.FreeLastKeepsInv` | src/threads/malloc.c:241-253 | free of the last live block of an arena keeps it and returns the page |
| `Arenas.FreedIsNext` | src/threads/malloc.c:148-151 | the block freed last is handed out next, if its arena stays |
| `Arenas.PerArenaFits` | src/threads/malloc.c:81-81 | blocks_per_arena is as many blocks as fit a page behind the header |
| `Arenas.PagesHaveLive` | src/threads/malloc.c:90-264 | a page of the pool is in use if and only if a live block stands on it or reaches over it: it is obtained for the first and returned with the last |
| `Arenas.PageCountEnough` | src/threads/malloc.c:109-109 | in 32-bit arithmetic the pages of a big block are enough, and the fewest, if and only if the request and the header together fit 32 bits; otherwise the block is one page or none |
| `Arenas.PageCountTooSmall` | src/threads/malloc.c:109-109 | an input for which they are not |
| `Malloc.Malloc.constructor` | src/threads/palloc.c:161-177 | a pool of free pages and no live block |
| `Malloc.Malloc.MallocInit` | src/threads/malloc.c:72-85 | seven descriptors, 16 to 1024 bytes, with the blocks that fit a page |
| `Malloc.Malloc.PallocGet` | src/threads/palloc.c:78-108 | the first run of free pages, marked; nothing only if there is none or none was asked for |
| `Malloc.Malloc.PallocFree` | src/threads/palloc.c:125-149 | the pages are free and overwritten, and no other byte or bit |
| `Malloc.Malloc.FindDesc` | src/threads/malloc.c:100-104 | the smallest descriptor that serves the request |
| `Malloc.Malloc.MallocBig` | src/threads/malloc.c:105-120 | a big block of the pages counted in 32 bits, or failure exactly when the pool has no such run of pages |
| `Malloc.Malloc.NewArena` | src/threads/malloc.c:124-146 | a new arena on a free page with all its blocks on the free list, or failure exactly when no page is free |
| `Malloc.Malloc.Carve` | src/threads/malloc.c:141-145 | all blocks of the arena, in order, at the back of the free list |
| `Malloc.Malloc.TakeFirst` | src/threads/malloc.c:148-151 | the first free block handed out and counted |
| `Malloc.Malloc.MallocSmall` | src/threads/malloc.c:122-153 | a block, or failure exactly when free list and pool are empty |
| `Malloc.Malloc.Malloc` | src/threads/malloc.c:90-154 | a block nobody has, with room for the request unless request and header together exceed 32 bits, added to the live ones; fails exactly when it cannot be served, changing nothing; the pages in use are those of the live blocks |
| `Malloc.Malloc.BlockSize` | src/threads/malloc.c:179-186 | the capacity of a live block, at least what was asked |
| `Malloc.Malloc.Dismantle` | src/threads/malloc.c:247-251 | exactly the blocks of that arena leave the free list, the others in order |
| `Malloc.Malloc.FreeSmall` | src/threads/malloc.c:227-256 | the block is no longer live, no other block loses a byte, and the page goes back exactly with the last live block |
| `Malloc.Malloc.Wipe` | src/threads/malloc.c:231-234 | the bytes of the block are 0xcc and no other live block loses a byte |
| `Malloc.Malloc.ReturnArena` | src/threads/malloc.c:241-253 | the page goes back and no live block loses a byte |
| `Malloc.Malloc.FreeBig` | src/threads/malloc.c:257-262 | exactly its pages go back and no live block loses a byte |
| `Malloc.ArenaIsShared` | src/threads/malloc.c:241-253 | between calls a page is an arena if and only if a live block stands on it |
| `Malloc.Malloc.Free` | src/threads/malloc.c:219-264 | exactly that block is no longer live and its bytes are overwritten; its pages go back if and only if no other live block stands there, and no other page; null does nothing; no other live block loses a byte |
| `Malloc.Malloc.Copy` | src/threads/malloc.c:208-208 | the bytes copied, no others changed |
| `Malloc.Malloc.Realloc` | src/threads/malloc.c:195-214 | size 0 frees; failure changes nothing; success moves the block with the common prefix of its bytes, and no other block loses a byte; the pages in use are those of the live blocks |
| `HashTable.TurnOffKeepsTop` | src/lib/kernel/hash.c:330-340 | turning off the lowest bit keeps the highest, and is_power_of_2 means what it says |
| `HashTable.WantedBuckets` | src/lib/kernel/hash.c:364-372 | the bucket count is the greatest power of two at most half the elements, at least 4, found by turning off low bits |
| `HashTable.MaskIsRemainder` | src/lib/kernel/hash.c:306-310 | the mask with a power of two less one is the remainder |
| `HashTable.HashTable.constructor` | src/lib/kernel/hash.c:25-44 | an empty table of four buckets |
| `HashTable.HashTable.Bucket` | src/lib/kernel/hash.c:306-310 | the bucket of an element is its hash modulo the number of buckets |
| `HashTable.HashTable.FindElem` | src/lib/kernel/hash.c:315-326 | the first element of the bucket with that key |
| `HashTable.HashTable.Find` | src/lib/kernel/hash.c:132-135 | the element with that key if the table holds one anywhere |
| `HashTable.HashTable.InsertElem` | src/lib/kernel/hash.c:417-421 | one element more, in its bucket |
| `HashTable.HashTable.RemoveElem` | src/lib/kernel/hash.c:425-429 | one element less |
| `HashTable.HashTable.MoveBucket` | src/lib/kernel/hash.c:400-409 | the elements of an old bucket, each in its new bucket |
| `HashTable.HashTable.MoveAll` | src/lib/kernel/hash.c:387-412 | the same elements over the new number of buckets, each in its own |
| `HashTable.HashTable.Rehash` | src/lib/kernel/hash.c:352-413 | the same elements whether or not the allocation succeeds; if it does, elem_cnt < 4 buckets, and buckets is 4 or elem_cnt >= 2 buckets |
| `HashTable.HashTable.Insert` | src/lib/kernel/hash.c:99-110 | adds the element if and only if no element has its key, else returns that one; the buckets are balanced afterwards unless the allocation failed |
| `HashTable.HashTable.Replace` | src/lib/kernel/hash.c:115-127 | the new element is in and the one that had its key is out and returned; balanced likewise |
| `HashTable.HashTable.Delete` | src/lib/kernel/hash.c:145-154 | the element with that key, if any, is out and returned; balanced likewise |
| `Arithmetic.Divl` | src/lib/arithmetic.c:25-37 | the quotient, under the condition that the instruction does not trap |
| `Arithmetic.Nlz` | src/lib/arithmetic.c:41-71 | shifting left by the result brings the top bit to position 31 |
| `Arithmetic.ByWords` | src/lib/arithmetic.c:80-112 | the quotient by a 32-bit divisor from the quotients of the words, the second of which fits 32 bits |
| `Arithmetic.Estimate` | src/lib/arithmetic.c:121-124 | dividing by the truncated divisor gives the quotient or one more |
| `Arithmetic.BigDivisor` | src/lib/arithmetic.c:117-124 | for a divisor over 32 bits the estimate fits 32 bits and is right or one too much |
| `Arithmetic.UDivSmall` | src/lib/arithmetic.c:80-112 | floor of n/d for a 32-bit divisor |
| `Arithmetic.UDivBig` | src/lib/arithmetic.c:113-126 | floor of n/d for a bigger divisor |
| `Arithmetic.UDiv64` | src/lib/arithmetic.c:77-127 | floor of n/d for all 64-bit n and nonzero d, with no trapping divide |
| `Arithmetic.UMod64` | src/lib/arithmetic.c:131-135 | the remainder cut to 32 bits |
| `Arithmetic.UModExact` | src/lib/arithmetic.c:131-135 | that is the remainder for every n if and only if d is at most 2^32 |
| `Arithmetic.TruncDivIs` | src/lib/arithmetic.c:139-146 | the truncated quotient is the only one whose remainder is smaller in size than d and has the sign of n |
| `Arithmetic.SDiv64` | src/lib/arithmetic.c:139-146 | the truncated quotient, exactly except for the most negative n by -1, which wraps |
| `Arithmetic.SMod64` | src/lib/arithmetic.c:150-154 | the truncated remainder cut to a signed 32-bit value |
| `Arithmetic.SModExact` | src/lib/arithmetic.c:150-154 | that is the remainder for every n if and only if the absolute value of d is at most 2^31 |
| `Mlfqs.NearestIs` | src/threads/fixed-point.h:11-11 | rounding goes to a nearest integer |
| `Mlfqs.Shrinks` | src/threads/fixed-point.h:8-8 | truncation only brings a product nearer to zero |
| `Mlfqs.LoadBound` | src/threads/thread.c:470-479 | with at most n ready threads a load average in [0, n] stays there |
| `Mlfqs.LoadNearExact` | src/threads/thread.c:470-479 | the new load average falls short of (59 load + ready) / 60 by at most n + 1 units in the last place |
| `Mlfqs.RecentNearExact` | src/threads/thread.c:481-487 | the new recentCpu is 2 load / (2 load + 1) * recent + nice but for one unit in the last place and one part in 2^14 |
| `Mlfqs.PriorityFalls` | src/threads/thread.c:499-511 | more recent CPU or a higher nice value never raises the priority |
| `Mlfqs.PriorityNearExact` | src/threads/thread.c:499-511 | the priority is the number from PRI_MIN to PRI_MAX nearest to 63 - recent / 4 - 2 nice, but for less than a unit in the last place |
| `Mlfqs.DecayBound` | src/threads/thread.c:481-487 | the decay factor is at most 2n/(2n + 1) |
| `Mlfqs.RecentBound` | src/threads/thread.c:481-487 | an update brings recentCpu, plus at most a second of ticks, back within [-(40n + 20), 240n + 20] |
| `Mlfqs.InitialBound` | src/threads/thread.c:598-637 | the value a new thread starts with is within the same bounds, wrap-around included |
| `Mlfqs.FitsInt` | src/threads/thread.c:470-487 | up to 545 ready threads the values fit a 32-bit int |
| `Mlfqs.Mlfqs.constructor` | src/threads/thread.c:129-153 | the state once idle has registered: nothing used, no load, the priorities of init_thread and thread_create |
| `Mlfqs.Mlfqs.CalculateLoadAvg` | src/threads/thread.c:470-479 | the new load average near (59 load + ready) / 60, idle not counted, within its bound |
| `Mlfqs.Mlfqs.CalculateRecentCpu` | src/threads/thread.c:481-487 | the thread's new value near the exact formula and within its bounds; idle left alone |
| `Mlfqs.Mlfqs.CalculateAllRecentCpu` | src/threads/thread.c:489-497 | every thread but idle updated exactly once, each near the exact formula, no other value changed |
| `Mlfqs.Mlfqs.CalculatePriority` | src/threads/thread.c:499-511 | the thread's priority, nearest to the exact formula between PRI_MIN and PRI_MAX; idle left alone |
| `Mlfqs.Mlfqs.CalculateAllPriority` | src/threads/thread.c:513-521 | the priority of every thread but idle, and no other |
| `Mlfqs.Mlfqs.TimerInterrupt` | src/devices/timer.c:148-168 | exactly the running thread is charged one unit; on the second load average and recentCpu are brought up to date, near the exact formulas, from the charged values, and otherwise stay; at every fourth tick the priorities are, and otherwise stay; all values stay within their bounds forever |
| `Mlfqs.Mlfqs.Charge` | src/devices/timer.c:150-157 | a tick more, and one unit more for the running thread |
| `Mlfqs.Mlfqs.SetNice` | src/threads/thread.c:415-423 | the running thread's nice value is set and its recentCpu and priority brought up to date, nobody else's; the bounds hold |
| `Mlfqs.Mlfqs.Switch` | src/threads/thread.c:725-738 | a change of the running thread keeps the bounds |
| `Mlfqs.Mlfqs.InitThread` | src/threads/thread.c:598-637 | a new thread has nice 0, the priority given, and the creator's recentCpu in hundredths, rounded; nobody else changes; the bounds hold |
| `Mlfqs.Mlfqs.ThreadCreate` | src/threads/thread.c:202-256 | the same, with the priority of its nice value and recentCpu |
| `Atoi.WrapStep` | src/lib/stdlib.c:35-36 | accumulating in 32 bits is accumulating and then cutting |
| `Atoi.ParseDigits` | src/lib/stdlib.c:31-36 | the digits' value below zero, in 32 bits |
| `Atoi.Atoi` | src/lib/stdlib.c:9-41 | the number a string stands for, for every string, cut to 32 bits |
| `Printf.Sink.constructor` | src/lib/stdio.c:28-32 | nothing written yet, and max_length cut to an int |
| `Printf.Sink.Put` | src/lib/stdio.c:46-52 | stored are exactly the characters whose number, counted in an int, is below max_length, one after the other; nothing behind them changes |
| `Printf.Sink.PutDup` | src/lib/stdio.c:551-555 | that many characters more |
| `Printf.FillDigits` | src/lib/stdio.c:501-513 | the digits, least significant first, grouped if asked, in at most 44 of 64 bytes for every 64-bit value and base |
| `Printf.Extend` | src/lib/stdio.c:515-524 | the zeros of the precision and of octal, never past the 64th byte |
| `Printf.FormatInteger` | src/lib/stdio.c:470-547 | writes Formatted, within its buffer; what that looks like is OutputParts |
| `Snprintf.SnprintfInt` | src/lib/stdio.c:26-42 | the int returned is the length of the output if and only if that is below 2^31; the prefix that fits is stored if and only if neither the output nor the buffer is over 2^31 long, or the output is empty; whatever is stored, the terminator follows it and nothing behind changes |
| `Snprintf.StoreIsRight` | src/lib/stdio.c:44-52 | the helper stores the prefix that fits if and only if neither count nor size goes over 2^31, or there is nothing to store |
| `Snprintf.CountUp` | src/lib/stdio.c:44-52 | up to 2^31 characters as many are stored as fit, and with the next the counter stores again |
| `Snprintf.CountDown` | src/lib/stdio.c:32-52 | how many are stored when the size was cut to a negative limit |
| `Snprintf.WideWidthMiscounts` | src/lib/stdio.c:32-52 | an input for which neither the return value nor the store is right, whatever the size of the buffer |
| `PrintfAtoi.DigitsVal` | src/lib/stdio.c:504-513 | the digits have the value |
| `PrintfAtoi.DigitsReadBack` | src/lib/stdio.c:504-513 | the digits read back to the value in every base, grouped or not |
| `PrintfAtoi.ReversedVal` | src/lib/stdio.c:543-544 | output in reverse they read as the value |
| `PrintfAtoi.NumberShape` | src/lib/stdlib.c:9-41 | blanks, a sign, digits and blanks stand for the signed value of the digits |
| `PrintfAtoi.NumberIs` | src/lib/stdlib.c:9-41 | for every string of white space, a sign or none, digits or none and a rest that does not go on with them, the number is the signed value of the digits |
| `PrintfAtoi.AtoiUndoesFormat` | src/lib/stdio.c:470-547 | atoi of the formatted string is x, for every int x, width, precision and set of flags, if and only if the group flag is off or x has at most three digits |
| `PrintfAtoi.LeadOf` | src/lib/stdio.c:504-513 | of a number with group separators atoi takes the digits before the first, which is less than the number |
| `PrintfAtoi.DigitsFit` | src/lib/stdio.c:504-513 | a 64-bit value takes at most 44 characters in any base, grouped or not |
| `PrintfAtoi.FieldWidth` | src/lib/stdio.c:526-546 | in 32-bit arithmetic the output fills the field and no more, if and only if it is not padded under both minus and zero and is not empty in a field of -2^31 |
| `PrintfAtoi.FormattedLength` | src/lib/stdio.c:526-546 | the padding is written once, or twice under both minus and zero |
| `PrintfShape.OutputParts` | src/lib/stdio.c:470-547 | the output is blanks, sign, prefix, zeros, digits and blanks: a plus exactly under the plus flag, a blank exactly under space alone, a minus exactly for negative numbers; 0x or 0X exactly for nonzero hexadecimal numbers under #; padding where the flags say; digits that read back to the value, at least as many as the precision asks up to 63, no other leading zero but the octal mark, none at all for 0 at precision 0 |
| `PrintfShape.MarksSeen` | src/lib/stdio.c:482-499 | a plus, a minus or an x is in the output exactly if it should be |
| `PrintfShape.RenderedIs` | src/lib/stdio.c:501-524 | the digits with their zeros and separators are as the precision, # and group flags demand |
| `PrintfShape.NumeralOfDigits` | src/lib/stdio.c:504-513 | the digits are those of the base and its case of letters, read back to the value, and do not begin with 0 |
| `PrintfShape.SeparatorsAt` | src/lib/stdio.c:508-509 | separators stand exactly at every fourth place from the right, every fifth in hexadecimal |
| `ParseConversion.ParseFlags` | src/lib/stdio.c:343-376 | the set of flags written, with zero dropped for minus and space for plus |
| `ParseConversion.ParseNumber` | src/lib/stdio.c:385-389 | the decimal value cut to an int, and where it ends |
| `ParseConversion.ParseConversion` | src/lib/stdio.c:340-460 | the conversion, width and precision cut to an int, and the place after it |
| `ParseConversion.ParsedFlags` | src/lib/stdio.c:343-416 | each flag holds exactly if its character is among those written, but that plus cancels space, minus and a precision cancel zero, and a negative width sets minus |
| `ParseConversion.ParsedFieldWidth` | src/lib/stdio.c:373-416 | for a parsed conversion the field comes out right if and only if there is no zero flag without minus and precision together with a negative width that calls for padding, and the output is not empty in a field of -2^31; widths are cut to an int |
| `ParseConversion.NegativeStarOverfills` | src/lib/stdio.c:390-394 | an instance where it does not: a negative width argument |
| `ParseConversion.WideWidthOverfills` | src/lib/stdio.c:387-394 | another: a width that does not fit an int |
| `ParseConversion.ParseUndoesWriting` | src/lib/stdio.c:340-460 | parsing a written conversion gives it back, for any flags in any order, width and precision or none, as numbers or arguments taken in order, and type, the numbers cut to an int; written numbers come back themselves if and only if they are below 2^31 |

## Left out

- Hardware drivers, interrupts as such and assembly: port and CPU state. Page tables and virtual memory likewise.
- Paths, directories and file handles above the inode; processes, executables and system calls.
- The rest of the list, hash and string libraries, heap sort, `calloc`, `list_unique` and the like: they would add easier members only.
- The configuration of `cond_signal` with priorities, which compares with a variable that was never set, and `lock_try_acquire` in that configuration.
- `__vprintf` as a whole: the conversions of strings and characters and the choice of the argument's type; one integer conversion is modelled from parsing to output.
- Interleaving of two file-system calls, and of two calls of `malloc`: each subsystem is modelled under its lock.
- FileSystem.FileSystem.InodeWriteAt: offsets end at the largest file size, 12 + 128 + 128 * 128 sectors, beyond which `allocate_block` would index past the double-indirect sector.
- FileSystem.FileSystem.InodeReadAt: for the same reason a read may not go on past the end of a file of the largest size, nor start past that size; every other read is modelled.
- FileSystem.FileSystem.InodeCreate: lengths end at the largest file size, for the same reason.
- FileBoot.Restart: all files are closed before the shutdown; with the stale header of a file still open the disk need not be one the boot is proved for.
- FileBoot.Format: the entries of the root directory are bytes of a file like others; directories are not modelled.
- Synch.StepKeepsInv: each condition variable is used with one lock, as the documentation of `cond_wait` demands.
- Scheduling.StepKeepsInv: a thread is unblocked only by what blocked it, so a sleeper only by the timer and idle by nobody; the kernel asserts only that it is blocked.
- Malloc.Malloc.Malloc: the page pool is malloc's own, other users of it are not modelled; free-list links and arena headers are fields, not bytes of the pages, which is sound because the blocks and headers are proved disjoint.
- Malloc.Malloc.Realloc: moving a block to a size whose sum with the header does not fit 32 bits is excluded, because the copy would leave the single page such a request gets, see PageCountEnough.
- HashTable.HashTable.Insert: buckets are sequences, so the relinking of list elements in place is not captured here; it is for lists in KernelList.
- Mlfqs.Mlfqs.constructor: no tick comes between the creation of idle and its registration; `thread_create` then yields, which is the scheduler's part.
- Mlfqs.Mlfqs.TimerInterrupt: recentCpu and loadAvg are unbounded integers; FitsInt shows that they fit 32 bits up to 545 ready threads.
- Snprintf.SnprintfInt: one conversion, not a whole format; memory past the end of the given array is not modelled, only how far the stores go.
- Donation.Priority: base priorities below PRI_MIN are excluded; on a list of nothing else PriorityBack would return a variable it never set.
- KernelList.ListSplice: within one list and towards the front, which is how the sort uses it.
