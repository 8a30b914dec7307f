# Verified model of a teaching kernel

A Dafny model of the data structures at the heart of an i386 teaching kernel, and proofs of what they
promise: the FAT16 file system, the kernel heap, the physical frame allocator, the round-robin
scheduler, the RAM file system with path resolution, number printing, and the argument block of a
starting program.

Each component has the same two layers. A *state machine* of values and functions says what an operation
does; lemmas prove the properties about it, for one step and then for every run. A *class* follows the C
code statement by statement, with its static variables as fields, its loops and its in-place updates;
its methods are proved to do exactly what the state machine says.

| files | component |
|---|---|
| `Bytes`, `Sequences`, `Arithmetic` | little-endian fields, copying into buffers, slices, division facts |
| `FatTable`, `FatNames`, `FatNameBytes`, `FatVolume` | allocation table, 8.3 names and their characters, a volume and the effect of a write |
| `FatTheorems`, `FatRuns`, `FatExamples` | what holds of one write, of runs of writes, and concrete volumes |
| `FatDisk`, `FatSteps`, `FatDriver` | the volume inside 512-byte sectors, and the driver code |
| `FatLayout`, `FatBoot` | the on-disk format byte by byte, and the fields of the boot sector |
| `HeapBlocks`, `HeapMemory`, `HeapRuns`, `HeapLayout`, `Heap` | block lists, their headers as bytes of memory, runs of allocations and frees, alignment and sizes, and the code |
| `FrameBits`, `Frames`, `FrameRuns` | 32-bit words of the bitmap, the frame allocator, and runs of allocations and frees |
| `Scheduling`, `TaskFrames`, `Scheduler` | the task table, the first register frame of a task, and the code |
| `SchedulerRuns`, `SchedulerCounts`, `SchedulerMemory`, `SchedulerExample` | runs with timer and other interrupts, yield, exit, wait and heap use; their counters; the same in one memory with the stacks; a first run |
| `RamfsTree`, `RamfsRuns`, `RamfsFacts`, `Ramfs` | nodes, and file data in heap blocks of the same memory; runs; limits, new files and paths; the code with path resolution |
| `Printing`, `ElfStack` | shift-subtract division and digits; the argument block |

## What turned out false, and exactly when it holds

The model keeps the code as it is. Where a promise fails, a lemma gives the failing input and another
one the exact condition.

- A FAT write does not always keep the volume well-formed: `fat_write_file` frees the old chain before it
  knows whether the new one fits, and its 32-bit cluster count wraps for sizes within one cluster of
  4 GiB. `FatTheorems.WriteKeepsWellFormed` states the exact condition, `FatRuns.WellFormedIffHarmless` the
  one for runs; `FatExamples` has one volume for each failure.
- On a volume that such a call has damaged, a whole file may lose its clusters to an entry that still names
  them (`FatExamples.DanglingEntryFreesOther`). A whole file keeps its entry and its bytes through every run
  that does not name it exactly when no other name a call could pick has an entry whose links lead into its
  chain (`FatRuns.SafeIffUnthreatened`); on a well-formed volume that is always so (`FatRuns.RunKeepsFile`).
  Later calls stop and stay inside the table even on damaged volumes (`FatRuns.RunStaysReplaceable`).
- A name that starts with the byte 0xE5 is accepted, and its entry then counts as deleted: what was
  written is not stored, and its clusters are lost (`FatExamples.HiddenNameLosesCluster`). What a successful
  write stores stays stored exactly when the name does not start with 0xE5, the size does not wrap, and no
  other entry leads into the new file (`FatRuns.StoredStays`); `FatRuns.NothingLost` says exactly when
  clusters are lost.
- `fat_read_file` cuts its last chunk at the end of the buffer exactly as long as it has read less than
  2^32 - 512 bytes (`FatDriver.ChunkIsRight`, `FatDriver.ChunkOverruns`); a buffer that reaches further
  fills the address space.
- `kmalloc` returns too small a block exactly for requests above 0xFFFFFFF8, which wrap in `align8`
  (`HeapRuns.ReachableHeapIsSafe`, `HeapRuns.WrappedRequestGetsNothing`).
- Names in the RAM file system stay distinct exactly as long as a name cut to 127 bytes is not already
  there (`RamfsRuns.AddEffect`, `RamfsRuns.LongNameTwice`).
- Unlinking a file and then growing it through a node pointer that was kept loses a block for good
  (`RamfsRuns.UnlinkedWriteLeaks`). Nothing is lost exactly when no call grows an unlinked file
  (`RamfsRuns.NoBlockLost`).
- An allocation result of 0 means failure exactly while no run starts with frame 0 (`Frames.ZeroMeansFailure`);
  after `frame_free(0)` it is the address of frame 0 (`Frames.ZeroIsFrameZero`).
- `free_region` rounds the end of a usable region up: a last frame that the region only begins is freed too,
  even if the rest of it is reserved. What is freed for an entry of the memory map belongs to it exactly when
  the entry ends on a frame boundary or nothing is freed (`Frames.FreedIsUsable`); low memory up to 0x9FC00 is
  a failing entry (`Frames.LowMemoryOverruns`). An entry that ends within a frame of 4 GiB or above wraps, and
  none of it is freed (`Frames.UsableIsFreed`).
- `reserve_region` rounds the start of a region up as well: it reserves every byte of a region exactly when the
  region is empty, or starts on a frame boundary and ends below the last frame of 4 GiB
  (`Frames.ReservedHoldsBytes`). Boot information at 0x9500 is not reserved at all (`Frames.BootInfoNotReserved`).
  For the kernel and the bitmap behind it this comes out right exactly when both end below the last page of
  4 GiB (`Frames.PlacementCovers`).
- A heap of 12 bytes or fewer is accepted by `heap_init` and is not proper
  (`Heap.KernelHeap.constructor`).
- `elf_prepare_stack` checks room for the strings only; the pointer array may pass the end of the stack.
  `ElfStack.AddressSpace.PrepareStack` states exactly when it does not.
- The digit buffer of `print_uint_base` keeps the last 32 digits; it holds all of them exactly for values
  below base^32, so always in bases 10 and 16 (`Printing.BufferHoldsNumeral`).

## Model

| member | source | states |
|---|---|---|
| `FatTheorems.RoundTrip` | src/fs/fat.c:365-431 | on every volume, well-formed or not: after a successful write the name is found in the cache with the new size, and reading gives back the first bytes of the buffer, which are the asked-for prefix exactly when the size does not wrap or at most one cluster is asked for |
| `FatTheorems.RoundTripByName` | src/fs/fat.c:248-302 | the same, wrapped sizes included, under the name in capitals, letter by letter, which is the rendered form exactly for valid 8.3 names |
| `FatTheorems.WriteKeepsWellFormed` | src/fs/fat.c:381-427 | on volumes with files and subdirectories in the root, a write keeps the volume well-formed exactly when it is not an overwrite without room and the size does not wrap |
| `FatTheorems.DamagedIsIllFormed` | src/fs/fat.c:381-397 | in those two cases the volume left behind is ill-formed |
| `FatTheorems.StoredFile` | src/fs/fat.c:387-427 | on every volume, the new entry has a proper chain of ceil(size / cluster) clusters that were free, holding the buffer |
| `FatTheorems.StoredWrapped` | src/fs/fat.c:387-419 | on every volume, for a wrapping size one cluster is written and left marked free |
| `FatTheorems.OtherFilesUntouched` | src/fs/fat.c:365-431 | on a well-formed volume every other file keeps entry, chain and bytes, whether the write succeeds or not |
| `FatTheorems.SparedUntouched` | src/fs/fat.c:365-431 | the same on any volume, for a whole file into whose chain the entry picked by the call does not lead |
| `FatTheorems.UsedClusterUntouched` | src/fs/fat.c:365-431 | on any volume, a used cluster outside the replaced chain keeps its table entry and data |
| `FatTheorems.FreeSpaceConserved` | src/fs/fat.c:341-427 | on every volume whose replaced entry, if any, is whole: a successful write changes the free-cluster count by the old length minus the new length exactly when the size does not wrap; otherwise, and when it fails, only the old chain is given back |
| `FatTheorems.CacheFindsWritten` | src/fs/fat.c:107-145 | on every volume, the refreshed cache shows the written entry under its name exactly when fewer than 32 entries and none of that name come before it and it is not hidden |
| `FatTheorems.ReadGivesFileBytes` | src/fs/fat.c:248-279 | reading a whole file gives its bytes, as many as are asked for and its size field allows |
| `FatRuns.RunKeepsWellFormed` | src/fs/fat.c:365-431 | a run of writes without damaging calls ends in a well-formed volume |
| `FatRuns.WellFormedIffHarmless` | src/fs/fat.c:365-431 | the volumes along a run are all well-formed exactly when no call of the run is a damaging one |
| `FatRuns.RunKeepsFile` | src/fs/fat.c:365-431 | from a well-formed volume, a file that no call names keeps its entry and bytes through any run, damaging calls included |
| `FatRuns.SafeIffUnthreatened` | src/fs/fat.c:341-431 | on any volume, a whole file survives every run that does not name it exactly when no other name a call could pick has an entry whose links lead into its chain |
| `FatRuns.UnthreatenedRun` | src/fs/fat.c:365-431 | such a file stays whole and unthreatened along the run, with the same entry and bytes |
| `FatRuns.StoredStays` | src/fs/fat.c:365-431 | what a successful write stored is what its entry holds after every run with other names, damaging calls included, exactly when the name does not start with 0xE5, the size does not wrap and no other entry leads into the new file |
| `FatRuns.StoredStaysWellFormed` | src/fs/fat.c:365-431 | on a well-formed volume the last of the three conditions always holds |
| `FatRuns.SpaceConserved` | src/fs/fat.c:341-427 | over a run without damaging calls, free clusters, claimed clusters and those lost to names that start with 0xE5 add up to the same number |
| `FatRuns.NothingLost` | src/fs/fat.c:381-427 | a call keeps free plus claimed clusters exactly when it does no damage, an emptied subdirectory entry apart, and does not store data under a name that starts with 0xE5 |
| `FatRuns.RunStaysReplaceable` | src/fs/fat.c:341-431 | from any volume with in-range links, after any run, the next call still terminates inside the table |
| `FatExamples.FailedOverwriteDamages` | src/fs/fat.c:381-395 | a full volume on which overwriting a file fails and leaves the entry with a freed chain |
| `FatExamples.WrappedSizeDamages` | src/fs/fat.c:387-391 | an empty volume on which a write of 4 GiB less one byte succeeds with one cluster |
| `FatExamples.DanglingEntryFreesOther` | src/fs/fat.c:381-427 | a failed overwrite of A, one byte written to B, and A emptied: the last call frees the cluster of B |
| `FatExamples.HiddenNameLosesCluster` | src/fs/fat.c:304-339 | one byte written to an empty volume under a name that starts with 0xE5: the call succeeds and a cluster is lost |
| `FatExamples.EmptyVolumeRoundTrip` | src/fs/fat.c:248-431 | on an empty volume every file of up to 4083 clusters can be written and reads back whole |
| `FatTable.FreedStep` | src/fs/fat.c:341-348 | zeroing the start and going on from its old link zeroes exactly the clusters reachable from the start, on cyclic and crossed tables too |
| `FatTable.FreedNothing` | src/fs/fat.c:341-348 | nothing is freed from an end marker or a value below 2 |
| `FatTable.ChainDistinct` | src/fs/fat.c:341-348 | a properly ended chain has no repeated cluster |
| `FatTable.ChainIsReachable` | src/fs/fat.c:341-348 | the clusters of a proper chain are exactly the reachable ones |
| `FatTable.FreeingAdds` | src/fs/fat.c:341-348 | freeing a proper chain adds its length to the free clusters |
| `FatTable.LinkingTakes` | src/fs/fat.c:393-397 | linking a free run takes its length from the free clusters |
| `FatTable.LinkedRunIsChain` | src/fs/fat.c:393-397 | the linked run is a proper chain of consecutive clusters; no link is an end marker |
| `FatTable.FirstRunUnique` | src/fs/fat.c:350-363 | being the lowest run, or 0 when there is none, determines the result |
| `FatNames.FormatRenderRoundTrip` | src/fs/fat.c:118-138 | formatting the rendered form of a stored name gives it back exactly for canonical fields |
| `FatNames.RenderFormatIsUpper` | src/fs/fat.c:281-302 | rendering the formatted name is its upper-casing exactly for valid 8.3 names |
| `FatNames.FormatName` | src/fs/fat.c:281-302 | the loops compute base and extension, upper-cased and padded; the empty name is refused |
| `FatNameBytes.FormatBytes` | src/fs/fat.c:281-302 | the stored name byte by byte: a small letter becomes the capital with the same place in the alphabet, every other byte stays; eight bytes before the first dot, three behind it, the first eleven when no dot comes early, blanks in the rest |
| `FatNameBytes.SameEntry` | src/fs/fat.c:281-302 | two names go to the same entry exactly when they agree up to case in each of the eleven places |
| `FatNameBytes.ShownInCapitals` | src/fs/fat.c:118-138 | a stored name is shown as its capitals exactly when the given name was a valid 8.3 name |
| `FatNameBytes.RenderBytes` | src/fs/fat.c:123-138 | the shown name byte by byte: base and extension up to their first blanks, a dot between them unless the extension is blank |
| `FatLayout.EntryBytes` | src/fs/fat.c:73-80 | table entry c is the little-endian word at byte 512 * reserved + 2 * c of the disk |
| `FatLayout.SlotBytes` | src/fs/fat.c:174-176 | slot k is the 32 bytes from 512 * (reserved + FATs * FAT size) + 32 * k on |
| `FatLayout.DataSectors` | src/fs/fat.c:69-71 | the data sectors lie behind the root directory |
| `FatLayout.ClusterByte` | src/fs/fat.c:69-71 | byte i of cluster c is in data sector (c - 2) * sectors per cluster + i / 512 |
| `FatLayout.SlotFields` | src/fs/fat.c:119-143 | which bytes of a slot say that it is free, a directory, where it starts and how long it is |
| `FatLayout.ListedSlots` | src/fs/fat.c:118-125 | the slots that are listed: live, no long-name part, no volume label, nothing before them in their sector empty |
| `FatLayout.CacheIsFirst` | src/fs/fat.c:107-109 | the first 32 of them are kept |
| `FatLayout.WriteSucceeds` | src/fs/fat.c:365-397 | a write succeeds exactly when there is an entry of the name or a vacant slot and, unless nothing is written, enough clusters that are free or in the replaced chain lie side by side below the search limit |
| `FatLayout.WrittenTable` | src/fs/fat.c:387-397 | the least number of clusters that holds the buffer is linked in order and closed with 0xFFFF; the rest of the replaced chain is zero, and every other entry stays |
| `FatLayout.WrittenData` | src/fs/fat.c:399-419 | byte i of the buffer is in sector i / 512 behind the first one of the chain, zeroes fill up the last sector, other sectors stay |
| `FatLayout.WrittenSlot` | src/fs/fat.c:422-427 | name, attribute 0x20, first cluster and size in their bytes of the slot, no other slot changes, and an empty file has no cluster |
| `FatLayout.FailedWrite` | src/fs/fat.c:372-391 | a failed write leaves directory and data alone and frees at most the replaced chain |
| `FatDisk.ClusterSectorsInjective` | src/fs/fat.c:69-71 | different clusters and sector indices give different sectors, never one of the FAT or the root directory |
| `FatDisk.PatchEntry` | src/fs/fat.c:90-99 | patching two bytes of a FAT sector changes that table entry and nothing else |
| `FatDisk.PatchSlot` | src/fs/fat.c:422-427 | patching 32 bytes of a directory sector changes that slot and nothing else |
| `FatDisk.PatchData` | src/fs/fat.c:402-417 | writing a data sector changes neither table nor directory |
| `FatDisk.ViewDeterminesDisk` | src/fs/fat.c:170-178 | two disks with the same view and the same other sectors are equal |
| `FatSteps.WellFormedIsReplaceable` | src/fs/fat.c:341-348 | on a well-formed volume every name can be written |
| `FatDriver.Driver.WriteFile` | src/fs/fat.c:365-431 | the disk afterwards is the written volume, other sectors are the same, and the cache equals the first 32 visible entries on disk, whatever the result |
| `FatDriver.Driver.ReadFile` | src/fs/fat.c:248-279 | -1 exactly for a zero limit or an unknown name; else the bytes along the chain are at the front of the buffer, the rest is unchanged, and their number is returned as a signed 32-bit integer |
| `FatDriver.SignedIntIs` | src/fs/fat.c:278 | the returned count is right exactly below 2^31 |
| `FatDriver.WriteThenRead` | src/fs/fat.c:248-431 | whatever state the volume is in, after a successful write, reading the name in capitals, given letter by letter, puts the written bytes, or of a wrapped size one cluster of them, at the front of the buffer, changes nothing else in it, and returns how many |
| `FatDriver.ChunkIsRight` | src/fs/fat.c:270-271 | the chunk is cut at the wanted end exactly when the 32-bit sum does not wrap |
| `FatDriver.ChunkOverruns` | src/fs/fat.c:270-271 | with 256 bytes wanted at the end of the address range a whole sector is copied |
| `FatDriver.Driver.Init` | src/fs/fat.c:147-213 | geometry and FAT type follow the boot sector; on FAT16 the cache mirrors the root directory |
| `FatSteps.BootFits` | src/fs/fat.c:168-178 | the cluster count is the number of whole clusters behind the other areas |
| `FatBoot.GeometryOfFields` | src/fs/fat.c:160-195 | for a boot sector with given fields: the root directory has room for its entries and no sector more, the areas lie side by side, less than a cluster is left over, and the type is FAT16 exactly for 4085 to 65524 clusters |
| `FatBoot.EverySector` | src/fs/fat.c:8-34 | every sector is the packed form of its fields, one after the other without gaps and the low byte first |
| `FatDriver.Driver.RefreshRootCache` | src/fs/fat.c:215-224 | on FAT16 the cache becomes the first 32 visible entries |
| `FatDriver.Driver.ParseRootDir` | src/fs/fat.c:118-145 | one directory sector is added to the cache, up to its end marker |
| `FatDriver.Driver.AddFile` | src/fs/fat.c:107-116 | an entry is appended, its name cut to 12 bytes, unless 32 are there |
| `FatDriver.Driver.FindRootEntry` | src/fs/fat.c:304-339 | finds the slot of the name, else the first vacant slot, else fails |
| `FatDriver.Driver.FreeChain` | src/fs/fat.c:341-348 | terminates and zeroes exactly the reachable clusters; nothing else on the disk changes |
| `FatDriver.Driver.FindFreeRun` | src/fs/fat.c:350-363 | the lowest start of enough consecutive free clusters, or 0 exactly when none exists |
| `FatDriver.Driver.ReadFatEntry` | src/fs/fat.c:73-80 | reads the FAT16 table entry of the cluster |
| `FatDriver.Driver.WriteFatEntry` | src/fs/fat.c:90-99 | changes that table entry only |
| `FatDriver.Driver.LinkClusters` | src/fs/fat.c:393-397 | links the run and closes it |
| `FatDriver.Driver.StoreData` | src/fs/fat.c:399-419 | the data sectors of the run hold the buffer, the last one padded with zeroes |
| `FatDriver.Driver.CopyChain` | src/fs/fat.c:259-278 | the buffer's front receives the bytes along the chain |
| `HeapRuns.ReachableHeapIsSafe` | src/mm/heap.c:19-78 | after any run the blocks tile the heap in order without free neighbours, live payloads are disjoint from each other and from all headers, hold their request exactly when it did not wrap, and are then at least the next multiple of 8 and at most 20 bytes more |
| `HeapRuns.AllFreedRestores` | src/mm/heap.c:56-78 | the initial single free block is back exactly when nothing is live, whatever the order of frees |
| `HeapRuns.AccountingConserved` | src/mm/heap.c:80-95 | used + free + 12 per block is the heap size after any run |
| `HeapRuns.FreshPointer` | src/mm/heap.c:30-54 | a returned pointer was not live |
| `HeapRuns.AllocStep` | src/mm/heap.c:30-54 | `kmalloc` keeps the heap invariant |
| `HeapRuns.ReleaseStep` | src/mm/heap.c:69-78 | `kfree` of a live pointer keeps it |
| `HeapRuns.LivePayloadSurvives` | src/mm/heap.c:30-78 | headers lie in the same memory as payloads: whatever is allocated, split, freed and coalesced around it in a run, a live payload keeps its bytes and the list stays readable from memory |
| `HeapRuns.StepInMemory` | src/mm/heap.c:30-78 | `kmalloc` and `kfree` write only to headers, and leave the headers of the new list in memory |
| `HeapRuns.LiveBytesKept` | src/mm/heap.c:39-46 | header writes miss every payload that is live before and after |
| `HeapRuns.LiveClearOfHeaders` | src/mm/heap.c:39-47 | no byte of a live payload belongs to a header |
| `HeapRuns.PayloadWriteKeepsHeap` | src/mm/heap.c:5-9 | bytes written clear of the headers leave the heap as it is |
| `HeapRuns.WrappedRequestGetsNothing` | src/mm/heap.c:15-17 | a request of 0xFFFFFFF9 bytes from a 1 MiB heap gets an empty block |
| `HeapLayout.PointersAligned` | src/mm/heap.c:15-50 | after any run every header and every live pointer is a multiple of 4 bytes away from the start of the heap |
| `HeapLayout.MallocEffect` | src/mm/heap.c:30-50 | the request is rounded up to a multiple of 8, the first free block with room is taken, and it is cut exactly when more than 20 bytes are left over |
| `HeapLayout.MallocNeedsRoom` | src/mm/heap.c:30-54 | allocation fails exactly when no free block has room for the rounded request |
| `HeapLayout.HeaderBytes` | src/mm/heap.c:5-9 | a header in memory is size, next and free, four bytes each with the low one first |
| `HeapLayout.StatsByBlock` | src/mm/heap.c:80-95 | each block counts once, with its size for the allocated or for the free bytes |
| `HeapBlocks.MallocFreeRestores` | src/mm/heap.c:30-78 | freeing what `kmalloc` returned gives back the identical block list |
| `HeapBlocks.UsedDetermines` | src/mm/heap.c:56-67 | the allocated blocks determine the whole list |
| `HeapBlocks.CoalesceProper` | src/mm/heap.c:56-67 | coalescing keeps the tiling and the allocated blocks and leaves no free neighbours |
| `HeapBlocks.AllocProper` | src/mm/heap.c:36-50 | splitting keeps the tiling and adds exactly one allocated block |
| `HeapBlocks.FreeProper` | src/mm/heap.c:69-78 | freeing removes exactly that block from the allocated ones |
| `HeapBlocks.BytesConserved` | src/mm/heap.c:80-95 | used and free bytes and headers add up to the heap |
| `HeapMemory.StampedLinks` | src/mm/heap.c:24-27 | writing the headers of a list links it, and changes no other byte |
| `HeapMemory.IsStamped` | src/mm/heap.c:39-46 | memory that links the list and differs in its headers only is determined |
| `Heap.KernelHeap.constructor` | src/mm/heap.c:19-28 | one free block of the size less 12 on 32 bits, with its header in memory; a proper heap exactly when the size is above 12 and the start is not 0 |
| `Heap.KernelHeap.Kmalloc` | src/mm/heap.c:30-54 | the list in memory becomes that of a first-fit allocation with splitting; memory is the old one with exactly the headers of that list |
| `Heap.KernelHeap.CoalesceList` | src/mm/heap.c:56-67 | the linked headers become the coalesced list, and no other byte is written |
| `Heap.KernelHeap.Kfree` | src/mm/heap.c:69-78 | the block is marked free and coalesced; memory is the old one with that mark and the headers of the new list; null and outside pointers are ignored |
| `Heap.KernelHeap.HeapStats` | src/mm/heap.c:80-95 | used and free bytes, block counts, and their sum |
| `Frames.FrameAllocator.FrameAllocContiguous` | src/mm/memory.c:162-183 | marks the lowest run of that many free frames and nothing else, or reports 0 when there is none |
| `Frames.FrameAllocator.FrameAlloc` | src/mm/memory.c:125-139 | the same for one frame, never past the last frame |
| `Frames.AllocationUnique` | src/mm/memory.c:125-183 | that contract determines result and bitmap, so both agree on one frame |
| `Frames.ZeroMeansFailure` | src/mm/memory.c:125-183 | a result of 0 means that no run was free, or that the run starts with frame 0; while frame 0 is in use it means failure |
| `Frames.ZeroIsFrameZero` | src/mm/memory.c:125-147 | with frame 0 as the only free frame, allocation returns 0 and succeeds |
| `Frames.FitsIffLongEnough` | src/mm/memory.c:162-198 | a run is found exactly when no more than the longest free run is asked for |
| `Frames.FrameAllocator.LargestFreeRun` | src/mm/memory.c:185-198 | the length of a longest free run |
| `Frames.FrameAllocator.FindRun` | src/mm/memory.c:165-175 | skipping past an obstacle misses no run |
| `Frames.FrameAllocator.FindFree` | src/mm/memory.c:127-137 | skipping full words misses no free frame |
| `Frames.FrameAllocator.FrameFree` | src/mm/memory.c:141-147 | clears that frame if it is in range |
| `Frames.FrameAllocator.SetFrame` | src/mm/memory.c:35-40 | sets one bit, and the counter stays the number of used frames |
| `Frames.FrameAllocator.ClearFrame` | src/mm/memory.c:42-47 | clears one bit, and the counter stays the number of used frames |
| `Frames.FrameAllocator.FreeRegion` | src/mm/memory.c:57-63 | exactly the frames between the rounded-up ends of the region become free |
| `Frames.FrameAllocator.ReserveRegion` | src/mm/memory.c:49-55 | exactly the frames between the rounded-up ends of the region become used |
| `Frames.FrameAllocator.Init` | src/mm/memory.c:70-123 | a frame is free exactly when a usable entry, cut at 4 GiB and rounded up, covers it and no reserved region does; the padding bits are set; and no frame with a byte of the kernel or of the bitmap behind it is free, unless they reach the last page of 4 GiB |
| `Frames.PlacementCovers` | src/mm/memory.c:95-117 | the region reserved for the kernel reaches over the kernel and over every word of the bitmap exactly when they end below the last page of 4 GiB |
| `Frames.ReservedHoldsBytes` | src/mm/memory.c:49-55 | all bytes of a region are reserved exactly when it is empty, or starts on a frame boundary and ends below the last frame of 4 GiB |
| `Frames.BootInfoNotReserved` | src/mm/memory.c:119 | boot information in the middle of a page is not reserved at all |
| `Frames.CoversIs` | src/mm/memory.c:102-114 | the frames that are freed are those that begin in an entry of kind 1, unless it ends within a frame of 4 GiB or above |
| `Frames.TotalIs` | src/mm/memory.c:76-89 | the number of frames is that of the whole frames below the highest end of the map, and at most 0xFFFFF |
| `FrameRuns.KernelNeverHanded` | src/mm/memory.c:117-183 | no run hands out a frame with a byte of the kernel or of the bitmap while nobody frees it |
| `Frames.FreedIsUsable` | src/mm/memory.c:57-112 | what is freed for a map entry belongs to it, frame by frame, exactly when the entry ends on a frame boundary or nothing is freed |
| `Frames.UsableIsFreed` | src/mm/memory.c:57-112 | all whole frames of an entry are freed exactly when it ends below the last frame of 4 GiB or has none |
| `Frames.LowMemoryOverruns` | src/mm/memory.c:57-63 | for low memory up to 0x9FC00 the frame that also holds what follows is freed |
| `FrameRuns.NeverTwice` | src/mm/memory.c:125-183 | in any sequence of allocations and frees, a frame that was handed out is not handed out again before it is freed |
| `FrameRuns.UsedNeverHanded` | src/mm/memory.c:125-183 | a frame in use, reserved or handed out, is not handed out by any run that does not free it |
| `FrameRuns.AllocatesIsStep` | src/mm/memory.c:125-183 | the contract of both allocation functions is exactly one step of these runs |
| `FrameRuns.HandedIs` | src/mm/memory.c:125-183 | the frames an operation hands out are exactly those that were free and are in use afterwards |
| `FrameRuns.PaddingStays` | src/mm/memory.c:97-100 | the bits past the last frame stay set through every run |
| `FrameRuns.UsedConserved` | src/mm/memory.c:35-47 | over any run the number of used frames, which the counter equals, changes by frames handed out minus frames freed |
| `FrameBits.UnpackSet` | src/mm/memory.c:35-40 | or-ing the mask into the word sets that frame in the unpacked bitmap and no other |
| `FrameBits.UnpackClear` | src/mm/memory.c:42-47 | and-ing the complement clears that frame and no other |
| `FrameBits.FullWord` | src/mm/memory.c:128-129 | a word is 0xFFFFFFFF exactly when all its 32 frames are used |
| `SchedulerRuns.BoundedWaiting` | src/proc/scheduler.c:96-164 | while scheduling is on, a runnable task is dispatched within as many reschedulings as there are slots and within ten times as many runs of the timer handler, across the tick wrap-around, whatever is added, exits or is reaped and whatever other interrupts happen, also between a raised flag and its `int` |
| `SchedulerRuns.WaitingIsBounded` | src/proc/scheduler.c:96-164 | the budget each rescheduling and each tick uses up while a task waits |
| `SchedulerRuns.WaitingInterrupt` | asm/interrupt.s:93-98 | one interrupt of any kind while a task waits: it stays runnable, a rescheduling brings it strictly nearer, and the bound falls, or does not rise when the timer handler did not run |
| `SchedulerRuns.FlagStep` | src/proc/scheduler.c:85-93 | raising the flags of yield and start, before their `int`, changes nothing else and keeps the invariant |
| `SchedulerRuns.ContextIntegrity` | src/proc/scheduler.c:111-164 | over whole runs with timer and other interrupts: with scheduling on, what is resumed is the last stack pointer seen for that context, a resumed task is runnable, the kernel resumes only when none is, and the active counter is the number of runnable slots; with scheduling off, an interrupt resumes the stack pointer it was given and changes nothing |
| `SchedulerRuns.IdleStep` | src/proc/scheduler.c:131-134 | with scheduling off an interrupt changes nothing and resumes exactly what it interrupted |
| `SchedulerCounts.CountsAreExact` | src/proc/scheduler.c:68-82 | after any run task_count is the number of slots ever used, which are the first ones, and the pids given out are 1, 2, 3 and so on, one for each task added |
| `SchedulerCounts.AddedTask` | src/proc/scheduler.c:49-83 | the first unused slot gets a runnable task with the next pid and a new stack of 4096 bytes with 56 taken at its top; without a slot or a stack nothing happens |
| `SchedulerCounts.YieldIs` | src/proc/scheduler.c:105-109 | a yield is the raised flag and then the timer interrupt, and nothing without a second slot or with scheduling off |
| `SchedulerCounts.StartIs` | src/proc/scheduler.c:85-94 | a start is the raised flags and then the timer interrupt, and nothing without a task |
| `SchedulerRuns.ReapedOnce` | src/proc/scheduler.c:166-181 | after a successful wait for a pid no later wait for it succeeds |
| `SchedulerRuns.WaitStep` | src/proc/scheduler.c:166-181 | a successful wait yields the code passed to exit and frees a live stack that is no runnable task's |
| `SchedulerRuns.InterruptStep` | src/proc/scheduler.c:131-164 | an interrupt keeps the invariant of scheduler, stacks, saved contexts and exit codes |
| `SchedulerRuns.AddStep` | src/proc/scheduler.c:49-83 | so does adding a task with a stack from the heap |
| `SchedulerMemory.FrameIntegrity` | asm/interrupt.s:83-108 | the stacks lie in the same memory as the heap and its headers: after any run of creations, interrupts, exits, waits, heap use and stores clear of headers and saved frames, what an interrupt resumes finds on its stack, from the stack pointer it gets to the top, exactly the bytes that were there when it was interrupted or created; with scheduling off, state and memory stay as they are |
| `SchedulerMemory.FirstDispatch` | src/proc/task.c:4-23 | whatever happens between `scheduler_add` and the interrupt that first resumes the new task, the frame the stub restores starts it at its entry point, with cleared registers and interrupts on |
| `SchedulerMemory.StepKeepsMem` | src/proc/scheduler.c:49-181 | every event keeps the list of the heap readable and the frame of every waiting context as it was seen |
| `SchedulerMemory.HeapKeepsSaved` | src/mm/heap.c:30-78 | header writes miss what waiting contexts have saved |
| `SchedulerMemory.CreatedMemory` | src/proc/scheduler.c:68-75 | `scheduler_add` writes only headers and the new stack, and leaves the heap readable |
| `SchedulerMemory.InitialInvIn` | src/proc/scheduler.c:33-47 | the runs start with a fresh heap in any memory |
| `TaskFrames.FrameStarts` | src/proc/task.c:4-23 | the fourteen pushed words are what the stub restores to the entry point |
| `TaskFrames.PushedWords` | src/proc/task.c:4-23 | the pushed words lie at the new stack pointer upwards and nothing else changed |
| `SchedulerExample.TwoTasks` | src/proc/scheduler.c:49-94 | with room for two stacks, two tasks can be added and started; the first runs and the second waits |
| `Scheduling.NextIsNearest` | src/proc/scheduler.c:153-160 | the scan gives the cyclically nearest runnable slot, or none exactly when there is none |
| `Scheduling.SwitchEffect` | src/proc/scheduler.c:131-164 | which context the switch saves and which it resumes; the fall-through behind the scan is never reached |
| `Scheduling.SwitchKeepsInv` | src/proc/scheduler.c:131-164 | the switch keeps the task-table invariant |
| `Scheduler.ScanAgrees` | src/proc/scheduler.c:153-160 | the scan modulo task_count finds what a scan over all slots finds |
| `Scheduler.TaskScheduler.constructor` | src/proc/scheduler.c:33-47 | an empty table, scheduling off |
| `Scheduler.TaskScheduler.Add` | src/proc/scheduler.c:49-83 | takes the first unused slot, a stack from the heap and the next pid and writes the first frame into that stack, or changes nothing |
| `Scheduler.TaskScheduler.TaskContextInit` | src/proc/task.c:4-23 | memory afterwards holds exactly the fourteen words of the first frame below the stack top |
| `Scheduler.FrameKeepsHeap` | src/proc/scheduler.c:68-75 | the frame lies in the new block, so the headers of the list are untouched |
| `Scheduler.TaskScheduler.OnTick` | src/proc/scheduler.c:96-103 | every tenth tick asks for a switch when there are two tasks |
| `Scheduler.TaskScheduler.ScanTasks` | src/proc/scheduler.c:153-160 | the next runnable slot after the current one |
| `Scheduler.TaskScheduler.SwitchFromIsr` | src/proc/scheduler.c:131-164 | saves the interrupted context and returns the chosen one's stack pointer |
| `Scheduler.TaskScheduler.RaiseInterrupt` | asm/interrupt.s:93-98 | tick, then switch |
| `Scheduler.TaskScheduler.StartScheduling` | src/proc/scheduler.c:85-94 | turns scheduling on and switches away, unless no task is runnable |
| `Scheduler.TaskScheduler.TaskYield` | src/proc/scheduler.c:105-109 | asks for a switch and raises the interrupt |
| `Scheduler.TaskScheduler.ExitTask` | src/proc/scheduler.c:111-129 | the current task becomes a zombie with its code and is switched away from |
| `Scheduler.TaskScheduler.WaitFor` | src/proc/scheduler.c:166-181 | -1 unless a zombie has the pid; else its code, its stack freed and its slot unused |
| `RamfsRuns.WriteReadBack` | src/fs/ramfs.c:41-72 | reads return the bytes last written, after any run of other calls, growth of other files, heap use by others with its header writes, and stores clear of files and headers; and the path still leads to the file |
| `RamfsRuns.ReachableInv` | src/fs/ramfs.c:97-178 | in every reachable state children are dense, distinctly named and fewer than 9, the heap's headers are intact in memory, and file data lies in separate live heap blocks |
| `RamfsRuns.NoBlockLost` | src/fs/ramfs.c:49-178 | over any run of calls the live blocks that no name leads to stay the same exactly when no call grows an unlinked file |
| `RamfsRuns.LeakStep` | src/fs/ramfs.c:49-72 | a call leaves a lost block behind exactly when one was there or it grows an unlinked file |
| `RamfsRuns.UnlinkedWriteLeaks` | src/fs/ramfs.c:49-178 | unlink a file and grow it through the old node pointer: its new block is lost |
| `RamfsRuns.HeapStepBacked` | src/mm/heap.c:30-78 | allocations, and releases of blocks that are no file's, leave every file and the heap's headers intact |
| `RamfsRuns.AddEffect` | src/fs/ramfs.c:122-154 | creation succeeds exactly for a new non-empty name while the pool lasts, adds one empty entry to the map, never overflows the child array, and keeps names distinct exactly when the name cut to 127 bytes is new |
| `RamfsRuns.UnlinkEffect` | src/fs/ramfs.c:156-178 | unlinking succeeds exactly for an existing name and removes it from the map |
| `RamfsRuns.WriteEffect` | src/fs/ramfs.c:49-72 | a write changes the file's own entry of the map and nothing else |
| `RamfsRuns.WriteData` | src/fs/ramfs.c:49-72 | when a write goes through, how many bytes it accepts, and the resulting contents; every other node keeps its bytes |
| `RamfsRuns.GrownStep` | src/fs/ramfs.c:57-66 | moving a file to a larger block, with all header writes of the allocation and the release, keeps its bytes and everybody else's |
| `RamfsRuns.GrowthFits` | src/fs/ramfs.c:57-58 | the new block is large enough exactly when the new size does not wrap in `align8` |
| `RamfsRuns.ReadGives` | src/fs/ramfs.c:41-47 | a read gives the asked-for part of the contents, cut at the end |
| `RamfsRuns.LongNameTwice` | src/fs/ramfs.c:27-39 | any name of 128 bytes or more can be made twice, with equal stored names |
| `RamfsRuns.InitialInv` | src/fs/ramfs.c:97-120 | at first the map holds hello.txt with its text |
| `RamfsTree.ResolveName` | src/fs/vfs.c:41-66 | a name with any leading and trailing slashes leads exactly to the live node of that name |
| `RamfsTree.NothingDeeper` | src/fs/vfs.c:52-64 | a path of two or more names leads nowhere |
| `RamfsFacts.ResolveRoot` | src/fs/vfs.c:41-49 | a path of slashes only leads to the root, the empty path nowhere |
| `RamfsFacts.ResolveDeeper` | src/fs/vfs.c:52-64 | a path with something behind a name and a slash leads nowhere |
| `RamfsFacts.ClippedIs` | src/fs/ramfs.c:30-34 | a name keeps at most its first 127 bytes |
| `RamfsFacts.FirstFile` | src/fs/ramfs.c:94-106 | at the start the root holds hello.txt with its text |
| `RamfsFacts.PoolOfNine` | src/fs/ramfs.c:7-27 | a new name is taken as long as fewer than nine nodes were ever used; the sixteen places of the root are never all needed |
| `RamfsFacts.NewFileTakesBytes` | src/fs/ramfs.c:141-154 | a file that was just made is empty, and a write to it is taken whole exactly when the heap has a block for it |
| `RamfsTree.FindsChild` | src/fs/ramfs.c:85-95 | a live node is found under its name |
| `Ramfs.RamFileSystem.constructor` | src/fs/ramfs.c:97-120 | the initial state |
| `Ramfs.RamFileSystem.AllocNode` | src/fs/ramfs.c:27-39 | the next pool node with the cut name, or -1 when nine are taken |
| `Ramfs.RamFileSystem.FindChild` | src/fs/ramfs.c:85-95 | position of the first child with the name |
| `Ramfs.RamFileSystem.AddChild` | src/fs/ramfs.c:122-128 | appends to the root's children unless 16 are there |
| `Ramfs.RamFileSystem.Make` | src/fs/ramfs.c:130-154 | create and mkdir do what the state machine says, and keep the invariant exactly when they fail or the cut name is new |
| `Ramfs.RamFileSystem.Remove` | src/fs/ramfs.c:156-178 | unlink: the block is freed, the gap closed |
| `Ramfs.RamFileSystem.CloseGap` | src/fs/ramfs.c:169-173 | the children without the one at the given position |
| `Ramfs.RamFileSystem.WriteFile` | src/fs/ramfs.c:49-72 | result, node, heap and all of memory after a write |
| `Ramfs.RamFileSystem.Grow` | src/fs/ramfs.c:57-66 | a new block, the bytes moved, the old block freed, with the headers written to the same memory; nothing changes without a block |
| `Ramfs.RamFileSystem.ReadFile` | src/fs/ramfs.c:41-47 | the bytes read |
| `Ramfs.RamFileSystem.FindDir` | src/fs/vfs.c:36-39 | the child of the root with that name |
| `Ramfs.RamFileSystem.ResolvePath` | src/fs/vfs.c:41-66 | the node the names of the path lead to |
| `Printing.DivMod` | src/lib/kprintf.c:12-38 | the true quotient and remainder for every 64-bit value and non-zero 32-bit base |
| `Printing.BitOrBits` | src/lib/kprintf.c:27-34 | a bit of the disjunction that builds the quotient is set exactly when it is set in one of the two |
| `Printing.NumeralDecodes` | src/lib/kprintf.c:40-61 | the digits decode to the value, without a leading zero |
| `Printing.NumeralLength` | src/lib/kprintf.c:40-61 | the digit count is at most k exactly for values below base^k |
| `Printing.NumeralFitsBuffer` | src/lib/kprintf.c:40-61 | a 64-bit value needs fewer than 32 digits in bases 10 and 16 |
| `Printing.BufferHoldsNumeral` | src/lib/kprintf.c:45-53 | the 32-character buffer holds every digit exactly for values below base^32 |
| `Printing.PrintedNumberDecodes` | src/lib/kprintf.c:40-61 | in bases 10 and 16 what is emitted has max(width, digits) characters and decodes to the value |
| `Printing.NumeralDigits` | src/lib/kprintf.c:40-53 | every character is a decimal digit or a letter from A on, small unless capitals are wanted, and worth less than the base |
| `Printing.PaddingChars` | src/lib/kprintf.c:6-10 | the padding consists of the padding character |
| `Printing.PrintUint` | src/lib/kprintf.c:40-61 | padding, then the digits most significant first |
| `Printing.FillDigits` | src/lib/kprintf.c:45-53 | the buffer holds the digits in reverse |
| `Printing.PrintInt` | src/lib/kprintf.c:63-70 | sign, padding to the width less the sign, digits |
| `ElfStack.AddressSpace.PrepareStack` | src/user/elf.c:65-96 | fails exactly for a bad stack or count or strings that do not fit; else the argument block stands at esp, only bytes between esp and the stack top changed, and it stays inside the stack exactly when array and count fit below the strings |
| `ElfStack.ArgumentsReadBack` | src/user/elf.c:65-96 | a program reading its argument block finds exactly the given arguments |
| `ElfStack.LayoutDisjoint` | src/user/elf.c:71-93 | strings lie side by side up to the stack top, array and count below them, esp aligned |
| `ElfStack.SmallStackOverruns` | src/user/elf.c:66-93 | sixteen empty arguments pass the checks on a 64-byte stack and overrun it |
| `ElfStack.AddressSpace.CopyStrings` | src/user/elf.c:71-82 | succeeds exactly when all strings fit, and stores each with its NUL |
| `ElfStack.AddressSpace.WritePointers` | src/user/elf.c:84-90 | one pointer for each argument, then a null |

## Left out

- Null pointer arguments, which the entry points check first and refuse.
- Device errors in the FAT driver: sector reads and writes succeed. A failed FAT read is returned as 0, the same value as a free cluster.
- FAT32 directory walking, FAT12, the second FAT copy (never written by the code) and `fat_list_root`.
- Files inside subdirectories on FAT: an entry of a subdirectory may own a chain of any length, but what the chain holds is not looked into; `FatTheorems.UsedClusterUntouched` covers clusters owned from there.
- FatDriver.Driver.Init: needs 512-byte sectors, a disk as large as the boot sector says, and on FAT16 a FAT with room for every cluster; the code checks none of these.
- FatDriver.Driver.ReadFile: reads at most 2^32 - 512 bytes; beyond that the code overruns the buffer.
- FatDriver.Driver.CopyChain: the same limit.
- FatDriver.Driver.WriteFile: needs the links of the replaced chain to stay inside the FAT; the code would follow them outside it.
- Heap.KernelHeap.constructor: the heap ends below 2^32.
- Heap.KernelHeap.Kfree: a pointer inside the heap must be the payload of a block; anything else corrupts the list.
- Frames.FrameAllocator.Init: no usable and no reserved region ends inside or behind the last, partial frame of the map, where the code would touch bits past the bitmap's frames; 64-bit sums in the memory map do not wrap.
- Frames.FrameAllocator.FreeRegion: the rounded region ends no later than the last frame.
- Frames.FrameAllocator.ReserveRegion: the same.
- Scheduler.TaskScheduler.WaitFor: interrupts do not arrive inside `scheduler_add`, `scheduler_wait` and `scheduler_exit`, nor between the three stores of `scheduler_start`; the code does not disable them there. One that reschedules after `scheduler_exit` has set the state and before it has counted would leave the active counter too high.
- Scheduler.TaskScheduler.Add: pids are unbounded integers; the code's `int` overflows after 2^31 tasks.
- RamfsRuns.WriteEffect: the offsets of Ramfs.RamFileSystem.WriteFile.
- RamfsRuns.WriteData: the offsets of Ramfs.RamFileSystem.WriteFile.
- Ramfs.RamFileSystem.WriteFile: offset plus size stays below 2^32, and at most 0xFFFFFFF8 for files that can grow; the code does not check. What a gap between the old end and the offset holds is not said, because the new block is not cleared.
- Ramfs.RamFileSystem.ReadFile: offset plus size does not wrap.
- `ramfs_readdir`, inode numbers and the length field kept beside the size.
- Printing.PrintInt: the smallest 64-bit integer, whose negation overflows.
- ElfStack.AddressSpace.PrepareStack: stacks in the lowest 76 addresses and string lengths that wrap the address sum; argument strings are values, so they do not overlap the stack.
- ELF loading, `kvprintf` and its argument handling, the shells, logger and monitor.
- Port I/O drivers, interrupt and segment tables, paging, and assembly other than the order of handler and switch.
- The ring buffers of the keyboard, input and IPC code: fixed arrays with a head and a tail index, independent of everything above.
