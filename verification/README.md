# PutkaOS, verified

A Dafny model of the parts of PutkaOS that are data structures and arithmetic rather than
hardware, with proofs of what they keep and promise. `dafny verify dfyconfig.toml` checks
everything.

- **Memory** (`Words`, `PhysicalFrames`, `PageTables`, `AddressSpaces`, `VirtualRuns`,
  `Territories`, `VirtualMemory`, `MemorySteps`, `MemoryRuns`, `Heaps`). Frames are an array of
  1024-entry tables (`Ram`), the bitmaps are arrays of 32-bit words, and a ghost map `own` gives every
  frame in use its owner: a directory, a page-table slot, a page slot, or nothing any more. The
  invariant `Valid` says that the owned frames and the frames named by page-table entries are the same,
  each named once, that every page table is named by an entry that is present, writable and for whom it
  should be, and that owned and free frames together are all of RAM above the kernel. Each call
  of the memory manager is a step between states (`Step`); in every state of every run a frame is free,
  in use by one owner, or lost, and as many are lost as pages were mapped twice. The same is done for
  runs of `malloc` and `free`.
- **Mount table** (`MountTree`). The search takes the first child that matches; the proof is that
  insertion keeps an order that makes the first match the longest one, in every run.
- **Block devices** (`FlatBlocks`, `BlockDevice`, `BlockCaches`, `BlockFiles`). `BlockCaches` has the
  device with its one-block buffer as a value, and the exact condition on which a transfer is one in
  a flat array of bytes; `BlockFiles` is the stream, each call of which is such a transfer. Without
  a seek the condition always holds.
- **FAT12** (`BlockChains`, `FatTable`, `FatGrowth`, `FatFiles`, `FatVolumes`). The table packs and
  unpacks losslessly exactly for entries a disk can hold; chains stay acyclic, disjoint and terminated
  while they grow, and a growing chain takes the lowest free clusters and changes nothing else; a file
  reads, seeks and writes as the flat bytes of its chain, and where a stream loses its place the
  contracts say when; a run over all files of a volume is the run of flat files that share the free
  clusters.
- **Text editor** (`FlatTexts`, `TextEditor`). The rows with their terminators are one string
  joined by newlines, and every key does to them what it does to that string at the cursor; a session
  of keys and commands leaves in the file what was there when it was last written.
- **64-bit arithmetic and number text** (`Arithmetic`, `Int64`, `Numerals`, `Printing`, `Parsing`,
  `RoundTrips`). Division on wrapping words, C99's signed division, printing in pieces of nine
  digits, and parsing as the inverse of printing, with any width, precision, side and sign flag.
- **Linked list** (`Sequences`, `IntrusiveLists`). Nodes on the heap with the end node embedded in
  the head refine a sequence.
- **Minix** (`MinixZones`, `MinixFiles`). Freeing a file's zones clears exactly its bits of the
  map; transfers are cut at zone borders and put together again.
- **Scheduler** (`Scheduling`). A thread that stays runnable has its turn within `MAX_THREADS`
  calls, whatever happens to the others.

Where the code does not do what it is for, the model keeps the code and a lemma or contract gives
the exact condition:

- `sysfree` works out where an area ends in 32 bits, so an area that ends at the top of the address
  space is struck from the table but stays mapped (`EndPageWraps`, `TakenBack`). On a machine with
  4 GiB of RAM one request and one free are enough to use up the user region for good
  (`LoseUserRegion`).
- `map_virtual_page` does not look whether a page is mapped already; if it is, the old frame is lost
  (`ReplaceLeaf`, `MapLeaf`, `MapTwice`), provided that there is a frame to replace it. No other call of
  the memory manager loses one (`StepLoses`, `RunLoses`).
- After a seek, a transfer of whole blocks can miss a changed buffer, or be undone by it
  (`TransferReads`, `TransferWrites`; `StaleRead` and `StaleWrite` bring it about on any device).
- A 16-bit table entry from 0xff0 to 0xffef does not survive a 12-bit table (`PairRoundTrip`), so
  chains survive it exactly when no cluster but the first of each is 0xff0 or higher
  (`ForestSurvives`).
- `fat16_fsetpos` to an earlier cluster changes the cluster's number and not the cluster (`SetPos`).
- `fat16_fwrite` does not renew `last_cluster`, so a stream that has made its file longer may not find
  what it added; `Read`, `SetPos` and `SeekAndRead` say exactly what it still can find.
- `fat16_fwrite` is stopped exactly when the data goes further than the chain and all free clusters
  together; it then leaves the stream at the start of the last cluster, so that writing on goes over the
  file's own last cluster (`Write`, `WriteOn`).
- `minix_freadwrite` works in 32 bits, also on the lower half of a 64-bit position: a transfer that
  starts behind its end, in the last zone, and an empty one at the very start ask the device for too
  much (`GoesRight`, `ReadGoesRight`, `WriteGoesRight`); so does one for which only some zones are found.
- With a slash at the end of the mount point, `mount_something` does not notice that it is in use,
  and copies a path without an end (`MountSomething`).
- In base 10, `strtoimax` does not notice numbers from 2^64 on (`ClampExactly`, `ClampFails`), and
  `strtoumax` behind a minus sign is right for 1 and for what does not fit, and for nothing else
  (`UMaxExactly`).
- In base 16 the parser takes `0x` for a prefix even when no digit follows, and stops behind it
  (`ParseText`), where section 7.20.1.4 of C99 has it stop behind the 0.
- `INT64_MIN / -1` gives `INT64_MIN` (`DivDi3`).

Some facts that the code, rather than a contract, shows: the editor's cursor keys can never be
read, because their codes do not fit the `unsigned char` they are compared with; `fprintf_uint`
never fills with zeros, because it always has a precision; `fmt_uint_64` prints nothing for zero;
loading the last row of a text copies one byte from behind the file's buffer, which the terminator
then replaces.

## Model

| member | source | states |
|---|---|---|
| PhysicalFrames.InitialBitmap | src/memory/init.c:33-55 | the words that are left, partial ones included, have a clear bit exactly for the frames from the kernel's end to the end of RAM |
| PhysicalFrames.FrameAllocator.InitPhysPageBitmaps | src/memory/init.c:20-56 | the counter is exact and the free frames are exactly those above the kernel; it panics exactly when RAM has no whole word of frames behind the kernel |
| PhysicalFrames.FrameAllocator.SetFrameBit | src/memory/memory.c:93-98 | one bit of the bitmap changes and no other |
| PhysicalFrames.FrameAllocator.AllocPhysPage | src/memory/memory.c:59-100 | the lowest free frame is taken, the counter and the hint stay exact, and the "failed counting it" panic cannot be reached |
| PhysicalFrames.FrameAllocator.FreePhysPage | src/memory/memory.c:106-116 | the frame is free afterwards, freeing it twice changes nothing, counter and hint stay exact |
| PageTables.AddLeaf | src/memory/memory.c:372-379 | naming an unowned frame in an empty page slot and recording the owner keeps entries and owners in step |
| PageTables.RemoveLeaf | src/memory/memory.c:428-429 | clearing a page slot and dropping the owner keeps them in step |
| PageTables.ReplaceLeaf | src/memory/memory.c:372-379 | overwriting a page slot in use keeps them in step if the frame it named counts as lost |
| PageTables.AddTable | src/memory/memory.c:359-370 | a cleared frame can become a page table of an empty directory slot, under an entry that is present, writable and open to programs |
| PageTables.RemoveTable | src/memory/memory.c:597-629 | a page table without pages can be given up |
| PageTables.AddDirectory | src/memory/memory.c:438-493 | a frame that holds the kernel's slots and nothing else can become a directory |
| PageTables.RemoveDirectory | src/memory/memory.c:597-629 | a directory without private page tables can be given up |
| PageTables.StoreLeaf | src/memory/memory.c:164-179 | what a program writes into its own pages disturbs no table |
| AddressSpaces.Isolation | src/memory/memory.c:347-383 | one frame is never behind two pages, in one address space or two, but for shared kernel pages |
| AddressSpaces.MappedFramesAreLeaves | src/memory/memory.c:347-383 | no page leads to a page table or a directory |
| AddressSpaces.KernelPagesShared | src/memory/memory.c:438-493 | all directories translate kernel pages alike |
| AddressSpaces.DisjointUnion | src/memory/memory.c:309-456 | a directory is named by no entry, a lost frame neither, and every other owned frame by exactly one |
| AddressSpaces.StoreKeepsTranslations | src/memory/memory.c:164-179 | writing to a mapped page changes no translation |
| AddressSpaces.MapLeaf | src/memory/memory.c:372-379 | a new page entry, over an empty one or over one in use, keeps ownership and changes this one translation, in all directories that share the slot; the frame that was there is lost |
| AddressSpaces.UnmapLeaf | src/memory/memory.c:412-430 | removing one keeps ownership and changes this one translation |
| AddressSpaces.NewTable | src/memory/memory.c:359-370 | a new page table keeps ownership and every translation |
| AddressSpaces.NewDirectory | src/memory/memory.c:438-493 | a new directory keeps ownership and every translation of the others |
| AddressSpaces.Walk | src/memory/memory.c:347-383 | an address is translated by bits 22 to 31 in the directory and bits 12 to 21 in the table |
| AddressSpaces.DirectoryUsable | src/memory/memory.c:359-370 | above every mapped page the directory entry is present and writable, and open to programs exactly outside the kernel's region |
| VirtualRuns.Extend | src/memory/memory.c:265-297 | a run of unmapped pages that became long enough is the lowest that is |
| VirtualRuns.Exhausted | src/memory/memory.c:248-301 | a search that came to the end of the region without one proves there is none |
| VirtualRuns.RunCostGrows | src/memory/memory.c:309-338 | the number of frames a longer run needs is no smaller |
| VirtualRuns.RunCostBound | src/memory/memory.c:309-338 | a run needs at most a frame a page and one for each page table it reaches into |
| VirtualRuns.FitsPlainly | src/memory/memory.c:248-301 | a run fits exactly when it lies in the region, given in page numbers, and no page of it is mapped |
| VirtualRuns.MappedInFront | src/memory/memory.c:248-301 | in front of the first fit, and anywhere in the region if there is none, every run that long has a mapped page |
| VirtualRuns.RunUsable | src/memory/memory.c:309-338 | both entries above every page of a mapped run are present and writable, and for programs exactly in a user's run; the frame was free |
| VirtualRuns.RunAlone | src/memory/memory.c:309-338 | the frames of a mapped run are all different, and no other page of any directory is translated differently, but for those that share the kernel's tables |
| VirtualRuns.FitIsUnique | src/memory/memory.c:248-301 | there is only one first fit |
| VirtualRuns.FitSucceeds | src/memory/memory.c:309-338 | when there is a first fit, an allocation fails exactly when the free frames do not cover its cost |
| VirtualRuns.MapNext | src/memory/memory.c:324-328 | one more page mapped: the pages of the run so far have fresh, distinct frames, and nothing else has changed |
| VirtualRuns.UnmapLast | src/memory/memory.c:332-336 | one page unmapped again: the run so far is one page shorter, and nothing else has changed |
| VirtualRuns.BackToStart | src/memory/memory.c:332-337 | when all are unmapped, every translation is the old one and only tables were added |
| VirtualRuns.AddedTablesEmpty | src/memory/memory.c:332-337 | the tables a failed allocation leaves behind are empty |
| VirtualRuns.UndoMapped | src/memory/malloc.c:119-127 | unmapping exactly a run that was mapped brings every translation back |
| VirtualMemory.Conservation | src/memory/memory.c:16-19 | owned frames and free frames add up to all of RAM above the kernel |
| VirtualMemory.KernelTablesOwned | src/memory/init.c:95-143 | the first page tables are in order and map the kernel image onto itself and nothing else, every entry present, writable and for the kernel alone |
| VirtualMemory.Paging.MemoryInit | src/memory/init.c:95-143 | the invariant holds from the start, with every frame above the kernel free and the kernel's entries as they are spelled out; exactly when RAM is large enough |
| VirtualMemory.Paging.AddPageTable | src/memory/memory.c:359-370 | adds one table under a present, writable entry that is open to programs, changes no translation, fails exactly when no frame is free |
| VirtualMemory.Paging.MapVirtualPage | src/memory/memory.c:347-383 | succeeds exactly when there are frames for the page and, if missing, its table; the page, mapped before or not, then has a fresh frame, its old frame is lost, and every other translation is as before; both entries above it are present and writable, the page's open to programs if it was mapped for them and the table's if it is not one of the kernel's; on failure no translation has changed |
| VirtualMemory.Paging.UnmapVirtualPage | src/memory/memory.c:390-432 | panics exactly when the page is not mapped; otherwise its frame is free and only its translation is gone |
| VirtualMemory.Paging.FindFreeVirtualPages | src/memory/memory.c:248-301 | the lowest start of enough consecutive unmapped pages in the region, whose page numbers are spelled out; 0 exactly when there is none or, for the kernel, RAM is too small |
| VirtualMemory.Paging.FreePagesOnError | src/memory/memory.c:332-337 | the pages mapped so far are unmapped again and nothing else changes |
| VirtualMemory.Paging.MapRun | src/memory/memory.c:324-337 | the loop maps the whole run at its exact cost, or, when the frames do not reach, unmaps again what it has mapped |
| VirtualMemory.Paging.AllocVirtualPages | src/memory/memory.c:309-338 | all or nothing: the first fit is mapped to fresh distinct frames at its exact cost, with both entries above every page present, writable and open to programs exactly for a user's run, and no other translation changes; or no translation has changed and only empty tables were added; it fails if and only if one of three causes holds (`AllocFails`) |
| VirtualMemory.Paging.BuildNewPagedir | src/memory/memory.c:438-493 | a new directory translates the kernel's pages and nothing else, through the same entries, and disturbs no other; fails exactly when no frame is free |
| VirtualMemory.Paging.FreePagedir | src/memory/memory.c:597-629 | frees exactly the directory, its private tables and their pages, keeps every other translation, panics exactly for the kernel's and the active directory |
| VirtualMemory.Paging.Store | src/memory/memory.c:205-240 | a program writing to its page changes that frame alone, keeps the invariant and every translation |
| Territories.ReleaseLeaf | src/memory/memory.c:597-629 | freeing one page of a dying directory moves one frame of its territory to the free ones |
| Territories.ReleaseTable | src/memory/memory.c:597-629 | so does freeing one of its emptied tables |
| Territories.ReleaseRest | src/memory/memory.c:597-629 | when all tables are gone only the directory itself is left of the territory |
| Heaps.AddressIsUnique | src/memory/malloc.c:77-129 | live areas have different addresses, so the search of `sysfree` cannot take the wrong one |
| Heaps.AddArea | src/memory/malloc.c:58-75 | a new area is disjoint from every live one, which all stay mapped |
| Heaps.DropArea | src/memory/malloc.c:112-127 | unmapping pages of one area leaves the other areas mapped and disjoint |
| Heaps.EndPageWraps | src/memory/malloc.c:112-127 | the page `sysfree` stops at is the area's end if and only if the area does not end at 2^32 |
| Heaps.AllottedPlainly | src/memory/malloc.c:43-75 | an area is as large as the request and less than a page larger, whole pages from a page border on, inside its region |
| Heaps.MallocPlainly | src/memory/malloc.c:32-75 | a request fails exactly for its four causes; otherwise every byte of it lies on a page that was not mapped and now is, present and writable at both levels and open to programs exactly for a user |
| Heaps.FreedPlainly | src/memory/malloc.c:112-129 | a free clears the entry of every page of the area and no other, unless the area ends at 2^32, and clears its place in the table |
| Heaps.CanFreePlainly | src/memory/malloc.c:77-110 | a free goes ahead exactly if an area of the process has the address and a user does not name one in front of the user region |
| Heaps.Heap.FindSlot | src/memory/malloc.c:47-56 | the first free place in the table, or that there is none |
| Heaps.Heap.Sysmalloc | src/memory/malloc.c:32-75 | fails if and only if memory, the size, the table or the address space is at fault, and then table and translations are as before; otherwise the first free place describes a page-aligned area on the first fit that is as large as the request and less than a page larger, and every byte of the request lies on a page that was free and is now mapped, usable at both levels for the one who asked |
| Heaps.Heap.Sysfree | src/memory/malloc.c:77-129 | frees exactly when an area matches and, for a user, lies in the user region; takes out the first match and clears exactly the entries of its pages, unless the area ends at 2^32; a kernel's failure panics, a user's is refused, and nothing changes; the panics of `unmap_virtual_page` cannot occur |
| Heaps.TakenBack | src/memory/malloc.c:32-129 | freeing what was allocated brings table and translations back, unless the area ends at 2^32: then its pages stay mapped |
| Heaps.MallocThenFree | src/memory/malloc.c:32-129 | the same through the two calls, which fail exactly when `sysmalloc` has a cause: every page is translated as before if the request ends in front of the last page of the address space; otherwise each of its bytes stays mapped |
| Heaps.WholeRegionGranted | src/memory/malloc.c:32-75 | with 4 GiB of RAM a request for the whole user region succeeds |
| Heaps.LoseUserRegion | src/memory/malloc.c:32-129 | that request and its free, on a machine just started: the table is empty, every user page stays mapped, and no later run of user pages fits |
| Heaps.MallocKeeps | src/memory/malloc.c:32-75 | an allocation neither moves nor unmaps a live area |
| Heaps.FreeKeeps | src/memory/malloc.c:77-129 | nor does a free with another address |
| Heaps.AllottedUntilFreed | src/memory/malloc.c:32-129 | in every run what an allocation returned stays in the table, as large as it was asked for, and each of its bytes on the same frame until a free with its address |
| Heaps.Call | src/memory/malloc.c:32-129 | each request is a step, of allocation or of free, and a panic changes nothing |
| Heaps.Requests | src/memory/malloc.c:27-129 | every run of requests in one address space is a sequence of such steps from an empty table on, cut short only by a panic; in all its states live areas are whole mapped pages and pairwise disjoint, byte for byte |
| MemorySteps.UsedIsOwned | src/memory/memory.c:309-456 | a frame is owned and not lost exactly when a directory of the process table accounts for it |
| MemorySteps.DirectoryFreed | src/memory/memory.c:597-629 | after freeing a directory the process table still knows every directory, once |
| MemorySteps.StepLoses | src/memory/memory.c:309-629 | what a step adds to the lost frames is the old frame of a page mapped twice, if there was a frame to replace it, and nothing else; what is lost stays lost |
| MemorySteps.RunLoses | src/memory/memory.c:309-629 | in every run as many frames are lost as calls lost one; none if and only if no call did |
| MemorySteps.MapTwice | src/memory/memory.c:347-383 | mapping a page twice in a row, anywhere in a run, loses the first frame if there was one more free |
| MemorySteps.RunIsExact | src/memory/memory.c:309-629 | in every state of every run a frame is free, in use or lost, and only one of these; the frames not free are exactly those in use if and only if no call so far lost one; owned and free frames add up |
| MemorySteps.RunIsolates | src/memory/memory.c:309-629 | in every state of every run a frame behind a page is behind no other page of any process, kernel pages apart, is not free and holds no table |
| MemoryRuns.Run | src/memory/memory.c:309-629 | starting succeeds exactly when RAM is large enough; from then on every run of operations is a sequence of steps from the initial state, cut short only by a panic |
| MemoryRuns.Execute | src/memory/memory.c:309-629 | every single operation, whatever its arguments, is its step: what it changes, why it fails, and that it panics exactly when it should |
| MemoryRuns.ProcessLife | src/memory/memory.c:438-629 | building a directory, filling it and freeing it leaves owners, free frames and translations exactly as they were |
| MountTree.FindIsInCharge | src/filesys/mount.c:68-108 | the mount found covers the name, and what is returned is the text below it |
| MountTree.FindIsLongest | doc/irc-keskustelu_device-jutuista.txt:44 | no mount that covers the name has a longer path than the one found first |
| MountTree.FoundByOwnKey | src/filesys/mount.c:68-108 | every mount is found by its own path |
| MountTree.PlacesAfterInsert | src/filesys/mount.c:305-327 | an insertion keeps every mount in its place with its path, and adds one |
| MountTree.NewKey | src/filesys/mount.c:268-328 | the path down to the new mount is the mount point that was asked for |
| MountTree.InsertKeepsOrdered | src/filesys/mount.c:268-328 | mounting below what the search finds keeps the order that makes the first match the longest |
| MountTree.InsertKeepsPaths | src/filesys/mount.c:268-328 | every mount still carries its full path |
| MountTree.LongestPrefix | doc/irc-keskustelu_device-jutuista.txt:44 | the answer for any absolute path is the mount with the longest path that is the name or a directory above it; that path, a slash and the text that is left are the name |
| MountTree.MountOneFound | src/filesys/mount.c:268-328 | a new mount is found at once by its own path, and the others are untouched |
| MountTree.MountStays | src/filesys/mount.c:268-328 | a mount keeps its place, path and device in every run |
| MountTree.FirstRequestWins | src/filesys/mount.c:268-328 | what a run asks for, by any absolute path without a slash at its end, is mounted at its end, on the device that was asked for first unless it was mounted before |
| MountTree.EveryRun | src/filesys/mount.c:268-328 | in every run of mounts, in any order of mount points, each that was asked for is mounted at the end and found by its path, and every answer is the mount with the longest path that is the name or above it, with exactly the text below |
| MountTree.StrRmSame | putka-clib/src/string.c:260-267 | how far two strings agree |
| MountTree.SameUpTo | src/filesys/mount.c:84-99 | the test on that length holds exactly for a key that covers the name |
| MountTree.MountTable.FindChild | src/filesys/mount.c:84-99 | the loop finds the first child that covers the name |
| MountTree.MountTable.EtsiKohta | src/filesys/mount.c:68-108 | the loop with its moving pointers is the recursive search; it answers exactly absolute paths |
| MountTree.UsedPath | src/filesys/mount.c:288-296 | without a slash at the end, the search consumes the mount point exactly when it is in use |
| MountTree.MountTable.MountSomething | src/filesys/mount.c:268-328 | refuses a used path exactly when a mount has it, or, with a slash at the end, when a lone slash is left; reports each failure exactly, the path without an end too, and otherwise adds one mount below what the search finds; the tree changes in no other case but that of the path without an end |
| FlatBlocks.FlatReplace | src/devices/blockdev/blockdev.c:273-286 | replacing blocks is replacing their bytes in the flat array |
| FlatBlocks.FlatPatch | src/devices/blockdev/blockdev.c:186-195 | writing inside a block is writing inside the flat array |
| FlatBlocks.SpliceParts | src/devices/blockdev/blockdev.c:186-195 | data written into an array is there, byte by byte, and no other byte has changed |
| FlatBlocks.FlatByte | src/devices/blockdev/blockdev.c:163-237 | byte r of block k is byte k * size + r of the flat array |
| BlockDevice.Device.ReadBlocks | src/devices/blockdev/blockdev.c:258-271 | block by block, the bytes of a run of blocks |
| BlockDevice.Device.WriteBlocks | src/devices/blockdev/blockdev.c:273-286 | block by block, a run of blocks gets the bytes and no other block changes |
| BlockCaches.ThroughView | src/devices/blockdev/blockdev.c:174-195 | bytes moved through the buffer are moved in the flat view |
| BlockCaches.PastReads | src/devices/blockdev/blockdev.c:197-215 | a read past the buffer is what the flat view holds if and only if a changed buffer in its way equals its block |
| BlockCaches.PastWrites | src/devices/blockdev/blockdev.c:197-215 | a write past it arrives in the flat view on the same condition |
| BlockCaches.TransferReads | src/devices/blockdev/blockdev.c:163-237 | a whole read gives the bytes of the flat view if and only if `ReadOk` held before, and never changes the view |
| BlockCaches.TransferWrites | src/devices/blockdev/blockdev.c:163-237 | a whole write is a write in the flat view and leaves a truthful buffer if and only if `WriteOk` held before |
| BlockFiles.StaleRead | src/devices/blockdev/blockdev.c:163-237 | on any device, after one byte written and a seek to 0, a read of the first block misses the byte |
| BlockFiles.StaleWrite | src/devices/blockdev/blockdev.c:57-237 | ... and a write of the first block is undone by the flush |
| BlockFiles.BlockFile.constructor | src/devices/blockdev/blockdev.c:93-148 | the view starts as the device, with nothing buffered |
| BlockFiles.BlockFile.Flush | src/devices/blockdev/blockdev.c:57-70 | the device becomes equal to the view, the view stays, and the buffer is kept |
| BlockFiles.BlockFile.FillBuffer | src/devices/blockdev/blockdev.c:72-90 | another block is buffered, and a changed one is written first |
| BlockFiles.BlockFile.CopyThroughBuffer | src/devices/blockdev/blockdev.c:186-195 | part of a block is read or written through the buffer, which stays changed after a write |
| BlockFiles.BlockFile.TransferBytes | src/devices/blockdev/blockdev.c:163-237 | head, whole blocks and tail leave device, buffer and result as the transfer of `BlockCaches` says, and the position behind the bytes |
| BlockFiles.BlockFile.ReadWrite | src/devices/blockdev/blockdev.c:163-237 | all items are moved and the position advances by their bytes; device and buffer are those of the transfer; the flat view behaves as one array of bytes if and only if `ReadOk` or `WriteOk` held before |
| BlockFiles.BlockFile.SetPos | src/devices/blockdev/blockdev.c:35-55 | succeeds exactly inside the device or at its end, keeps the view |
| BlockFiles.Perform | src/devices/blockdev/blockdev.c:163-237 | without a seek, each call is one step of a flat file, unconditionally |
| BlockFiles.FlatStepPlainly | src/devices/blockdev/blockdev.c:163-237 | of a flat file, what is read are the bytes from the position on, and what is written is there afterwards and nothing else has changed |
| BlockFiles.SequentialRun | src/devices/blockdev/blockdev.c:57-237 | so is every run of calls, and after the last flush the disk is the flat file, with nothing changed outside it |
| FatTable.PairRoundTrip | src/filesys/fat/fat16.c:139-178 | an entry survives packing if and only if it is below 0xff0 or at least 0xfff0 |
| FatTable.PairOnDisk | include/filesys/fat/fat16.h:8-12 | three bytes on disk, the lowest first, have the first entry in their lower twelve bits and the second in the upper twelve |
| FatTable.TwelveBitKinds | include/filesys/fat/fat16.h:54-58 | of the twelve bits on disk, 0 is a free cluster, 2 to 0xfef are one in use, and 0xff8 and up the end of a chain |
| FatTable.BytesRoundTrip | src/filesys/fat/fat16.c:139-178 | any three bytes are what packing their entries gives |
| FatTable.TableRoundTrip | src/filesys/fat/fat16.c:139-178 | a table of such entries is read back as it was written |
| FatTable.DiskRoundTrip | src/filesys/fat/fat16.c:139-178 | reading a disk's table and writing it changes no byte |
| FatTable.ChainSurvives | src/filesys/fat/fat16.c:139-192 | a chain is still one after the table was written and read if and only if its clusters but the first are below 0xff0 |
| FatTable.ForestSurvives | src/filesys/fat/fat16.c:139-192 | so are all chains together |
| FatTable.ChainUnique | src/filesys/fat/fat16.c:96-99 | the table alone decides the chain from a cluster on |
| FatTable.ChainDistinct | src/filesys/fat/fat16.c:96-99 | a terminated chain has no cluster twice |
| FatTable.ExtendKeepsForest | src/filesys/fat/fat16.c:179-192 | adding a free cluster to a chain's end keeps all chains acyclic, disjoint and terminated |
| FatTable.StartKeepsForest | src/filesys/fat/fat16.c:179-192 | so does starting a chain with a free cluster |
| FatGrowth.ExtendOnlyGrows | src/filesys/fat/fat16.c:179-192 | giving a chain the lowest free cluster changes no other chain, no entry outside the chain and no other free cluster; free and chained clusters add up |
| FatGrowth.GrowByOnlyGrows | src/filesys/fat/fat16.c:179-192 | so does giving it n of them, and it gets n or as many as there are |
| FatGrowth.GrowByAdds | src/filesys/fat/fat16.c:179-192 | growing in two goes is growing in one |
| FatGrowth.HowFar | src/filesys/fat/fat16.c:541-599 | a write that only a full table stops and that takes no cluster early gets exactly as far as there is room, and leaves exactly one table |
| FatTable.Table.SetNextCluster | src/filesys/fat/fat16.c:179-192 | the lowest entry that is 0, from 2 on, becomes 0xffff and is linked behind the chain, which has exactly it more; a table without one changes nothing |
| FatTable.Table.WriteFat | src/filesys/fat/fat16.c:159-178 | the loop writes the packed table: every three bytes have two entries in their lower and upper twelve bits |
| FatTable.Table.ReadFat | src/filesys/fat/fat16.c:139-158 | the loop reads the unpacked table: the lower and the upper twelve bits of every three bytes, plus 0xf000 from 0xff0 on |
| BlockChains.InCluster | src/filesys/fat/fat16.c:444-449 | bytes inside one cluster are a slice of the bytes of the whole chain |
| BlockChains.ByteOfChain | src/filesys/fat/fat16.c:444-449 | byte r of part k of a chain is on the device r bytes behind dataStart + (chain[k] - 2) * size |
| BlockChains.PatchChain | src/filesys/fat/fat16.c:558-599 | writing inside one cluster is writing inside the bytes of the chain |
| BlockChains.PatchCluster | src/filesys/fat/fat16.c:558-599 | ... and changes no other cluster and nothing in front of the clusters |
| BlockChains.ProgressWrites | src/filesys/fat/fat16.c:583-595 | one more piece written adds to what was written over the chain |
| BlockChains.ProgressGrows | src/filesys/fat/fat16.c:489-501 | a chain that has grown keeps what was written |
| FatFiles.FatFile.NextCluster | src/filesys/fat/fat16.c:503-516 | succeeds exactly as far as the last cluster the stream knows of and then stands on the next element of the chain |
| FatFiles.FatFile.ReadPiece | src/filesys/fat/fat16.c:571-595 | one round of the loop reads a slice of the chain's bytes and keeps the stream on the chain |
| FatFiles.FatFile.ReadItems | src/filesys/fat/fat16.c:558-599 | items are read as far as the stream can reach, and are the slice of the chain's bytes from the position on |
| FatFiles.FatFile.ReadEndPlainly | src/filesys/fat/fat16.c:518-539 | nothing is read from behind the end of the file, no more than is asked for, less than an item more than is left, and all that is left if that much is asked for and the file has not grown since it was opened |
| FatFiles.FatFile.Read | src/filesys/fat/fat16.c:518-539 | for every count and size, in the file or past its end: the bytes, the items counted and the position are given exactly; inside the file all is read if and only if the stream can reach it; the stream stays sound on an exact condition |
| FatFiles.FatFile.SetPos | src/filesys/fat/fat16.c:606-641 | for every position: succeeds exactly up to the size the stream knows, in a cluster there is; the numbers become those of the position, and the stream stands on the chain if and only if the cluster is not an earlier one |
| FatFiles.FatFile.WriteNextCluster | src/filesys/fat/fat16.c:489-501 | goes on along the chain and leaves the table alone, or adds the lowest free cluster at its end and changes nothing else; fails, changing nothing, exactly at the end of a full table |
| FatFiles.FatFile.WritePiece | src/filesys/fat/fat16.c:571-595 | one round writes a piece at the position, with the lowest free cluster when one is needed and only then, or stops at the start of the last cluster when there is none |
| FatFiles.FatFile.WriteItems | src/filesys/fat/fat16.c:558-599 | a prefix of the data is written over the chain, which grows only by the lowest free clusters and only by what the data takes; all of it unless the table is full, and then the stream stands at the start of the last cluster; the items returned are those written whole |
| FatFiles.FatFile.Write | src/filesys/fat/fat16.c:541-556 | as much is written as there is room for in the chain and the free clusters together; the table afterwards is exactly that of the growth this takes; the chain's bytes have the data at the position and are otherwise the old ones, every other chain keeps its clusters and its bytes; the stream stays sound if and only if all was written, and knows its file's size if and only if that has not grown |
| FatFiles.FatFile.OthersKept | src/filesys/fat/fat16.c:541-556 | what is written over one chain leaves the bytes of every other chain alone |
| BlockChains.WrittenIsRead | src/filesys/fat/fat16.c:541-599 | what was written over a chain is what the chain has there, and the rest of it is unchanged |
| FatFiles.SeekAndRead | src/filesys/fat/fat16.c:518-641 | data of the file is found by seek and read, through a stream that may have made the file longer, if and only if it begins no later than the size the stream knows and ends no later than the last cluster it knows or the one it begins in |
| FatFiles.WriteThenRead | src/filesys/fat/fat16.c:518-641 | data written to a file, which may have to grow, is read back from it once it is opened again if and only if there was room for it |
| FatFiles.WriteOn | src/filesys/fat/fat16.c:541-599 | writing on after a full table goes over the first bytes of the file's own last cluster |
| FatFiles.Perform | src/filesys/fat/fat16.c:518-641 | a read, or a seek that is not to an earlier cluster, is one step of a flat file |
| FatFiles.ReadRun | src/filesys/fat/fat16.c:518-641 | so is every run of them from opening the file on |
| FatVolumes.ContentAfter | src/filesys/fat/fat16.c:541-599 | a file of which part was written over has the data there and is otherwise what it was, also when its chain has grown |
| FatVolumes.WriteTo | src/filesys/fat/fat16.c:541-599 | a write to one file of a volume is that of a flat file with so many clusters and so many free ones |
| FatVolumes.ReadFrom | src/filesys/fat/fat16.c:518-641 | a read or a seek is that of a flat file |
| FatVolumes.ClustersAddUp | src/filesys/fat/fat16.c:179-192 | in every run of the flat files no cluster is gained or lost |
| FatVolumes.WritePlainly | src/filesys/fat/fat16.c:541-599 | behind any run, a write to a flat file goes over its bytes from its place on, exactly as far as its clusters and the free ones reach; nothing else changes but the number of clusters of this file and of free ones |
| FatVolumes.ReadPlainly | src/filesys/fat/fat16.c:518-539 | behind any run, a read gets the bytes from the file's place on, as many as there are, if the file is as long as when it was opened |
| FatVolumes.VolumeRun | src/filesys/fat/fat16.c:518-641 | every run of reads, seeks and writes over all files of a volume is the run of those flat files: contents, sizes, positions, clusters, free clusters and what is read, up to the first write that finds too little room, and that write too |
| FlatTexts.JoinAround | src/utils/texteditor.c:155-158 | any line can be taken as the middle of the joined text |
| FlatTexts.EditLine | src/utils/texteditor.c:415-423 | changing inside a line changes the joined text in the same place |
| FlatTexts.SplitLine | src/utils/texteditor.c:383-411 | cutting a line in two puts a newline into the joined text |
| FlatTexts.TypingInserts | src/utils/texteditor.c:383-426 | typing any text of printable characters, tabs and newlines puts exactly it in front of the cursor |
| FlatTexts.BackspacesErase | src/utils/texteditor.c:329-382 | backspaces take away exactly that many characters before the cursor |
| FlatTexts.TypeAndErase | src/utils/texteditor.c:329-426 | typing and as many backspaces bring text and cursor back |
| FlatTexts.LeftForGood | src/utils/texteditor.c:244-264 | what is typed after the editor was left changes nothing |
| FlatTexts.OtherCommands | src/utils/texteditor.c:244-264 | escape and anything but q and w changes nothing, and so does w if the file cannot be opened |
| FlatTexts.WriteAndQuit | src/utils/texteditor.c:244-264 | after any keys, a write command, any keys and a quit command the file is the text at the time of the write, or the old one if it could not be opened |
| TextEditor.InsertChar | src/utils/texteditor.c:415-423 | the shifting loop makes room for one character and keeps the terminator |
| TextEditor.RemoveChar | src/utils/texteditor.c:338-345 | the shifting loop closes one column up, and its early exit is at the terminator |
| TextEditor.AppendRow | src/utils/texteditor.c:349-366 | a row is joined to the one before it |
| TextEditor.CutRow | src/utils/texteditor.c:394-408 | a row is cut in two at the cursor, both halves terminated |
| TextEditor.ShiftUp | src/utils/texteditor.c:369-376 | the rows below close up over a removed one |
| TextEditor.ShiftDown | src/utils/texteditor.c:384-393 | the rows below move down by one |
| TextEditor.LoadRows | src/utils/texteditor.c:210-229 | the loaded rows, joined, are the file |
| TextEditor.Editor.constructor | src/utils/texteditor.c:205-229 | the opened document is the file with the cursor at its start |
| TextEditor.Editor.Insert | src/utils/texteditor.c:415-423 | a typed character appears at the cursor of the flat text |
| TextEditor.Editor.NewLine | src/utils/texteditor.c:383-411 | so does a newline |
| TextEditor.Editor.Backspace | src/utils/texteditor.c:329-382 | the character before the cursor goes, joining rows at column 0; at the start nothing happens |
| TextEditor.Editor.Key | src/utils/texteditor.c:329-426 | every character from the space on, a tab and a newline go in front of the cursor, 8 takes away what is there, and every other character below the space does nothing |
| TextEditor.Editor.Keys | src/utils/texteditor.c:244-426 | every run of keys without escape, from every valid cursor, does to the flat text what it should, and rows, terminators and cursor stay valid |
| TextEditor.Editor.Write | src/utils/texteditor.c:143-163 | the written file is the flat text |
| TextEditor.Editor.Take | src/utils/texteditor.c:244-264 | one character, a key, an escape or the command after it, does to text and file what it should |
| TextEditor.Session | src/utils/texteditor.c:143-426 | whatever is typed, with escape and its commands, the file and whether the editor was left are those of the flat text |
| Int64.ShiftedIsProduct | putka-clib/src/int64.c:25-39 | b shifted n times is 2^n * b |
| Int64.WrappedTests | putka-clib/src/int64.c:31-32 | the two comparisons on wrapped sums together hold exactly when the true sum is too large |
| Int64.UDivRem | putka-clib/src/int64.c:10-39 | a == q * b + r with r < b for all 64-bit a and b, and a division error exactly for b == 0 |
| Int64.C99Division | putka-clib/src/int64.c:41-64 | truncated quotient and remainder are the one pair that section 6.5.5 of C99 asks for: a == q * b + r, with r smaller than b and of the sign of a |
| Int64.DivDi3 | putka-clib/src/int64.c:41-47 | the truncated quotient, if and only if it is not INT64_MIN / -1; there it is INT64_MIN |
| Int64.ModDi3 | putka-clib/src/int64.c:54-64 | the truncated remainder, for every a and every b but 0 |
| Numerals.DigitCharacters | putka-clib/src/stdio.xprintf.c:150-157 | which characters are digits of base 10 and 16, what each is worth, and which of them is printed |
| Numerals.ValueOfDigits | putka-clib/src/stdio.xprintf.c:96-103 | the digits of a number have its value and no zero in front, in base 10 and 16 |
| Numerals.DigitsSplit | putka-clib/src/stdio.xprintf.c:104-127 | the digits of a number are those of its upper part and then all k of its lower part |
| Numerals.PaddedIsZeros | putka-clib/src/stdio.xprintf.c:111-113 | exactly k digits are zeros and the shortest digits |
| Printing.FmtUint32 | putka-clib/src/stdio.xprintf.c:96-103 | the shortest decimal digits are in the buffer up to the end, and nothing else is written |
| Printing.FmtUint64 | putka-clib/src/stdio.xprintf.c:104-127 | so are those of a 64-bit number, through pieces of nine digits with their zeros |
| Printing.NextPiece | putka-clib/src/stdio.xprintf.c:110-125 | what remains to be written after one piece of nine |
| Printing.FmtHex64 | putka-clib/src/stdio.xprintf.c:150-157 | the shortest hexadecimal digits, small or big |
| Printing.ArrangedPlainly | putka-clib/src/stdio.xprintf.c:214-281 | the text is as long as sign and digits, or precision, or width ask for; sign, zeros, digits and spaces stand each in its place |
| Printing.FprintfUint | putka-clib/src/stdio.xprintf.c:214-281 | sign, zeros up to the precision and digits, with spaces up to the width on the right side, for every tag; the result is the length of all that |
| Printing.FprintfInt | putka-clib/src/stdio.xprintf.c:283-290 | the same for the magnitude, behind a minus sign for negative numbers, INT64_MIN too, with its length |
| Parsing.DisjointOr | putka-clib/src/inttypes.c:118-127 | or-ing a digit under bits that are zero adds it |
| Parsing.HexDigits | putka-clib/src/inttypes.c:109-128 | the value of up to 16 hexadecimal digits |
| Parsing.DecimalDigits | putka-clib/src/inttypes.c:168-175 | the value of decimal digits, modulo 2^64 |
| Parsing.StrToUMaxSgn | putka-clib/src/inttypes.c:18-208 | the moving pointers stop after spaces, sign, prefix, zeros and digits, and the digits are worth what `Worth` says |
| Parsing.StrToUMax | putka-clib/src/inttypes.c:210-219 | that value, or UINTMAX_MAX behind a minus sign |
| Parsing.StrToIMax | putka-clib/src/inttypes.c:221-236 | that value with its sign, stopped at the ends of the range |
| RoundTrips.ParsePrinted | putka-clib/src/inttypes.c:18-208 | spaces, a sign flag, zeros, the digits of a number and spaces are parsed as that number, its sign and its end |
| RoundTrips.LayoutParses | putka-clib/src/stdio.xprintf.c:214-281 | every number with sign, zeros and spaces, for any width, precision and side, is parsed as that number |
| RoundTrips.IntThroughText | putka-clib/src/inttypes.c:221-236 | `strtoimax` undoes `fprintf_int` on all int64 values, as section 7.8.2.3 of C99 requires |
| RoundTrips.UintThroughText | putka-clib/src/inttypes.c:210-219 | `strtoumax` undoes `fprintf_uint` on all uint64 values |
| RoundTrips.DigitsThroughText | putka-clib/src/stdio.xprintf.c:104-157 | `strtoumax` undoes `fmt_uint_64` in base 10 and `fmt_hex_64` in base 16 |
| RoundTrips.HexAtLeast | putka-clib/src/inttypes.c:109-128 | more than 16 hexadecimal digits without a zero in front are worth at least 2^64 |
| RoundTrips.ParseText | putka-clib/src/inttypes.c:18-208 | white space of all six kinds, a sign, 0x or 0X in base 16, digits of any number, and anything that does not go on with them: the parser stops behind the digits and has their value, modulo 2^64 in base 10, at most 2^64 - 1 in base 16 |
| RoundTrips.ParseSigned | putka-clib/src/inttypes.c:18-208 | digits of any number behind an optional sign are parsed to the end; base 10 wraps at 2^64, base 16 stops there |
| RoundTrips.ClampExactly | putka-clib/src/inttypes.c:221-236 | `strtoimax` stops at the ends of the range as it should, with and without a minus sign, if and only if the base is 16, the number is below 2^64, or what is left of it is beyond the same end |
| RoundTrips.ClampFails | putka-clib/src/inttypes.c:173-175 | the digits of 2^64 + 1 give 1 |
| RoundTrips.UMaxExactly | putka-clib/src/inttypes.c:210-219 | `strtoumax` is what section 7.8.2.3 of C99 asks for if and only if, behind a minus sign, the number is 1 or at least 2^64 and, otherwise, the base is 16, the number is below 2^64 or what is left of it is 2^64 - 1 |
| IntrusiveLists.PutIn | src/list.c:47-64 | a node linked in between two neighbours leaves a well linked list |
| IntrusiveLists.TakeOut | src/list.c:25-29 | a node passed over on both sides leaves a well linked list without it |
| IntrusiveLists.List.constructor | include/list.h:47-50 | an empty list with its end node |
| IntrusiveLists.List.Insert | src/list.c:36-66 | inserts one fresh node with the value before or after the place; refuses, changing nothing, exactly without memory or behind the end |
| IntrusiveLists.List.Unlink | src/list.c:25-29 | the links of a well linked list without the node |
| IntrusiveLists.List.Erase | src/list.c:21-34 | removes exactly the node, frees it, and returns its successor; the freed node cannot be reached; nothing happens for the end or no list |
| IntrusiveLists.List.Destroy | src/list.c:7-20 | frees every node once and leaves an empty list of size 0 |
| IntrusiveLists.List.Run | src/list.c:21-66 | every run of insertions and removals does to the list what it does to a sequence |
| IntrusiveLists.List.Forwards | include/list.h:68 | the loop over the list visits the items in order |
| IntrusiveLists.List.Backwards | include/list.h:63-66 | so do the back links, in reverse |
| MinixZones.ClearedTwice | src/filesys/minix/maps.c:56-71 | clearing the bits of two sets of zones is clearing those of their union |
| MinixZones.FileSystem.FreeZone | src/filesys/minix/maps.c:65-71 | one zone's bit, number zone + 1 - first data zone, is cleared and no other |
| MinixZones.FileSystem.FreeStd | src/filesys/minix/zones.c:306-312 | the direct zones are freed and their pointers zero |
| MinixZones.FileSystem.FreeIndirect | src/filesys/minix/zones.c:318-325 | an index zone and all it names, if it can be read |
| MinixZones.FileSystem.FreeTables | src/filesys/minix/zones.c:333-345 | the index zones under the doubly indirect one and all they name |
| MinixZones.ZonesPlainly | src/filesys/minix/zones.c:287-355 | which zones are a file's: the direct ones, each index zone, and what the index zones name |
| MinixZones.FileSystem.FreeAllZones | src/filesys/minix/zones.c:287-355 | clears exactly the bits of all zones of the file, index zones included, and zeroes the inode's pointers |
| MinixZones.FreedExact | src/filesys/minix/zones.c:287-355 | a map that was exact for all files is exact for the others afterwards |
| MinixFiles.MinixFile.Piece | src/filesys/minix/minix.c:432-437 | one transfer inside a zone moves the bytes of the file at that place |
| MinixFiles.ByteOnDisk | src/filesys/minix/minix.c:432-437 | byte i of a file is on the device at 1024 times its zone number i / 1024, plus i % 1024 |
| MinixFiles.ReadGoesRight | src/filesys/minix/minix.c:407-488 | a read of a file without holes goes right unless it starts behind the end of the file in its last zone, or is empty at the start of more than one zone |
| MinixFiles.WriteGoesRight | src/filesys/minix/minix.c:407-488 | the same for writes, which also need all of their zones or none |
| MinixFiles.MinixFile.Zones | src/filesys/minix/minix.c:442-479 | rest of the first zone, whole zones and start of the last are together the byte range, if and only if all zones were found and the transfer is not empty |
| MinixFiles.MinixFile.FReadWrite | src/filesys/minix/minix.c:407-488 | without an inode nothing happens; otherwise, in 32 bits and for every transfer: it overruns zone or transfer if and only if it does not go right; if it does, a read moves exactly the bytes from the position to the end of the transfer or of the file, a write to the end of the transfer or of the largest file, as far as there are zones; each byte moved is the one of the file's zones on the device, and position, size and result follow |
| MinixFiles.ReadsBack | src/filesys/minix/minix.c:407-504 | what was written is what is read there, and the rest of the file is unchanged |
| Scheduling.Scheduler.FindRunningThread | src/multitasking/thread.c:148-163 | the first thread after the last one found that is running and whose process is; none exactly when there is no such thread |
| Scheduling.Scheduler.Rounds | src/multitasking/thread.c:148-163 | any number of calls, with any change to the tables in between |
| Scheduling.BoundedWaiting | src/multitasking/thread.c:148-163 | a thread that stays running in a running process has its turn within its distance, at most 1024 calls, and until then no thread has two turns |

## Left out

- VirtualMemory.Paging.UnmapVirtualPage: only for pages behind the kernel image, whose own frames no caller gives up.
- VirtualMemory.Paging.MapVirtualPage: only for pages behind the kernel image, for the same reason.
- VirtualMemory.Paging.BuildNewPagedir: only for argument 0, the one it is called with; the copying branch is never reached.
- PhysicalFrames.FrameAllocator.AllocPhysPage: the out-of-memory panic returns 0, as the statement behind it does, so that the callers' error exits have something to prove; swap is a stub that never gives a page.
- MountTree.MountTable.MountSomething: whether the device opens and has a file system is a parameter; the tree is left open after a path was copied without its end.
- BlockFiles.BlockFile.ReadWrite: device operations succeed, and transfers lie inside the device and below 2^32 bytes; behind the end it is up to the driver what they find.
- FatTable.Table.SetNextCluster: tables of at most 0xfff0 entries, since the numbers from there on mean the end of a chain.
- FatTable.Table.WriteFat: for an even number of entries; with an odd one the loop takes one from behind the table.
- FatTable.Table.ReadFat: likewise; with an odd number the loop writes behind the table.
- FatFiles.FatFile.Read: for a stream that stands where its numbers say, not for one that has walked backwards or was stopped by a full table.
- FatFiles.FatFile.SetPos: walks backwards are not repaired.
- FatFiles.FatFile.Write: device operations succeed.
- FatVolumes.VolumeRun: files are there already, since directories are not part of this model; a stream that does not know the size of its file is not read.
- TextEditor.Session: whether the file can be opened for writing is a parameter, the same for a whole session; drawing is left out; buffers are values, so which rows share a pointer in the middle of a shifting loop is not modelled.
- Printing.FprintfUint: the output takes all it is given, and the C `int` of width and precision does not overflow.
- Parsing.StrToUMaxSgn: bases 10 and 16; the other branches, base 0 and the null pointer are left out.
- MinixFiles.MinixFile.FReadWrite: the zones that can be found are given, device operations succeed, and nothing follows a transfer that overruns.
- MinixZones.FileSystem.FreeAllZones: memory for the index zones is available, and zone numbers are in the map.
- Hardware: port I/O, interrupts, descriptor tables, cr3 and TLB, all device drivers and screen output.
- The temporary windows `temp_phys_page`, `temp_page_directory` and `temp_page_table`, which become direct access to a frame.
- `alloc_program_space`, `resize_stack`, `sysrealloc` and `kcalloc`: sequences of calls that are modelled.
- `umount`, `mount_replace` and the parent pointers of the mount tree; lookup does not use them.
- FAT16's table on disk, the root directory, and directory lookup.
- `minix_get_zones` and the bitmap allocation behind it, whose loops are unfinished; directories and inodes.
- ext2, whose block numbering is unfinished.
- `__udivdi3`, `__umoddi3` and `imaxabs`, which only call what is modelled.
- printf's other conversions, floating point, calendar time, timers, thread and process accounting.
