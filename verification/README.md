# Labrador: memory, heaps, trees, paths, scheduling and formatting

Labrador is a small x86-64 kernel with a UEFI loader.  This project models the parts of it that keep
data structures in memory, and proves what they keep and what they compute.  It follows the C code as
it is written.  Where the code does not do what it is evidently for, the model keeps the code's
behaviour, and a theorem says for exactly which inputs it does.

Each component comes in two layers.  A specification module defines the operations as functions on
values and proves the properties of all inputs and all runs.  A code module (`...Code`, `KernelMemory`,
`AvlNodes`, `LinkedList`, and the `Loader` class) has the loops, arrays and linked objects of the
source, with each method proved to compute the specification.

| component | modules |
|---|---|
| page tables over a free list threaded through physical memory; page faults | `PageTables`, `PageRights`, `Vmm`, `VmmRuns`, `Regions`, `PmmInit`, `Remap`, `KernelMemory` |
| the loader's batch mapping and memory map | `BatchMap`, `BootSpec`, `BootMap` |
| the AVL tree of regions | `AvlTree`, `AvlInsert`, `AvlNodes` |
| the two boundary-tag heaps | `BlockList`, `HeapMemory`, `FixedHeap`, `FixedHeapCode`, `GrowingHeap`, `GrowingHeapCode` |
| path canonicalisation | `CanonicalPath`, `CanonicalPathCode` |
| the mount tree, over any file system and over a tar archive | `MountTree`, `MountEffects`, `MountTar`, `MountCode` |
| the linked list, the scheduler and the sleep queue | `LinkedList`, `Scheduler`, `SchedulerRuns`, `SchedulerLoss`, `SchedulerCode` |
| the ramdisk and tar archives | `Ramdisk`, `RamdiskCode`, `Tar`, `TarListing`, `TarCode` |
| number formatting, `snprintf` and `atoi` | `Numerals`, `NumeralsCode`, `Format`, `Directives`, `FormatCode` |
| shared | `Basics`, `Powers` |

The components meet where the kernel's do: the memory map that `BootMap` builds feeds `pmm_init`
(`BootMap.BuildMemoryMap`, `PmmInit.BootEstablishesInv`), the loader's tables become the kernel's
(`Remap.RemapHandsOverTree`), the tar walk reads through the ramdisk (`TarCode.Tarfs.ReadHeader`), and
a relative path is joined by the formatter (`CanonicalPathCode.JoinPath`).

## Reading the results

Several statements are exact conditions, because the code meets its purpose on some inputs only:

- AVL insert exchanges the conditions of its two right-heavy cases (`AvlInsert.InsertIsSoundUnlessFaulty`).
- `kmalloc` does not reserve room for a header when it grows the heap, and does not return for some
  sizes (`GrowingHeap.MallocEndsExactly`).  `kfree` joins list neighbours without comparing addresses
  (`GrowingHeap.ReleaseStaysInsideExactly`).
- `list_insert_before` a null node counts but does not link (`LinkedList.List.InsertBefore`); therefore
  the longest sleeper of a list that is not empty is lost for good (`SchedulerLoss.LongestSleeperIsLost`,
  `SchedulerLoss.LostForGood`).  A tick that wakes the thread it interrupts doubles it
  (`Scheduler.TickDoubles`).  `switch_next` gives interrupts back before it changes stacks, and a tick
  there can lose the thread it interrupts, or the one just chosen, at once or later
  (`Scheduler.WindowTickExactly`, `SchedulerLoss.WindowTickLoses`, `SchedulerLoss.IdleChosenLosesLater`).
  In all other cases no thread is lost or doubled (`Scheduler.StepConserves`).
- `vfs_mount` moves its path pointer to the end of a name and not behind it, so that from the second
  missing name on it looks up the empty name.  Where the file system does not answer that, it follows a
  null pointer (`MountTree.MountEndsExactly`).  The tar driver does, and the mount lands elsewhere, hides
  its mount point or changes nothing, and reports success (`MountEffects.MountPointExactly`,
  `MountTar.TarMountExactly`).
- `ramdisk_read` miscounts a read that ends on a block boundary, and some reads of nothing or past the end
  leave the block table (`Ramdisk.ReadExactly`).
- `_ntoa` takes back digits in alternate form when they fill the field (`Numerals.NtoaShowsExactly`),
  signed conversions print the two's complement behind the sign (`Numerals.SignedShowsMagnitudeExactly`,
  `Directives.PlainNumber`),
  and `atoi` overflows 48 before its range ends (`NumeralsCode.AtoiInvertsExactly`).

## Model

| member | source | states |
|---|---|---|
| PageTables.WalkIsLookup | src/kernel/arch/x86_64/vmm.c:46-88 | in an unshared tree of tables, the processor's four-level walk of a page gives exactly what the last-level table reached by the page's names holds |
| PageTables.DescendKeepsTree | src/kernel/arch/x86_64/vmm.c:56-87 | one level of the descent, with a zeroed frame from the pool linked in where a table is missing, keeps an unshared tree of tables and moves no page |
| PageTables.InstallIsOneUpdate | src/kernel/arch/x86_64/vmm.c:56-95 | installing an entry through up to three new tables changes the translation of the one page and of no other |
| PageTables.InstallEntry | src/kernel/arch/x86_64/vmm.c:94-95 | after an installation the last-level entry of the page is the masked address with bits 0 and 1, present and writeable, and no other bit, and only that page's translation changes |
| PageTables.EntryAddressIsInLeaf | src/kernel/arch/x86_64/vmm.c:102-118 | the four reads of `get_pte` end at the page's word of the last-level table |
| PageRights.InstallFills | src/kernel/arch/x86_64/vmm.c:56-95 | of all words in the tables, a mapping stores exactly the page's own and those of the tables that were missing on its way, each an address with just the present and writeable bits |
| PageRights.FilledWrites | src/kernel/arch/x86_64/vmm.c:56-95 | whether the processor may write through the four levels: a mapped page can be written unless a table on its way was linked without that right before, and every other page exactly if it could be |
| Vmm.FreeListPop | src/kernel/arch/x86_64/pmm.c:75-77 | the head of the free list is the first free frame, and the link stored in it is the list of the others |
| Vmm.FreeListPush | src/kernel/arch/x86_64/pmm.c:84-85 | writing the old head into a frame that is not on the list, and making it the head, adds it in front |
| Vmm.AccountsTake | src/kernel/arch/x86_64/pmm.c:72-73 | free and used memory change together: free memory stays the length of the list, and the total stays what it was |
| Vmm.LinkPageIsInstall | src/kernel/arch/x86_64/vmm.c:46-95 | `map_page` up to the last entry is one installation, and the free list gives up exactly the frames of the tables that were missing |
| Vmm.ReachLeafInBounds | src/kernel/arch/x86_64/vmm.c:46-88 | with a sound tree and enough free frames, no step down touches a frame that does not exist |
| VmmRuns.MapPageIsOneUpdate | src/kernel/arch/x86_64/vmm.c:46-97 | the whole of `map_page`, including the clearing of the page through its new address, is one update of the translation |
| VmmRuns.MapPageTranslates | src/kernel/arch/x86_64/vmm.c:46-97 | after `map_page` the page walks to the given frame and its entry holds it, and every other page, also in the direct map, walks where it did |
| VmmRuns.MapPageWrites | src/kernel/arch/x86_64/vmm.c:46-97 | after `map_page`, with its clearing, the word at the page's entry address is plain (present, writeable, nothing else), the page can be written unless a table on its way was barred before, and every other page exactly if it could be |
| VmmRuns.LookupAtEntryAddress | src/kernel/arch/x86_64/vmm.c:99-119 | where the tables of a page exist, the word at the address that `get_pte` computes decides the translation, also when it maps nothing |
| VmmRuns.HandleFaultIsOneUpdate | src/kernel/arch/x86_64/vmm.c:135-136 | a repaired page fault maps its page to the frame at the head of the free list, zeroed, and changes no other translation |
| VmmRuns.StepKeepsInv | src/kernel/arch/x86_64/vmm.c:121-164 | every event (fault, region, frame taken or given back, store) keeps tables, free list, demand-mapped data and held frames pairwise disjoint, and loses no frame |
| VmmRuns.StepRefines | src/kernel/arch/x86_64/vmm.c:121-164 | a program that looks only at its own pages sees fresh zeroed private pages: each machine step is a step of a memory without frames |
| VmmRuns.RunRefines | src/kernel/arch/x86_64/vmm.c:121-164 | the same over every possible run, with the partition kept to the end |
| VmmRuns.NoAliasing | src/kernel/arch/x86_64/vmm.c:121-143 | in every state of a run, no two pages share a demand frame and no page leads to a page table or to a free frame |
| PmmInit.InitStocksUsable | src/kernel/arch/x86_64/pmm.c:17-53 | after `pmm_init` the free list holds every whole free frame of the map except frame 0, each once, only those frames have been written, and the counters add up |
| PmmInit.InitCounts | src/kernel/arch/x86_64/pmm.c:17-53 | the counters after `pmm_init`, modulo 2^64: memory is the sum of all entries, reserved that of those neither free nor the loader's, free the usable frames, and used the rest of the free and loader entries |
| PmmInit.BootEstablishesInv | src/kernel/arch/x86_64/pmm.c:17-53 | `pmm_init` brings a loaded machine into the invariant that every run keeps |
| Remap.RemapMovesIdentity | src/kernel/arch/x86_64/vmm.c:13-24 | after the root entry has moved, each page of the direct map walks where the identity-mapped page did, and can be written exactly if that could, slot 0 maps nothing, and the other slots are as before |
| Remap.RemapHandsOverTree | src/kernel/arch/x86_64/vmm.c:13-24 | the loader's table tree, without its identity slot, is the kernel's table tree, without its direct map |
| KernelMemory.KernelMemory.RemapPhysicalMemory | src/kernel/arch/x86_64/vmm.c:13-24 | the two writes to the root table, and no other word |
| KernelMemory.KernelMemory.AllocatePage | src/kernel/arch/x86_64/pmm.c:71-78 | pops the head of the list in place, with the counters |
| KernelMemory.KernelMemory.FreePage | src/kernel/arch/x86_64/pmm.c:80-86 | pushes a frame in place, with the counters |
| KernelMemory.KernelMemory.EnsureTable | src/kernel/arch/x86_64/vmm.c:54-67 | one level of `map_page` in place: the table followed, or popped, zeroed and linked |
| KernelMemory.KernelMemory.MapPage | src/kernel/arch/x86_64/vmm.c:46-97 | the whole of `map_page` on physical memory, within bounds |
| KernelMemory.KernelMemory.GetPte | src/kernel/arch/x86_64/vmm.c:99-119 | where the last-level table exists, returns the address of the page's word in it; the page walks exactly if that word is present, and then to its frame |
| KernelMemory.KernelMemory.AllocRegion | src/kernel/arch/x86_64/vmm.c:160-164 | moves the break by whole pages and returns the old one |
| Regions.RegionsStackExactly | src/kernel/arch/x86_64/vmm.c:160-164 | over any run the regions handed out lie one behind the other from the first break to the last if and only if the bytes asked for do not carry the break out of the address space |
| Regions.RegionsUsable | src/kernel/arch/x86_64/vmm.c:121-164 | in such a run they are disjoint and below the break, and a not-present fault at any of their addresses but null is repaired |
| KernelMemory.KernelMemory.PageFaultHandler | src/kernel/arch/x86_64/vmm.c:121-143 | halts, with memory as it was, exactly for a protection fault, a null pointer or an address above the break; otherwise repairs the fault and keeps the invariant |
| KernelMemory.KernelMemory.Init | src/kernel/arch/x86_64/pmm.c:17-53 | the two loops of `pmm_init`, in place |
| BatchMap.RunMapsPages | src/bootloader/main.c:36-90 | mapping the first n pages of a segment makes page j translate to its base frame plus j, writes only tables, and uses at most the tables the run touches |
| BatchMap.SpanBound | src/bootloader/main.c:55-87 | a run of n pages touches at most 3 tables plus one more for every 512, 512^2 and 512^3 pages begun |
| BatchMap.SegmentsMapPages | src/bootloader/main.c:34-91 | the same for all segments in turn, with the pool frames used in order and each once |
| BatchMap.SegmentsTranslate | src/bootloader/main.c:22-95 | afterwards every page translates as the last segment that covers it says, and otherwise as before |
| BatchMap.SegmentsWrite | src/bootloader/main.c:22-95 | afterwards the entry of every page of a segment is plain, and the page can be written unless a table on its way was barred before; every other page can exactly if it could |
| BatchMap.SeparateAssigned | src/bootloader/main.c:36-41 | for segments whose pages do not meet, page j of each segment gets its base frame plus j |
| BatchMap.Loader.MapPages | src/bootloader/main.c:22-95 | the loops of `MapPages` on physical memory, which consume no more than the stated number of pool frames |
| BootMap.BubblePass | src/bootloader/main.c:149-157 | one pass over the array, and the early-exit flag only if the map is sorted |
| BootMap.Sort | src/bootloader/main.c:146-160 | the early-exit bubble sort in place: a sorted permutation that says the same of memory |
| BootMap.JoinedSame | src/bootloader/main.c:164-166 | merging two entries that touch keeps, for every byte and kind, how often it is covered, and the total size |
| BootMap.JoinedSorted | src/bootloader/main.c:164-166 | a merge keeps the order, and no earlier pair comes to touch |
| BootMap.MergeNeighbours | src/bootloader/main.c:162-170 | the merging loop, with an index that wraps below zero, ends with no two neighbours that could still be merged and the same memory |
| BootMap.BuildMemoryMap | src/bootloader/main.c:97-173 | from any non-empty list of descriptors whose ranges do not wrap to such a map; if their free ranges are whole pages that do not overlap, so are the map's; and a frame other than 0 is usable if and only if the firmware lists it as conventional memory |
| BootMap.SameFramesUsable | src/kernel/arch/x86_64/pmm.c:26-37 | maps that say the same of memory give the frame allocator the same frames |
| BootMap.ApartIsOnce | src/kernel/arch/x86_64/pmm.c:26-37 | free entries do not overlap if and only if no byte is covered twice, which is what sorting and merging keep |
| AvlTree.StoredHeightIsDepth | src/kernel/arch/x86_64/vmm_avl.c:8-13 | in a balanced tree the stored height is the depth |
| AvlTree.RotateRightKeeps | src/kernel/arch/x86_64/vmm_avl.c:39-48 | a right rotation keeps the entries in order |
| AvlTree.RotateLeftKeeps | src/kernel/arch/x86_64/vmm_avl.c:50-59 | a left rotation keeps the entries in order |
| AvlTree.RebalanceBalances | src/kernel/arch/x86_64/vmm_avl.c:144-166 | the four cases of delete restore balance from a difference of at most two, and lower the height by at most one |
| AvlTree.DeleteRemoves | src/kernel/arch/x86_64/vmm_avl.c:112-167 | delete leaves exactly the other entries, with their sizes and flags, in order, also when the successor is copied up |
| AvlTree.DeleteIsSound | src/kernel/arch/x86_64/vmm_avl.c:112-167 | delete of a search-ordered balanced tree gives another one, with the entries but for the key, and a height less by 0 or 1 |
| AvlInsert.InsertPlaces | src/kernel/arch/x86_64/vmm_avl.c:76-110 | where insert returns, the tree holds the old entries in order, and the new one if its key is new, whatever rotations ran |
| AvlInsert.InsertIsSoundUnlessFaulty | src/kernel/arch/x86_64/vmm_avl.c:89-109 | insert into a balanced tree gives a balanced tree if and only if the right-heavy cases, whose conditions are exchanged, do not decide the outcome; the condition is read off the tree and the key before the call |
| AvlInsert.IncreasingKeysFail | src/kernel/arch/x86_64/vmm_avl.c:96-107 | three increasing keys: the third insert follows a null pointer |
| AvlNodes.RotateRightAt | src/kernel/arch/x86_64/vmm_avl.c:39-48 | the rotation on nodes in place |
| AvlNodes.RotateLeftAt | src/kernel/arch/x86_64/vmm_avl.c:50-59 | the rotation on nodes in place |
| AvlNodes.GetMinNode | src/kernel/arch/x86_64/vmm_avl.c:29-37 | the loop down the left links finds the node of the first entry |
| AvlNodes.RebalanceNode | src/kernel/arch/x86_64/vmm_avl.c:144-166 | the four cases in place |
| AvlNodes.DeleteAt | src/kernel/arch/x86_64/vmm_avl.c:112-167 | the recursive delete on nodes, with the copy from the successor, against the function on trees; the nodes left are the old ones without the one that is given to `kfree` |
| AvlNodes.InsertAt | src/kernel/arch/x86_64/vmm_avl.c:76-110 | the recursive insert on nodes, wherever it does not follow a null pointer |
| BlockList.ReleaseIsSplice | src/kernel/kernel/heap.c:117-133 | freeing and coalescing both ways replaces a block and its free neighbours by one free block of their joint extent |
| BlockList.CarveExactly | src/kernel/kernel/heap.c:61-74 | taking a block replaces it by its parts and no other: a used block of the size and a free remainder if more than a header and the slack is left over, and otherwise the whole block, used |
| BlockList.ReleaseExactly | src/kernel/kernel/heap.c:116-133 | giving a block back replaces the block and those free blocks that end or begin where it does by one free block over all of them, and no other |
| BlockList.PayloadsApart | src/kernel/kernel/heap.c:48-106 | payloads and headers of tiling blocks never overlap |
| HeapMemory.SplitLays | src/kernel/kernel/heap.c:61-72 | the pointer writes of a split leave the list with the new block linked in on both sides, and write only block headers |
| HeapMemory.SwallowLays | src/kernel/kernel/heap.c:117-133 | the pointer writes of a coalescing step leave the list without the swallowed block |
| HeapMemory.ReleaseBlock | src/kernel/kernel/heap.c:116-133 | the header work of `kfree` in memory |
| HeapMemory.WritesMissPayloads | src/kernel/kernel/heap.c:48-138 | a header write of any call lies outside every payload that is in use before and after it |
| FixedHeap.MallocKeepsInv | src/kernel2/kernel/heap.c:24-57 | an allocation keeps the tiling, the absence of free neighbours and the hint, and adds one block large enough, apart from all others |
| FixedHeap.MallocFailsExactly | src/kernel2/kernel/heap.c:24-57 | it returns null exactly when no block from the hint on fits, and then changes nothing |
| FixedHeap.MallocTakesFirstFit | src/kernel2/kernel/heap.c:24-50 | otherwise it takes the lowest fitting block from the hint on |
| FixedHeap.MallocExactly | src/kernel2/kernel/heap.c:24-57 | all that an allocation does: the lowest searched block that fits is split, with the remainder free behind it, exactly if more than a header is left, and used whole otherwise; all other blocks stay, and the hint goes to the next free block |
| FixedHeap.FreeKeepsInv | src/kernel2/kernel/heap.c:59-83 | a release keeps the same invariant and gives back just its block |
| FixedHeap.FreeExactly | src/kernel2/kernel/heap.c:59-83 | all that a release does: the block and its free neighbours become one free block, all others stay, and the hint is the lower of the old one and that block |
| FixedHeap.FreeKeepsSearched | src/kernel2/kernel/heap.c:72-83 | every block that a search would have seen is still seen, and so is the joined one |
| FixedHeap.FreeKeepsMeetable | src/kernel2/kernel/heap.c:59-83 | a request that could be met before a release can be met after it, and so can one for what was given back |
| FixedHeap.RunKeepsInv | src/kernel2/kernel/heap.c:15-83 | the invariant in every reachable state |
| FixedHeap.EmptyRunIsInitial | src/kernel2/kernel/heap.c:15-83 | any run after which nothing is in use ends in the single initial block |
| FixedHeap.FreeingAllRestores | src/kernel2/kernel/heap.c:59-83 | freeing all live blocks, in any order, gives back the initial block |
| FixedHeap.MallocMissesEarlierBlock | src/kernel2/kernel/heap.c:41-45 | the hint may pass a fitting block: a reachable state with a free block that fits and a request that fails |
| FixedHeapCode.KernelHeap.constructor | src/kernel2/kernel/heap.c:15-22 | one free block over the whole region |
| FixedHeapCode.KernelHeap.Malloc | src/kernel2/kernel/heap.c:24-57 | the search loop, the split and the hint loop on linked headers |
| FixedHeapCode.KernelHeap.Free | src/kernel2/kernel/heap.c:59-83 | the release on linked headers |
| GrowingHeap.TakeIsFirstFit | src/kernel/kernel/heap.c:48-106 | the result is the lowest fitting free block of the whole heap, or else a new block at the old break |
| GrowingHeap.MallocExactly | src/kernel/kernel/heap.c:48-106 | all that an allocation does: the serving block is split, with the remainder free behind it, exactly if more than a header and 8 bytes are left, and used whole otherwise; all other blocks stay; the break moves for a new block if none fitted, and by a page if none is left free |
| GrowingHeap.MallocKeepsInv | src/kernel/kernel/heap.c:48-106 | an allocation keeps the blocks tiling up to the break, sizes multiples of 8 and the hint on the lowest free block, and adds one block large enough |
| GrowingHeap.GrowsEnoughExactly | src/kernel/kernel/heap.c:24-37 | a block grown for n bytes holds them if and only if n modulo a page leaves room for the header |
| GrowingHeap.MallocEndsExactly | src/kernel/kernel/heap.c:55-103 | the allocation loop ends if and only if a free block fits already or the grown one does; otherwise it appends blocks for ever |
| GrowingHeap.EmptyRequestEnds | src/kernel/kernel/heap.c:55-57 | a request for nothing is always met |
| GrowingHeap.PageRequestDiverges | src/kernel/kernel/heap.c:24-37 | a first request of up to 31 bytes less than a page, or of a whole one, never returns |
| GrowingHeap.FreeKeepsInv | src/kernel/kernel/heap.c:108-138 | a release keeps the invariant, gives back just its block, and leaves the hint on the lowest free block |
| GrowingHeap.FreeExactly | src/kernel/kernel/heap.c:108-138 | all that a release does: the block and its free neighbours become one free block over all of them, and all other blocks and the break stay |
| GrowingHeap.PayloadsAreSound | src/kernel/kernel/heap.c:48-138 | live payloads are aligned, inside the heap and disjoint |
| GrowingHeap.RunKeepsInv | src/kernel/kernel/heap.c:24-138 | the invariant in every reachable state |
| GrowingHeap.ReleaseStaysInsideExactly | src/kernel/kernel/heap.c:116-133 | with blocks in address order and perhaps gaps between them, what a release leaves stays inside the blocks it joined if and only if these were adjacent, which the code does not check |
| GrowingHeap.ForeignPageSwallowed | src/kernel/kernel/heap.c:126-133 | with another user's page between two blocks, a release takes that page into the heap |
| GrowingHeapCode.KernelHeap.constructor | src/kernel/kernel/heap.c:39-46 | one page from the break on, as one free block |
| GrowingHeapCode.KernelHeap.Append | src/kernel/kernel/heap.c:24-37 | `expand_heap` linked behind the last block, writing only block headers |
| GrowingHeapCode.KernelHeap.Malloc | src/kernel/kernel/heap.c:48-106 | the search loop that grows the heap, the split and the hint loop, on linked headers, with termination |
| GrowingHeapCode.KernelHeap.Free | src/kernel/kernel/heap.c:108-138 | nothing for null; otherwise clears exactly the payload, and releases the block on linked headers |
| GrowingHeapCode.FreeLeavesOthers | src/kernel/kernel/heap.c:108-138 | releasing one allocation alters no byte of another one |
| CanonicalPath.BackwardIsResolve | src/kernel/kernel/fs/vfs.c:224-258 | scanning right to left with `skip` gives the left-to-right result without its last `skip` components |
| CanonicalPath.CanonicalIsCanonical | src/kernel/kernel/fs/vfs.c:199-268 | the result is canonical, canonicalising again changes nothing, and every canonical path is its own result |
| CanonicalPath.RelativeResolves | src/kernel/kernel/fs/vfs.c:202-210 | a relative path is followed from where the working directory leads |
| CanonicalPath.ParentUndoes | src/kernel/kernel/fs/vfs.c:244-253 | a component followed by ".." has no effect anywhere in a path |
| CanonicalPathCode.JoinPath | src/kernel/kernel/fs/vfs.c:202-210 | the copy of an absolute path, or `snprintf` of the two parts with a slash |
| CanonicalPathCode.TakeComponent | src/kernel/kernel/fs/vfs.c:230-257 | one component of the scan: ignored, counted, skipped or copied in front of the output, within the buffer |
| CanonicalPathCode.Canonicize | src/kernel/kernel/fs/vfs.c:199-268 | the two-buffer scan in place: its cursor stays in a buffer of the path's length plus one, and its string is the canonical path |
| MountTree.DeepestPath | src/kernel/kernel/fs/vfs.c:14-43 | the tree node found is the one that the names counted off lead to |
| MountTree.InsertKeepsTree | src/kernel/kernel/fs/vfs.c:137-141 | a new tree node keeps one parent for each node, and keeps siblings of different names if and only if its name is new among them |
| MountTree.MountRefusedExactly | src/kernel/kernel/fs/vfs.c:95-125 | a mount is refused if and only if the driver gives no root, or it is for "/" and the root has a file, or it is for another path that leads nowhere or to something that is not a directory |
| MountTree.MountedOnDirectory | src/kernel/kernel/fs/vfs.c:95-125 | so a mount that reports success never hides a file and never replaces a mounted root |
| MountTree.MountEndsExactly | src/kernel/kernel/fs/vfs.c:132-147 | an allowed mount goes through if and only if at most one name is missing from the tree, or the file system answers the first missing name and then, once for every other, the empty name, which is what the path pointer shows after its missing step over the terminator; otherwise it follows a null pointer |
| MountEffects.MountPointExactly | src/kernel/kernel/fs/vfs.c:94-159 | for every mount that reports success: the mount point is walked to the mounted root if and only if no name is missing, or the name of the first new tree node is new among its siblings and the nodes found have the missing names |
| MountEffects.MountOnNode | src/kernel/kernel/fs/vfs.c:150-152 | with no name missing, just the walks that end at the mount point's tree node lead into the mounted file system, also above older mounts, and all others where they led |
| MountEffects.MountBelow | src/kernel/kernel/fs/vfs.c:132-152 | with names missing and a new name for the first new node, the paths that are walked to the mounted root are exactly the ones through the names of the nodes found; for every other path, where it leads now |
| MountEffects.MountUnseen | src/kernel/kernel/fs/vfs.c:132-152 | with names missing and a sibling of the first new node's name, the mount reports success and changes no path |
| MountEffects.Mounts | src/kernel/kernel/fs/vfs.c:94-159 | every run of mounts keeps the nodes a tree, which is all that these theorems ask for |
| MountTree.MountOverlays | src/kernel/kernel/fs/vfs.c:94-159 | with at most one missing name, whose lookup gives a node of that name, and no older mount below it, the mount goes through, every path through the mount point leads into the mounted file system, and every other path where it led |
| MountTree.KeptNamesMiss | src/kernel/kernel/fs/vfs.c:132-152 | over a file system that names what it finds by what was asked for, such a mount reports success and leaves the mount point as it was, unless the second missing name is empty |
| MountTar.EmptyNameStays | src/kernel/kernel/fs/tarfs.c:222-254 | in any archive the empty name leads from a directory that a lookup finds to that directory itself |
| MountTar.TarMountLands | src/kernel/kernel/fs/tarfs.c:197-254 | over any archive every allowed mount goes through, and the nodes found for the missing names all have the name that the first lookup finds |
| MountTar.TarMountExactly | src/kernel/kernel/fs/tarfs.c:197-291 | over any archive an allowed mount reaches its mount point if and only if no name is missing, or no sibling has the name first found and all missing names are that name; with such a sibling no path changes, and otherwise that name, repeated, leads into the mounted file system |
| MountTar.TarMountMisses | src/kernel/kernel/fs/tarfs.c:197-291 | with two missing names, the first one found under its name, the repeated name leads into the mounted file system and the mount point where it led before |
| MountTar.MountOnTarDirectory | src/kernel/kernel/fs/tarfs.c:222-254 | an instance: mounting on /a/b in the archive of a/ and a/b/ hangs at /a/a |
| MountTar.MountHidesPoint | src/kernel/kernel/fs/tarfs.c:222-254 | an instance: mounting on /a/a/c in the archive of a/, a/a/ and a/a/c/ hangs at /a/a/a, and /a/a/c leads nowhere afterwards |
| MountTar.MountUnderTakenName | src/kernel/kernel/fs/tarfs.c:211-213 | an instance: with abc/ in the archive and a mount on /abc, mounts on /ab and /ab/b report success and change no path |
| MountCode.SplitPath | src/kernel/kernel/fs/vfs.c:45-62 | the path with its slashes turned into terminators holds its component names one behind the other, and the count is their number |
| MountCode.MountTable.GetDeepest | src/kernel/kernel/fs/vfs.c:14-43 | the walk with its path pointer: the deepest tree node, and a pointer to the names below it |
| MountCode.MountTable.Lookup | src/kernel/kernel/fs/vfs.c:161-197 | the tree walk followed by the chain of `finddir`, null where one fails |
| MountCode.MountTable.AddNodes | src/kernel/kernel/fs/vfs.c:132-152 | the loop that adds tree nodes with its path pointer as written, and the mount point's new file |
| MountCode.MountTable.MountAt | src/kernel/kernel/fs/vfs.c:94-159 | the whole of `vfs_mount`: -1 exactly where it refuses, its null pointer, and its new tree |
| LinkedList.List.Append | src/kernel/kernel/ds/list.c:28-45 | appends to the sequence |
| LinkedList.List.Find | src/kernel/kernel/ds/list.c:47-59 | the first node with the value, or null if there is none |
| LinkedList.List.At | src/kernel/kernel/ds/list.c:61-73 | the node at an index, by the length the list keeps |
| LinkedList.List.Remove | src/kernel/kernel/ds/list.c:75-92 | takes one element out of the sequence |
| LinkedList.List.PopFront | src/kernel/kernel/ds/list.c:94-107 | takes the first element, of a list that has one |
| LinkedList.List.InsertBefore | src/kernel/kernel/ds/list.c:109-137 | inserts before a node; before null only into an empty list, and otherwise counts a node that it never links, so that the length is right if and only if that is not the case |
| Scheduler.PickKeepsInv | src/kernel/kernel/tasking.c:65-74 | choosing the next thread keeps every created thread in exactly one place |
| Scheduler.SleepKeepsInv | src/kernel/kernel/tasking.c:117-143 | falling asleep conserves the threads if and only if the sleep list is empty or holds a later sleeper |
| Scheduler.FallThroughYields | src/kernel/kernel/tasking.c:58-70 | a thread that comes back from the idle branch has put itself on the ready list before it pops it |
| Scheduler.TickDoubles | src/kernel/kernel/tasking.c:158-191 | a tick that wakes the thread it interrupts puts it in two places, unless it comes between choosing the next thread and changing stacks and finds that thread first on the ready list |
| Scheduler.StepConserves | src/kernel/kernel/tasking.c:45-191 | every step, at any point, keeps the invariant that each created thread is in exactly one of processor, ready list and sleep list, with nobody on the way to a thread that another one chose, if and only if it is safe: a sleeper finds a later one, and a tick neither wakes the thread it interrupts nor, between choosing and changing stacks, takes the processor from it before it has changed |
| Scheduler.PlacesConserveExactly | src/kernel/kernel/tasking.c:45-191 | the places alone: each created thread is in exactly one if and only if the step is safe, or a tick takes the processor from a thread that had chosen the idle one and does not yield |
| Scheduler.WindowTickExactly | src/kernel/kernel/tasking.c:69-74 | for every tick between releasing the lock and changing stacks: when it keeps the invariant, and exactly which threads it leaves in no place or in two |
| SchedulerRuns.RunKeepsInv | src/kernel/kernel/tasking.c:45-191 | the same over every run of safe steps |
| SchedulerRuns.EachInOnePlace | src/kernel/kernel/tasking.c:45-191 | what that means for each thread, and for the idle thread |
| SchedulerRuns.TickInWindowLosesThread | src/kernel/kernel/tasking.c:69-74 | a run from the start that gets there: after a tick between releasing the lock and changing stacks, the thread just chosen is in no place while the interrupted one sleeps |
| SchedulerLoss.WindowTickLoses | src/kernel/kernel/tasking.c:69-74 | what every unsafe tick there does: the interrupted thread is lost for good if it comes back from the ready list; otherwise the thread it had chosen is nowhere until it runs again and changes stacks to it, or, if that was the idle one, it is in two places or the tick is the one that leaves all in one place |
| SchedulerLoss.IdleChosenTick | src/kernel/kernel/tasking.c:58-62 | that one leaves the places and all stacks as they should be, but for the interrupted thread's change to the idle one |
| SchedulerLoss.IdleChosenLosesLater | src/kernel/kernel/tasking.c:58-62 | and after any run that is safe otherwise the thread is nowhere as soon as it makes that change |
| SchedulerLoss.OldJumpComesDue | src/kernel/kernel/tasking.c:45-191 | the same for any old change of stacks at the bottom of a thread's stack: steps above it are the steps without it, until it comes due |
| SchedulerLoss.OldJumpLoses | src/kernel/kernel/tasking.c:69-74 | a thread that is dispatched with an old change of stacks still to make is nowhere as soon as it has made it |
| SchedulerLoss.LostWhileAway | src/kernel/kernel/tasking.c:45-191 | a thread that only some others could switch to stays nowhere, and is never dispatched, as long as those do not have the processor |
| SchedulerLoss.LongestSleeperIsLost | src/kernel/kernel/tasking.c:134-142 | a thread that goes to sleep behind all other sleepers is nowhere as soon as it has switched away |
| SchedulerLoss.LostForGood | src/kernel/kernel/tasking.c:45-191 | over every run such a thread stays nowhere and is never dispatched again |
| SchedulerRuns.RunIsQueue | src/kernel/kernel/tasking.c:65-70 | over any run: what was ready, then what became ready, is what was dispatched, then what is still ready |
| SchedulerRuns.DispatchInOrder | src/kernel/kernel/tasking.c:65-70 | the thread at ready index k is the one the dispatch number k + 1 takes |
| SchedulerRuns.DispatchedRuns | src/kernel/kernel/tasking.c:70-74 | at every step that pops a thread it is marked running and gets the processor, and the one that yields is marked ready at the end of the list |
| SchedulerRuns.EnlistIsFifo | src/kernel/kernel/tasking.c:121-135 | a sleeper goes behind those that wake at the same time and moves no others |
| SchedulerRuns.RunKeepsSorted | src/kernel/kernel/tasking.c:117-191 | the sleep list is sorted by wake time in every state |
| SchedulerRuns.WakeUpMovesDue | src/kernel/kernel/tasking.c:169-187 | waking takes exactly the sleepers that are due, in their order, to the end of the ready list |
| SchedulerRuns.SleepAlone | src/kernel/kernel/tasking.c:45-191 | the only thread falls asleep: the idle thread has the processor through all ticks before the wake time, and at the first one from then on the sleeper goes on, chooses itself once more behind the idle branch, and is back in its own code with both lists empty |
| SchedulerCode.Core.PickNext | src/kernel/kernel/tasking.c:65-71 | the second half of `switch_next` on the linked ready list |
| SchedulerCode.Core.SwitchNext | src/kernel/kernel/tasking.c:45-75 | `switch_next` up to the change of stacks |
| SchedulerCode.Core.CreateTask | src/kernel/kernel/tasking.c:77-91 | the new thread goes to the end of the ready list |
| SchedulerCode.Core.SleepUntil | src/kernel/kernel/tasking.c:117-140 | the search for the place, the insertion and the state |
| SchedulerCode.Core.WakeUpSleepers | src/kernel/kernel/tasking.c:158-191 | the waking loop on the two linked lists |
| SchedulerCode.Core.Resume | src/kernel/kernel/tasking.c:58-74 | the current thread goes on with what it has pending: its call of `switch_next`, its change of stacks, or the code behind the idle branch |
| SchedulerCode.Core.TimerInterrupt | src/kernel/arch/x86_64/apic.c:143-148 | waking and then switching, with interrupts off |
| Ramdisk.ReadExactly | src/kernel/kernel/dev/ramdisk.c:27-56 | every read, of any offset and size, gives the bytes that it should if and only if: for no bytes, the offset is not 0 and is on a block boundary or in a block that the disk has; for some, they do not end on a block boundary, and the sum of offset and size does not wrap to one within the disk |
| Ramdisk.ReadNothingExactly | src/kernel/kernel/dev/ramdisk.c:30-56 | a read of no bytes, or past the end, that does not give nothing reads outside the block table or copies a whole block for which there is no room |
| RamdiskCode.Disk.constructor | src/kernel/kernel/dev/ramdisk.c:110-120 | the block table of consecutive blocks |
| RamdiskCode.Disk.Read | src/kernel/kernel/dev/ramdisk.c:27-56 | the block loop into the caller's buffer: the bytes delivered, or a copy that leaves the disk or the buffer |
| Tar.StepIs | src/kernel/kernel/fs/tarfs.c:118-119 | the step over a member is its header and its size rounded up, also for size 0, where the arithmetic wraps |
| Tar.OctalReads | src/kernel/kernel/fs/tarfs.c:20-31 | `oct2bin` reads back an octal size |
| Tar.WalkVisits | src/kernel/kernel/fs/tarfs.c:90-120 | over any archive of well-formed members the walk visits exactly their headers, in order, and ends |
| Tar.HeaderReadIsExact | src/kernel/kernel/fs/tarfs.c:90-90 | every header read of the walk is one that the ramdisk does exactly |
| TarListing.MatchesIsHasChild | src/kernel/kernel/fs/tarfs.c:166-166 | counting slashes and comparing the prefix picks exactly the names of immediate children |
| TarListing.BaseOfChild | src/kernel/kernel/fs/tarfs.c:172-183 | the name listed is the child's own, without directory or slash |
| TarListing.FileReadExactly | src/kernel/kernel/fs/tarfs.c:50-64 | reading a member gives its bytes if and only if the read does not end on a block boundary of the disk |
| TarCode.LastName | src/kernel/kernel/fs/tarfs.c:172-183 | the pointer walk back to the last component |
| TarCode.Tarfs.FindMatch | src/kernel/kernel/fs/tarfs.c:160-192 | the loop over the headers, read through the ramdisk, gives the listing entry asked for |
| TarCode.Tarfs.ReaddirRoot | src/kernel/kernel/fs/tarfs.c:66-124 | the two dots, then the top-level members in archive order, each once, then null |
| TarCode.Tarfs.Readdir | src/kernel/kernel/fs/tarfs.c:126-195 | the two dots, then the immediate children of the directory in archive order, each once, then null |
| Numerals.DigitsShow | src/libc/stdio/_vsnprintf.c:43-54 | the digits put down evaluate to the number |
| Numerals.NtoaShowsExactly | src/libc/stdio/_vsnprintf.c:35-111 | for every 64-bit value, width, precision and flags the output fits 256 bytes and ends with the digits of the value, up to filling spaces, if and only if the alternate form takes none back; it does exactly when there is no explicit precision, the value is not 0 and the digits fill the field, or in base 16 leave one column of it |
| Numerals.FullFieldLosesDigits | src/libc/stdio/_vsnprintf.c:72-88 | a number that fills its field in alternate form loses digits, in every base and on either side of the field |
| Numerals.ZeroWithPrecision | src/libc/stdio/_vsnprintf.c:43-70 | zero with an explicit precision prints as many zeros as the precision says, and none at all in a left-justified field |
| Numerals.SpacedField | src/libc/stdio/_vsnprintf.c:56-70 | in a space-padded field the sign goes in front of the padding, and makes the output one column too wide when the digits leave room |
| Numerals.AlternateForm | src/libc/stdio/_vsnprintf.c:72-88 | without a field the alternate form is the prefix of the base and then the digits |
| Numerals.NtoaLays | src/libc/stdio/_vsnprintf.c:35-111 | the whole text of every number not in alternate form, for all values, bases, signs, flags, widths and precisions below the buffer size: sign, spaces, zeros and digits, or sign, digits and spaces on the left |
| Numerals.NtoaLaysAlternate | src/libc/stdio/_vsnprintf.c:35-111 | the whole text of every number in alternate form: the prefix stands between sign and padding, in place of two columns of the text or one, where the digits do not stick out of the field |
| Numerals.SignedShowsMagnitudeExactly | src/libc/stdio/_vsnprintf.c:247-258 | what is printed behind the minus sign is the magnitude only for the smallest number |
| NumeralsCode.StrRev | src/libc/stdio/_vsnprintf.c:24-32 | reverses in place |
| NumeralsCode.Convert | src/libc/stdio/_vsnprintf.c:35-111 | `_ntoa` in place, without leaving the scratch buffer |
| NumeralsCode.ReadNumber | src/libc/stdlib/atoi.c:6-30 | the loops of `atoi`, with its overflow |
| NumeralsCode.AtoiInvertsExactly | src/libc/stdlib/atoi.c:22-25 | `atoi` reads back plain decimal output for 0 to 2147483599, and overflows from there on |
| Format.NumbersFit | src/libc/stdio/_vsnprintf.c:213-281 | a number directive never outgrows the scratch buffer |
| Format.DoubledPrints | src/libc/stdio/_vsnprintf.c:119-138 | printing a text with every percent sign doubled prints the text |
| Format.PathJoin | src/libc/stdio/_vsnprintf.c:311-344 | "%s/%s" joins two texts that fit the scratch buffer |
| Directives.NumberPrints | src/libc/stdio/_vsnprintf.c:143-281 | for every number directive, with any flags, width and precision, as numerals or by "*" also negative, any length field and any argument, in front of any format: the digits of the argument reduced to 8, 16, 32 or 64 bits, in base 16, 8 or 10, in their field |
| Directives.PlainNumber | src/libc/stdio/_vsnprintf.c:219-281 | without options: a minus sign exactly for a negative number of "d" or "i", and the digits, base 16 for "x", "X" and "p", 8 for "o", 10 for the others; behind the sign those of the two's complement |
| Directives.AlternateNumber | src/libc/stdio/_vsnprintf.c:219-281 | the same with "#": 0x, 0X or 0 in front of a number that is not zero |
| Directives.SixteenDigits | src/libc/stdio/_vsnprintf.c:174-203 | "%.16lx", as addresses are printed: exactly sixteen digits, which show the argument modulo 2^64 |
| Directives.CharPrints | src/libc/stdio/_vsnprintf.c:283-309 | "%c" with any flags and width: the character in a field of spaces, on the left for "-" or a negative "*" |
| Directives.TextPrints | src/libc/stdio/_vsnprintf.c:311-344 | "%s" with any flags, width and precision: the text cut to the precision, in a field of spaces |
| Directives.OtherPrints | src/libc/stdio/_vsnprintf.c:346-353 | what is not a conversion: the percent sign is printed and the rest is text, but a "*" for the precision moves that by one character |
| FormatCode.OutS | src/libc/stdio/snprintf.c:7-18 | writes only below the bound, and succeeds if and only if everything fits |
| FormatCode.ReadSpec | src/libc/stdio/_vsnprintf.c:143-210 | the flag, width, precision and length fields of a directive |
| FormatCode.PutJustified | src/libc/stdio/_vsnprintf.c:283-336 | the padding loops and the copy, within the scratch buffer |
| FormatCode.Vsnprintf | src/libc/stdio/_vsnprintf.c:113-362 | for operands that fit, writes only below the bound, fails if and only if the output is longer, and otherwise leaves it terminated |

## Left out

Parts of the repository that are not modelled:

- Hardware: interrupt tables, APIC, PIT, CMOS, serial port, PCI, ACPI, terminal and framebuffer.  Time and
  the address and code of a page fault are inputs of the steps.
- UEFI calls, ELF and font loading: of the loader only `MapPages` and `BuildMemoryMap` are modelled.
- Locks: there is one core, and a lock is taken with interrupts off, so a locked section is one step.
- `list_destroy`, `tree_destroy`: they only release memory.
- `tmpfs`: its write divides by the largest size, so it works within one block only; its read repeats
  the loop of `ramdisk_read`.
- The reading of headers in `tarfs_finddir` and `tarfs_finddir_root`, which is the loop of the listing:
  `MountTar` has their prefix comparison, on the headers in archive order, without the 256-byte limit of
  their name buffers.
- `get_driver`: what the driver lookup and the driver's mount function return is a parameter.
- `ramdisk_write`, which is empty, and `secs_to_year`.

What the model of a part does not capture:

- PageTables.Walk: huge pages are walked as the processor does, but the theorems are about trees without
  them; of the access rights only the right to write is modelled (`PageRights`), the translation cache is
  left out, and bit masks are written as arithmetic.
- VmmRuns.Possible: page faults in the direct map's slot, an empty free list and a break that wraps are
  excluded; the code checks none of them.
- KernelMemory.KernelMemory.MapPage: the frame to map must exist, since clearing a page that does not is
  a machine error.
- BatchMap.Mappable: segments lie inside the address space and outside the identity-mapped slot.
- Directives.NumberPrints: widths and precisions lie below the size of the scratch buffer, where the fields
  are not cut off; `Numerals.NtoaShowsExactly` has no such bound.
- BootMap.BuildMemoryMap: an empty list of descriptors makes the code's bound wrap, and is excluded, as
  are ranges that wrap.
- AvlNodes.InsertAt: where insert follows a null pointer the method does not apply; the nodes are
  allocated directly and not through the modelled heap.
- HeapMemory.Header: headers are typed cells at their addresses, apart from the bytes of the payloads;
  `HeapMemory.WritesMissPayloads` shows that the two never overlap.  The break does not wrap.
- GrowingHeapCode.KernelHeap.Malloc: only for requests on which the loop ends; for the others there is
  nothing to return.
- GrowingHeap.RunKeepsInv: with the heap as the only user of `vmm_alloc_region`;
  `GrowingHeap.ForeignPageSwallowed` shows what happens otherwise.
- FixedHeapCode.KernelHeap.Free: the pointer must be a live payload; `k_free` does not check it.
- CanonicalPathCode.Canonicize: the two parts of a relative path fit the formatter's 256-byte scratch
  buffer; beyond it the formatter itself overruns.
- MountCode.MountTable.Lookup: paths are absolute.  For others the code drops the first character.
- MountTree.Mount: `finddir` is a function of the node and the name.  Memory of discarded nodes is not
  tracked, and the tree nodes lie in one sequence in place of the heap, with their children in order.
- MountTree.MountOverlays: a tree node that is mounted on has no tree children.  Mounting above existing
  mounts leaves them visible, which is no overlay; `MountEffects.MountOnNode` says what it is.
- LinkedList.List.Remove: the released node is only unlinked.
- Scheduler.Step: the part of `switch_next` behind the idle branch, which runs without the lock, is one
  step, and so is the change of stacks.
- Scheduler.Possible: the idle thread does not call the scheduler.
- RamdiskCode.Disk.Read: memory beyond the disk is not modelled; a copy that would reach it is reported.
- Tar.WellFormed: names without prefix field, as the theorems are about archives without it; the file
  names are built from both fields as in the code.
- FormatCode.Vsnprintf: for arguments that are present and of the right kind, and texts and widths of
  "%c" and "%s" within the 256-byte scratch buffer, which the code does not check.
- NumeralsCode.ReadNumber: a sum outside the range of an int is reported, where C leaves it undefined.
