# ucore labs: a verified model

This project models the hard parts of a set of operating system labs (C, RISC-V) and proves properties
of them. Where the C code updates structures in place, the model does too: classes with fields, loops with
invariants, and ghost fields that say what the structures stand for. Each method is proved against a
specification on values, and the lemmas beside it prove what that specification promises.

Five subsystems are modelled.

- **Demand paging** (`lab3/kern/mm`). `Sv39` has the address and entry arithmetic, `PageTables` the
  three-level tables as they lie in memory and the map from pages to entries that they stand for, `Frames`
  the reference counts, swap entries and page contents, `Clock` the replacement list with its hand, `Vma` the
  areas of an address space. `Paging` puts them together: allocation that evicts, table creation, mapping and
  unmapping, swapping, the fault handler. `FlatMemory` proves that any run of loads, stores and evictions
  behaves like a flat memory.
- **The SLOB heap** (`Lab5/kern/mm/kmalloc.c`). `FreeRing` is the theory of circular, address-ordered,
  coalesced free lists, `Slob` the allocator on block headers, `Kmalloc` the small and large requests on top,
  `KmallocRuns` any interleaving of `kmalloc` and `kfree`.
- **Stride scheduling and timers** (`lab8`). `ProcStruct` has the wrapped strides, `SkewHeap` the pointer heap
  with parent links, `SkewCost` what its operations cost, `Scheduler` the run queue and `schedule`,
  `SchedulerRuns` and `StrideShare` whole runs, `TimerQueue` the delta-encoded timer list, `TimerLaws` what it
  comes to for one timer, `TimerWakeups` the timer interrupt that wakes processes.
- **The life of processes** (`Lab5`). `Pid` is the pid allocator with its cached interval, `ProcTree` the
  parent, child and sibling links, `ProcessSpec` says on values what each call does to every process, `Process` has
  fork, exit, wait, kill, the scheduler's scan and whole runs of the kernel, `ElfSegment` the loops that load a
  segment.
- **The file system image builder** (`lab8/tools/mksfs.c`), in `Mksfs`.

`Options`, `Sets`, `Seqs` and `Words` are shared vocabulary.

## Assumptions

- Paging: one address space; `swap_init_ok` is a field, and both its values are modelled. Page faults are
  taken only on entries that are not valid. User pages lie in the lower half of the address space, where no
  entry of the upper levels is a superpage leaf, and, when swapping, below the limit that `swap.h` checks for
  swap offsets. When frames run out while swapping, there is a page on the clock list (`Supply` counts what is
  free or can be freed). For the flat memory, areas consist of whole pages, so that no
  page is in two of them. Reads and writes of the swap disk succeed, as `ide.c` has them. The frame source is a
  set of free frames.
- SLOB: `align` is 0, as at every call; no page of the heap touches the sentinel. Addresses count allocation
  units.
- Scheduling: `lab6_stride` is a 32-bit unsigned word; the header of lab8 that declares it is not part of this
  model. Processes that enter the queue after a long sleep keep
  their old strides, so the window is claimed exactly when an entering stride lies inside it.
- Processes: the kernel is not preempted, so a call runs to its end or to its `schedule()`. The lists of
  `list.h` are sequences, the embedded nodes their elements.
- Whether memory is available, what the page source answers and what fresh frames contain are parameters.

## What the code does not do

The proofs also fix where the code falls short of what one would expect; each is stated for all inputs.

- `kmalloc` panics for exactly the sizes from 4064 to 4079: they pass its test for small requests and fail
  the assertion of `slob_alloc` (`Kmalloc.Allocator.Kmalloc`).
- `slob_alloc` hands out the sentinel, and breaks its own list, exactly when it is asked for one unit while
  the sentinel comes next (`Slob.Heap.Alloc`). The call that asks for one unit is `kmalloc(0)`
  (`Kmalloc.Allocator.Kmalloc`).
- A pointer from `kmalloc(0)` lies behind its block. If that is where pages begin that another request got,
  `kfree` takes those back instead; otherwise, and for every other size, it takes back what was handed out
  (`Kmalloc.Allocator.RoundTrip`). Three calls lead from a new allocator to such a pointer, and the fourth, its
  `kfree`, takes another client's page (`KmallocRuns.NoBytesReached`, `KmallocRuns.AnotherFreed`).
- `find_order` asks for too few pages exactly for sizes just above a power of two times the page size, and for
  sizes from 2^31 bytes on, which its `int` parameter does not hold (`Kmalloc.OrderSuffices`,
  `Kmalloc.OrderTooSmall`).
- Stride scheduling starves nobody exactly if no priority is above BIG_STRIDE: a process of higher priority
  never moves on, and no other ever gets more than one pass beyond it (`ProcStruct.PassPositive`,
  `StrideShare.ZeroPassLimits`, `StrideShare.WhoStarves`).
- `page_remove` of a page on the clock list leaves its frame both free and on the list, and is in order for all
  other pages (`Paging.UnmapListed`, `Paging.AddressSpace.PageRemove`). `page_insert` is in order exactly if the
  frame is the one that the page has, or one that somebody holds off the list in place of one off the list
  (`Paging.FrameInserted`, `Paging.AddressSpace.PageInsert`).
- Pages of an area that is not writable get an entry without read permission, which the hardware does not
  take for a leaf (`FlatMemory.UsableIfWritable`).
- Without swapping, the fault handler reads through a null pointer exactly when a table is missing and
  there is no frame for it (`Paging.AddressSpace.DoPgfault`).
- The kernel halts exactly when the first process exits, or when it was killed and is switched to inside
  `do_wait` (`Process.Kernel.Exit`, `Process.Kernel.Resume`, `Process.Kernel.Run`).
- `create_sfs` cuts the number of blocks to 32 bits before it tests the size: it refuses exactly the image files
  with at most three blocks more than a multiple of 2^32 (`Mksfs.CreateImage`, `Mksfs.TooSmall`).

## Model

| member | source | states |
|---|---|---|
| Sv39.AddressFields | lab3/kern/mm/mmu.h:37-51 | the index and offset fields determine an address and are determined by page number and offset; rounding down keeps the page |
| Sv39.PteRoundTrip | lab3/kern/mm/pmm.h:137-140 | an entry made by pte_create is valid, leads back to its frame and keeps its permission bits |
| Sv39.SwapEntryRoundTrip | lab3/kern/mm/swap.h:9-31 | a swap entry is neither empty nor valid, fits 32 bits, leads back to its slot, passes the range check exactly below the limit, and no two pages share a slot |
| PageTables.WalkDown | lab3/kern/mm/pmm.c:221-267 | the three levels in memory hold exactly the entries of the map, and tables exist exactly where directory words are valid |
| PageTables.HardwareRefinesMap | lab3/kern/mm/mmu.h:32-35 | the Sv39 translation algorithm on memory finds exactly the entry that the map holds for the page, when it is a leaf |
| PageTables.EntryWritten | lab3/kern/mm/pmm.c:351-351 | writing through the pointer to an entry changes the entry of that page alone |
| PageTables.CreationIsLazy | lab3/kern/mm/pmm.c:243-265 | a new second- or third-level table changes the entry of no page |
| PageTables.DirectoryAdded | lab3/kern/mm/pmm.c:243-252 | a zeroed frame entered in the root is a second-level table without entries; all other tables stand |
| PageTables.LeavesAdded | lab3/kern/mm/pmm.c:255-265 | a zeroed frame entered in a directory is a third-level table of empty entries; all other tables stand |
| Frames.PageMapped | lab3/kern/mm/pmm.c:342-351 | with page_ref_inc and the new entry, every count is still the number of valid entries naming the frame |
| Frames.PageUnmapped | lab3/kern/mm/pmm.c:307-317 | with page_ref_dec and the entry gone, counts are right again, and the count was one exactly if this was the last name |
| Frames.EvictedShown | lab3/kern/mm/swap.c:104-112 | with the page in its slot and the swap entry in place, every page shows what it showed before |
| Frames.EvictedCounted | lab3/kern/mm/swap.c:100-112 | freeing the victim's frame without page_ref_dec leaves all counts right, because it had one name |
| Paging.RefCounts | lab3/kern/mm/pmm.h:121-133 | a frame's count is the number of valid leaf entries naming it, and a free frame has none |
| Paging.FreedAtZero | lab3/kern/mm/pmm.c:284-318 | removing a mapping frees the frame exactly when no other entry names it, and changes no other entry |
| Paging.AddressSpace.FindPte | lab3/kern/mm/pmm.c:221-267 | without creation, the walk finds the word of the page exactly when the tables are there |
| Paging.AddressSpace.GetPte | lab3/kern/mm/pmm.c:221-267 | with creation, the pointer is to the page's word; it fails only without swapping and without frames; pages keep their contents, and with free frames enough no entry changes and just the missing tables are paid for |
| Paging.AddressSpace.NewDirectory | lab3/kern/mm/pmm.c:243-252 | one frame is spent, the missing second-level table is there, and entries change by eviction only |
| Paging.AddressSpace.NewLeaves | lab3/kern/mm/pmm.c:255-265 | one frame is spent, the missing third-level table is there, and entries change by eviction only |
| Paging.AddressSpace.AllocPage | lab3/kern/mm/pmm.c:50-70 | the retry loop ends; it returns a frame nobody names, evicting only when none is free, and fails exactly without swapping and without free frames |
| Paging.UnmapListed | lab3/kern/mm/pmm.c:284-318 | clearing the entry of a page on the clock list cannot leave things in order, whatever the counts |
| Paging.FrameInserted | lab3/kern/mm/pmm.c:337-354 | after page_insert all is in order exactly if the frame fits: it is the page's own, or one that somebody holds off the clock list, in place of one off the list; otherwise no counts put it in order |
| Paging.AddressSpace.PageRemovePte | lab3/kern/mm/pmm.c:284-318 | a valid entry is cleared, its frame's count drops, and the frame is freed when no name is left; an entry that is not valid stays; all is in order afterwards exactly if the frame is not on the clock list |
| Paging.AddressSpace.PageRemove | lab3/kern/mm/pmm.c:322-327 | as page_remove_pte, for the page of the address, and nothing at all when there is no table; in order afterwards exactly if the page is not on the clock list |
| Paging.AddressSpace.PageInsert | lab3/kern/mm/pmm.c:337-354 | any frame is entered for the page, with the permissions given, whether it had none, the same frame or another, which then loses a name, and no other entry changes; -E_NO_MEM exactly when a table cannot be had; all is in order afterwards exactly if the frame fits, which a caller can tell before the call |
| Paging.AddressSpace.PgdirAllocPage | lab3/kern/mm/pmm.c:363-382 | a frame nobody held is entered, its count is one as asserted, and it joins the clock list when swapping; without memory the frame is given back; all is in order afterwards exactly if the page has no frame on the clock list once the new one is allocated |
| Paging.AddressSpace.MakeSwappable | lab3/kern/mm/swap.c:67-71 | the page joins the clock list with its address noted, and nothing else changes |
| Paging.AddressSpace.EvictOne | lab3/kern/mm/swap.c:86-115 | the victim is the page the clock takes, and its entry is valid as asserted; the page is in its slot, the entry is its swap entry, the frame is free, and every page shows what it did |
| Paging.AddressSpace.SwapOut | lab3/kern/mm/swap.c:81-118 | n pages are evicted, n frames become free, and every page shows what it did |
| Paging.AddressSpace.SwapIn | lab3/kern/mm/swap.c:120-137 | a frame nobody names is filled with what the page showed before it was evicted; the swap offset is in range |
| Paging.AddressSpace.DoPgfault | lab3/kern/mm/vmm.c:330-422 | -E_INVAL exactly outside all areas; otherwise, when swapping, the page gets a valid entry of user mode, not executable, readable and writable exactly if the area has VM_WRITE, and shows what it showed before; other pages keep their entries or are evicted; without swapping, wherever the areas lie, a null entry exactly if a table cannot be had, and -E_NO_MEM exactly if tables can but the entry is not empty or no frame is left for the page |
| Paging.PermissionBits | lab3/kern/mm/vmm.c:349-352 | the entry made for a page is valid, of user mode, not executable, and readable and writable exactly if the area has VM_WRITE |
| FlatMemory.UsableIfWritable | lab3/kern/mm/vmm.c:349-352 | the entry that the fault handler makes is one of user mode, and a leaf, and writable, exactly if the area has VM_WRITE |
| FlatMemory.SameWord | lab3/kern/mm/swap.c:144-167 | addresses are of the same word of the same page exactly if they lie in the same eight bytes |
| FlatMemory.ValidUsable | lab3/kern/mm/vmm.c:349-353 | the entry made for an area holding the page can be used exactly if the address is in a writable area |
| FlatMemory.Access | lab3/kern/mm/vmm.c:330-422 | an access succeeds exactly in a writable area, whether the entry is valid, evicted or empty, and ends in the frame that shows the page |
| FlatMemory.StoreSound | lab3/kern/mm/swap.c:81-137 | a store through a page's own frame changes what that page shows and nothing else |
| FlatMemory.Step | lab3/kern/mm/swap.c:81-137 | every load, store or eviction, with the faults it takes, is a step of a flat memory in which an access fails exactly outside the writable areas; frames are spent on tables only |
| FlatMemory.Run | lab3/kern/mm/swap.c:81-137 | any run refines a flat memory state by state, each access failing exactly if no writable area contains its address, given frames for the tables of the pages it touches and one more |
| FlatMemory.AccessesFail | lab3/kern/mm/vmm.c:330-352 | in any run exactly the accesses of addresses outside all areas with VM_WRITE fail |
| FlatMemory.WordKept | lab3/kern/mm/swap.c:81-137 | on the flat memory a word keeps its value over any stretch of a run without a store to it |
| FlatMemory.LastStoreIsRead | lab3/kern/mm/swap.c:81-137 | in any run a load gives the value last stored to the eight bytes of its address |
| FlatMemory.LoadsAgree | lab3/kern/mm/swap.c:81-137 | two loads of the same eight bytes agree when nothing was stored to them in between |
| Clock.Unlinked | lab3/kern/mm/swap_clock.c:90-90 | unlinking a node leaves a well-linked list without it, and the node's own link still leads to the list |
| Clock.Appended | lab3/kern/mm/swap_clock.c:58-58 | linking before the head puts the page last |
| Clock.ClearedAt | lab3/kern/mm/swap_clock.c:77-95 | exactly the pages passed by the sweep have lost their bit |
| Clock.SecondChance | lab3/kern/mm/swap_clock.c:77-95 | if some page was not visited, the one taken was not, exactly the pages before it were passed, all of them visited, and they alone lose their bits; otherwise the first page is taken and all bits are cleared |
| Clock.Clock.MapSwappable | lab3/kern/mm/swap_clock.c:49-63 | the page is last on the list and visited; the hand stays, and its link still leads to the list, also when it rests on the page that comes back |
| Clock.Clock.Sweep | lab3/kern/mm/swap_clock.c:77-95 | the sweep ends after at most n+1 pages, at the first one not visited in cyclic order from the hand, or at the first one it cleared |
| Clock.Clock.SwapOutVictim | lab3/kern/mm/swap_clock.c:68-97 | that page leaves the list and becomes the hand, exactly the bits passed are cleared, pages off the list keep theirs, and the hand's link stays in the list |
| Vma.OneArea | lab3/kern/mm/vmm.c:120-126 | an address is in one area at most |
| Vma.Areas.Find | lab3/kern/mm/vmm.c:93-117 | with or without the cached area, an area is found exactly if one contains the address |
| Vma.Areas.Insert | lab3/kern/mm/vmm.c:129-159 | the assertions hold exactly if the area is not empty and overlaps no other; the list stays in order and gains that area alone |
| FreeRing.ArcShrinks | Lab5/kern/mm/kmalloc.c:108-108 | each step round the ring leaves one block less before the goal |
| FreeRing.FullWalk | Lab5/kern/mm/kmalloc.c:136-136 | when the walk is back at its start every block has been passed |
| FreeRing.GapTest | Lab5/kern/mm/kmalloc.c:166-168 | the loop test of slob_free singles out exactly the gap where the block belongs |
| FreeRing.EndCircular | Lab5/kern/mm/kmalloc.c:170-180 | after the merges the list is circular in address order, in all four cases |
| FreeRing.EndApart | Lab5/kern/mm/kmalloc.c:170-180 | after the merges no two free blocks overlap or touch |
| FreeRing.EndUnitsOf | Lab5/kern/mm/kmalloc.c:170-180 | after the merges the free units are the old ones and those of the block |
| FreeRing.CutCircular | Lab5/kern/mm/kmalloc.c:125-129 | cutting the front off a block leaves a circular list with the rest in its place |
| FreeRing.CutUnits | Lab5/kern/mm/kmalloc.c:125-129 | cutting the front off a block takes exactly its first units |
| FreeRing.LinkOut | Lab5/kern/mm/kmalloc.c:123-124 | unlinking the block after another leaves a circular list without it |
| Slob.UnitsTight | Lab5/kern/mm/kmalloc.c:66-66 | the units asked for hold the bytes, with less than one unit to spare |
| Slob.FirstFitMeans | Lab5/kern/mm/kmalloc.c:107-136 | the first fit is a free block that is large enough, and all free blocks between slobfree and it, by address or round the end, are too small |
| Slob.PartitionFreed | Lab5/kern/mm/kmalloc.c:153-185 | giving a block back keeps free and live blocks a partition of the pages |
| Slob.PartitionTaken | Lab5/kern/mm/kmalloc.c:113-134 | handing out free units keeps free and live blocks a partition of the pages |
| Slob.TakeWhole | Lab5/kern/mm/kmalloc.c:123-132 | an exact fit leaves the ring in order without the block's units |
| Slob.TakePart | Lab5/kern/mm/kmalloc.c:125-132 | a block that is split leaves the ring in order without its first units |
| Slob.Heap.FindGap | Lab5/kern/mm/kmalloc.c:164-168 | the search for the reinsertion point ends, at the one gap the block belongs to |
| Slob.Heap.Merge | Lab5/kern/mm/kmalloc.c:170-182 | the words written are those of the block joined with the neighbours it touches |
| Slob.Heap.Free | Lab5/kern/mm/kmalloc.c:153-185 | the block's units, by argument or by header, join the free ones; the list stays circular, ordered and coalesced, and headers of other blocks stay |
| Slob.Heap.Search | Lab5/kern/mm/kmalloc.c:107-136 | the walk ends within one round, at the first block in cyclic order that is large enough, or with none on the whole list |
| Slob.Heap.Take | Lab5/kern/mm/kmalloc.c:113-134 | the first units of the block found become a live block and no others cease to be free, and slobfree is the block in front of it, unless the block is the sentinel, which then is lost |
| Slob.Heap.Grow | Lab5/kern/mm/kmalloc.c:142-148 | the fresh page is freed into the list, and some block is now a page long |
| Slob.Heap.Refill | Lab5/kern/mm/kmalloc.c:136-149 | once a page has joined the list, the search from the block behind which it went finds the first fit |
| Slob.Heap.Alloc | Lab5/kern/mm/kmalloc.c:98-151 | ends; returns the first fit in cyclic order after slobfree, on the list as it is or once a page has joined it; grows exactly if nothing fits and the page source has a page, returns NULL exactly if nothing fits and it has none; and keeps the heap in order exactly if the sentinel is not handed out |
| Slob.Run | Lab5/kern/mm/kmalloc.c:98-185 | over any run of requests and releases the blocks in use are those answered and not released, free blocks and blocks in use partition exactly the units of the pages obtained, and a request fails only without a page |
| Kmalloc.OrderSuffices | Lab5/kern/mm/kmalloc.c:210-216 | the pages asked for hold the request exactly if its size is below 2^31 and not just above a power of two times the page size |
| Kmalloc.OrderTooSmall | Lab5/kern/mm/kmalloc.c:210-216 | 8193 bytes get two pages, 2^31 bytes one |
| Kmalloc.OrderExact | Lab5/kern/mm/kmalloc.c:210-216 | below 2^31 the order is the least one whose pages, with less than a byte more for each, hold the size; only the low word of a size matters, and from 2^31 on that word gives order zero |
| Kmalloc.BlockTight | Lab5/kern/mm/kmalloc.c:223-229 | a small block has room for its header and the request with less than one unit to spare, a record has two units |
| Kmalloc.RecordRemoved | Lab5/kern/mm/kmalloc.c:266-268 | taking a record off the list keeps the others records of disjoint pages |
| Kmalloc.Allocator.AllocSmall | Lab5/kern/mm/kmalloc.c:224-227 | panics exactly from 4064 bytes on; hands out the sentinel exactly for no bytes when it comes next; otherwise NULL exactly if no free block is large enough and there is no page, which changes nothing, or else the payload lies behind the header of a new live block, the first fit, and headers and records of all others stay |
| Kmalloc.Allocator.AllocBig | Lab5/kern/mm/kmalloc.c:229-245 | the record of pages and order, that of the size cut to an int, is a new live block at the head of the list, and all other headers and records stay; if the pages fail, the record is given back |
| Kmalloc.Allocator.Kmalloc | Lab5/kern/mm/kmalloc.c:218-246 | panics for exactly the sizes from 4064 to 4079; otherwise, but for the sentinel, the pointer is new, with room for header and request and less than a unit more, or for 2^find_order pages, NULL exactly if no block is free and no page is to be had, or the pages fail, and every block and run of pages handed out before stays as it was |
| Kmalloc.Allocator.SmallIsNotBig | Lab5/kern/mm/kmalloc.c:263-276 | no record is found for a small block of one byte or more, even if its payload is page-aligned |
| Kmalloc.Allocator.Kfree | Lab5/kern/mm/kmalloc.c:255-280 | gives back exactly the record found for the pointer, with its pages in the order recorded, or else exactly the small block; headers and records of the others stay; NULL changes nothing |
| Kmalloc.Allocator.RoundTrip | Lab5/kern/mm/kmalloc.c:218-280 | kfree undoes kmalloc: the same live blocks and records, the same free units but for a page the heap grew by; for a pointer to no bytes exactly if it is neither the sentinel's nor that of somebody's pages |
| KmallocRuns.Acquire | Lab5/kern/mm/kmalloc.c:218-246 | kmalloc adds one grant to those outstanding, on a block that overlaps none of theirs, or none exactly if no free block is large enough and there is no page, or the pages fail |
| KmallocRuns.LargeGrant | Lab5/kern/mm/kmalloc.c:263-276 | the record found for a large grant is its own, with the order asked for |
| KmallocRuns.SmallGrant | Lab5/kern/mm/kmalloc.c:263-279 | a small grant is found on no record unless it is of no bytes and has the pointer of a large one |
| KmallocRuns.NoBytesAmbiguous | Lab5/kern/mm/kmalloc.c:218-280 | a state of the heap in which a pointer to no bytes is also that of another client's pages |
| KmallocRuns.NoBytesReached | Lab5/kern/mm/kmalloc.c:218-246 | kmalloc(4096), kmalloc(4032) and kmalloc(0) on a new allocator, with the right pages, answer the first and the third with the same pointer |
| KmallocRuns.AnotherFreed | Lab5/kern/mm/kmalloc.c:255-280 | in the state that is reached, kfree of the pointer to no bytes gives the page of the other request back |
| KmallocRuns.Surrender | Lab5/kern/mm/kmalloc.c:255-280 | kfree of any outstanding pointer ends its own grant alone and returns its own pages and order |
| KmallocRuns.Run | Lab5/kern/mm/kmalloc.c:218-280 | over any interleaving the outstanding pointers and sizes are exactly the live blocks and records, every answer is as for one call, refused exactly without room and without a page, and free and live units partition the pages; the run ends only at an assertion, an answer with pages already given away, or a pointer to no bytes that is the sentinel's or ambiguous |
| KmallocRuns.AnsweredMeans | Lab5/kern/mm/kmalloc.c:98-246 | in a run, a request for which pages are at hand is granted, one that is refused has nowhere enough units free in a row between the blocks granted, and no unit of a block granted is one of another |
| KmallocRuns.StopsAt | Lab5/kern/mm/kmalloc.c:98-100 | a run stops at requests for 4064 to 4079 bytes, and at pages offered that somebody owns, that touch the sentinel, are not aligned or overlap, and at no other request |
| KmallocRuns.StopsRelease | Lab5/kern/mm/kmalloc.c:263-276 | a run stops at the release of a pointer to no bytes that also is that of pages, and at no other release |
| ProcStruct.CompareIsOrder | lab8/kern/schedule/default_sched_stride.c:15-24 | for strides less than a word apart the comparator orders them exactly if their difference is a 32-bit signed number |
| ProcStruct.PassPositive | lab8/kern/schedule/default_sched_stride.c:133-138 | a pick adds at most BIG_STRIDE, and nothing exactly if the priority exceeds BIG_STRIDE |
| ProcStruct.PassExact | lab8/kern/schedule/default_sched_stride.c:133-138 | pass times priority is BIG_STRIDE but for less than the priority; priority zero moves as one does |
| SkewHeap.Merge | lab8/libs/skew_heap.h:29-59 | the merged heap has exactly the nodes of both, and stays without duplicates |
| SkewHeap.Remove | lab8/libs/skew_heap.h:69-85 | exactly the node removed is missing from the heap |
| SkewHeap.MergeOrdered | lab8/libs/skew_heap.h:29-59 | merging by wrapped keys keeps the order of the unbounded strides, inside a window |
| SkewHeap.MergeRoot | lab8/libs/skew_heap.h:29-59 | the root with the lesser stride stays on top, and for equal strides that of the second heap |
| SkewHeap.RemoveOrdered | lab8/libs/skew_heap.h:69-85 | removing any node keeps that order |
| SkewHeap.RaisedRootRemoved | lab8/kern/schedule/default_sched_stride.c:119-141 | the root has the least stride; raised while still in the heap and then removed, it leaves an ordered heap and all strides in one window |
| SkewHeap.MergeHeaps | lab8/libs/skew_heap.h:29-59 | the pointer merge builds the functional heap with agreeing child and parent links, in as many comparisons as the functional merge takes |
| SkewHeap.Insert | lab8/libs/skew_heap.h:61-67 | the pointer insert builds the functional heap with the node added, its root without parent; the node is that root exactly if no stride is less than its own |
| SkewHeap.RemoveNode | lab8/libs/skew_heap.h:69-85 | the pointer removal, through the parent link, builds the functional heap without the node |
| SkewCost.MergePays | lab8/libs/skew_heap.h:29-59 | because children change places, a merge pays for its comparisons with nodes whose right subtree was the larger one, but for the outer paths of the heaps |
| SkewCost.RunPays | lab8/libs/skew_heap.h:29-85 | over any run of inserts and removals of the root with never more than n nodes, an operation takes 3 log(n + 2) + 1 comparisons on average |
| Scheduler.RunQueue.CountsProcesses | lab8/kern/schedule/default_sched_stride.c:81-81 | proc_num is the number of processes in the heap |
| Scheduler.RunQueue.Enqueue | lab8/kern/schedule/default_sched_stride.c:63-83 | the process joins the heap, the time slice is in range, and order is kept for strides inside the window; it is picked next exactly if no stride is less than its own |
| Scheduler.RunQueue.Dequeue | lab8/kern/schedule/default_sched_stride.c:93-105 | exactly the process leaves the heap |
| Scheduler.RunQueue.PickNext | lab8/kern/schedule/default_sched_stride.c:119-141 | the root is returned, its wrapped stride raised by its pass |
| Scheduler.Scheduler.Schedule | lab8/kern/schedule/sched.c:78-100 | the next process has the least unbounded stride of all contenders, which stay the same, and its stride grows by its pass; the process that ran has its mark cleared and, if it contends, its time slice renewed when used up; the queue holds exactly the other runnable ones; all strides stay in one window |
| Scheduler.Scheduler.Wakeup | lab8/kern/schedule/sched.c:58-76 | the process is runnable and contends; the window is kept exactly if its stride lies inside |
| Scheduler.Scheduler.Leave | lab8/kern/schedule/sched.c:78-100 | a process that sleeps or dies is no contender, and the queue still is right |
| Scheduler.Scheduler.ProcTick | lab8/kern/schedule/default_sched_stride.c:151-160 | the running process's time slice shrinks by one and it is to be rescheduled when nothing is left; the idle process always is; the queue is as it was |
| SchedulerRuns.Handle | lab8/kern/schedule/sched.c:58-100 | each event does to the states, the list and the strides what it says, and keeps the window if it wakes nobody from outside |
| SchedulerRuns.Competitors | lab8/kern/schedule/sched.c:58-100 | waking adds a competitor, blocking and dying remove the one that ran, and schedule passes the processor to a competitor and moves its stride alone, or to idle exactly if there is none |
| SchedulerRuns.Run | lab8/kern/schedule/sched.c:58-100 | over any interleaving, event by event, the queue holds each runnable process other than the running one and idle exactly once, and nothing else; if every process is woken inside the window, every pick is least and the window is kept |
| SchedulerRuns.AwayUntilWoken | lab8/kern/schedule/sched.c:58-100 | in any run a process that blocked or died does not compete, and is not switched to, until somebody wakes it |
| SchedulerRuns.Turn | lab8/kern/schedule/sched.c:78-100 | every call of schedule extends a run of least picks |
| SchedulerRuns.Share | lab8/kern/schedule/sched.c:78-100 | n calls while nobody sleeps or wakes are a run of n least picks of the contenders, and the run counters count them |
| SchedulerRuns.ShareOut | lab8/kern/schedule/default_sched_stride.c:119-141 | over n calls of schedule any two contenders run in proportion to their priorities: per unit of priority one at most once more than the other, but for their initial distance and the rounding of passes, over BIG_STRIDE |
| StrideShare.WindowKept | lab8/kern/schedule/default_sched_stride.c:11-24 | runs of least picks of any length keep all strides within BIG_STRIDE of each other |
| StrideShare.StrideCountsPicks | lab8/kern/schedule/default_sched_stride.c:119-141 | an unbounded stride is where it started plus picks times pass |
| StrideShare.ProportionalShare | lab8/kern/schedule/default_sched_stride.c:119-141 | picks times pass of any two processes differ by at most BIG_STRIDE and their initial gap |
| StrideShare.ShareByPriority | lab8/kern/schedule/default_sched_stride.c:119-141 | picks per unit of priority of any two processes differ by at most one, but for their initial distance and the rounding of passes, over BIG_STRIDE; there is no rounding for priorities that divide it |
| StrideShare.NoStarvation | lab8/kern/schedule/default_sched_stride.c:119-141 | with positive passes every process is picked within (n-1)(BIG_STRIDE+1)+1 turns |
| StrideShare.ZeroPassStarves | lab8/kern/schedule/default_sched_stride.c:133-138 | a process with pass zero in front of all others is picked for ever |
| StrideShare.ZeroPassLimits | lab8/kern/schedule/default_sched_stride.c:133-138 | wherever it stands, over runs of any length no other gets more than one pass beyond a process with pass zero |
| StrideShare.PositivePassServes | lab8/kern/schedule/default_sched_stride.c:119-141 | with positive passes everyone has had k picks after n(k+2)BIG_STRIDE+1 turns |
| StrideShare.WhoStarves | lab8/kern/schedule/default_sched_stride.c:119-141 | two or more processes inside the window are all picked again and again if and only if no priority is above BIG_STRIDE |
| TimerQueue.SplitEncodes | lab8/kern/schedule/sched.c:110-120 | putting a timer in with its distance, and shortening the next distance by it, keeps distances the differences of due times |
| TimerQueue.JoinedEncodes | lab8/kern/schedule/sched.c:131-139 | adding the distance of a timer taken out to the next one keeps distances the differences of due times |
| TimerQueue.TimerList.Add | lab8/kern/schedule/sched.c:102-123 | the timer is due when asked, behind all timers due no later and before all due later; nobody else's time changes |
| TimerQueue.TimerList.Delete | lab8/kern/schedule/sched.c:125-143 | exactly that timer leaves; the others keep their times, and a timer not on the list changes nothing |
| TimerQueue.TimerList.Tick | lab8/kern/schedule/sched.c:151-172 | what a tick does to the list: exactly the timers due now are taken off, in list order; all others are due later |
| TimerQueue.SameWith | lab8/kern/schedule/sched.c:102-123 | for every time, the list gives its timers in the order in which they were started, also with one more |
| TimerQueue.SameFired | lab8/kern/schedule/sched.c:145-176 | what a tick takes off the front is what was set for that time, in the order of starting |
| TimerQueue.Step | lab8/kern/schedule/sched.c:102-176 | each operation does to the list what it does to a record of timers and absolute times; a tick fires exactly those set for it, in the order in which they were started; the assertion fails exactly for no ticks or a timer that is pending |
| TimerQueue.Run | lab8/kern/schedule/sched.c:102-176 | over any run the ticks fire exactly what they fire on absolute times, and the list holds exactly the pending timers; it ends early only at a start for no ticks or of a timer that is on the list |
| TimerLaws.FiresAtItsTick | lab8/kern/schedule/sched.c:102-176 | in any run a timer that is started for n ticks and not cancelled fires exactly at the n-th tick after that |
| TimerLaws.FiresOnce | lab8/kern/schedule/sched.c:145-176 | it fires once, and not again until it is started again |
| TimerLaws.CancelledIsSilent | lab8/kern/schedule/sched.c:125-143 | a timer that was cancelled does not fire until it is started again |
| TimerWakeups.RunTimerList | lab8/kern/schedule/sched.c:145-176 | one timer interrupt: the processes of exactly the timers due now are runnable and compete for the processor, nobody else's state changes, and the time slice of the running process shrinks; an assertion fails exactly if one of them is a zombie or waits without being interruptible; the window is kept exactly if their strides lie inside |
| Pid.FreeCandidate | Lab5/kern/process/proc.c:183-183 | with fewer processes than pids some pid is free |
| Pid.PidAllocator.GetPid | Lab5/kern/process/proc.c:181-213 | the first free pid after the last one handed out, in cyclic order, all in between being in use; no listed pid lies inside the cached interval afterwards |
| Pid.PidAllocator.Search | Lab5/kern/process/proc.c:192-211 | the scan with its restarts ends, and skips only pids in use |
| ProcTree.LinkFirst | Lab5/kern/process/proc.c:151-160 | the process becomes the youngest child, in a doubly linked list of siblings |
| ProcTree.Unlink | Lab5/kern/process/proc.c:168-176 | the process leaves the list of siblings, which stays doubly linked |
| ProcTree.AddChild | Lab5/kern/process/proc.c:149-162 | the links of the whole tree stand, with one more child |
| ProcTree.RemoveChild | Lab5/kern/process/proc.c:165-178 | the links of the whole tree stand, without the childless process |
| ProcTree.MoveChild | Lab5/kern/process/proc.c:501-510 | the first child moves to the front of another's children, though the next one keeps a link to it for a while |
| ProcTree.Eldest | Lab5/kern/process/proc.c:148-178 | following the parent links from any process ends at the idle process |
| Process.Find | Lab5/kern/process/proc.c:260-273 | the lookup by hash finds exactly what a scan of the process list would find |
| Process.Pick | Lab5/kern/schedule/sched.c:32-44 | the scan ends with the first runnable process behind the current one on the circular list, or idle when there is none |
| ProcessSpec.AdoptedAll | Lab5/kern/process/proc.c:501-516 | after the loop the orphans are the first children of the new parent, in reverse order, and the old one has none |
| ProcessSpec.OrphanedAll | Lab5/kern/process/proc.c:501-516 | round by round, the loop moves all children and wakes their new parent exactly if one of them is a zombie and it sleeps |
| ProcessSpec.KilledLeaves | Lab5/kern/trap/trap.c:282-294 | after any step of the kernel, a process that made it and is marked as killed is dead or inside do_wait: it does not get back to user mode |
| ProcessSpec.SwitchedFirst | Lab5/kern/schedule/sched.c:32-44 | in cyclic order of the list, nobody between the process that ran, or the head for idle, and the one that runs next is runnable |
| ProcessSpec.SwitchedRest | Lab5/kern/schedule/sched.c:24-51 | a switch clears the mark of the process that ran and changes nothing else; somebody runnable runs, and idle only if nobody is |
| ProcessSpec.RoundRobin | Lab5/kern/schedule/sched.c:24-51 | if nothing else happens, everyone who is runnable gets the processor within as many switches as there are processes, and one |
| ProcessSpec.DiesRest | Lab5/kern/process/proc.c:473-521 | do_exit leaves a zombie with the code, hands its children to init in reverse order, wakes its parent, and init for a zombie it was given, and nobody else, and the scan chooses who runs |
| ProcessSpec.WaitsRest | Lab5/kern/process/proc.c:740-786 | do_wait fails without such a child, sleeps if none of them is a zombie, and otherwise takes exactly one zombie off the lists, the youngest if any will do |
| ProcessSpec.CallsServed | Lab5/kern/process/proc.c:391-804 | in a step of a process that is not inside do_wait, its call, and no other, is served |
| ProcessSpec.WayBack | Lab5/kern/trap/trap.c:282-294 | on the way back to user mode a killed process exits, one that is to be rescheduled gives way to the one that schedule chooses, and any other goes on as it is |
| ProcessSpec.YieldGivesWay | Lab5/kern/trap/trap.c:287-293 | a user process that yields and was not killed gives the processor to the process that schedule chooses |
| ProcessSpec.NoMarkLeft | Lab5/kern/trap/trap.c:287-293 | after its step a user process is dead, inside do_wait, or not to be rescheduled |
| Process.Kernel.Schedule | Lab5/kern/schedule/sched.c:24-51 | the process switched to is the one that the scan from the current one chooses, need_resched is cleared, one run is counted, and nothing else changes for anybody |
| Process.Kernel.Fork | Lab5/kern/process/proc.c:391-467 | the error exactly by process count and memory, and then nothing changes; otherwise a runnable youngest child with the next free pid after the last one handed out, at the head of the list, and nobody else changes; all invariants kept |
| Process.Kernel.Exit | Lab5/kern/process/proc.c:473-521 | panics exactly for idle and the first process; otherwise a zombie with the code, its children adopted in reverse order, its parent and the new parent awake if they have a zombie to reap, the processor with the process the scan chooses, nobody else changed, and all invariants kept |
| Process.Kernel.BecomeZombie | Lab5/kern/process/proc.c:491-500 | with the parent woken, no process sleeps on the new zombie |
| Process.Kernel.Disown | Lab5/kern/process/proc.c:501-516 | each round of adoption keeps the tree, and no wakeup is lost for a zombie that is adopted |
| Process.Kernel.Wait | Lab5/kern/process/proc.c:740-786 | reaps the youngest zombie child, or the one with the pid, with its exit code; -E_BAD_PROC exactly without such a child; otherwise the caller is asleep with the pid it waits for and another process runs; nobody else changes; the panic for idle and init never happens |
| Process.Kernel.Reap | Lab5/kern/process/proc.c:778-785 | exactly the zombie leaves the hash, the list and the tree |
| Process.Kernel.Kill | Lab5/kern/process/proc.c:790-804 | exactly the process with the pid is marked, and woken if it sleeps; nobody else changes; the error results exactly as the code has them |
| Process.Kernel.Resume | Lab5/kern/process/proc.c:763-767 | a process woken inside do_wait exits exactly if it was killed, which halts the kernel exactly for the first process, and otherwise searches again, with the results and the effects of do_wait |
| Process.Kernel.ReturnToUser | Lab5/kern/trap/trap.c:282-294 | on the way back to user mode a killed process exits, another that is to be rescheduled gives the processor up, and nothing happens to the rest |
| Process.Kernel.Serve | Lab5/kern/process/proc.c:391-804 | each call of a process, or init's own schedule, does to every process, the list, the children and the processor exactly what its relation says |
| Process.Kernel.Continue | Lab5/kern/process/proc.c:763-767 | what is left of a do_wait is finished: the process exits, reaps, fails or sleeps again; the idle process switches to the process that the scan chooses |
| Process.Kernel.Step | Lab5/kern/trap/trap.c:282-294 | one call of the running process, with the way back to user mode, keeps all invariants and is a full relation of states, marks, exit codes, children, list, last pid and running process before and after; a user process that yields gives way, and none goes on with need_resched set; the kernel halts exactly if the first process exits or resumes killed |
| Process.Kernel.Run | Lab5/kern/process/proc.c:391-870 | any run, call by call, moves from one full view of all processes to the next as its call says, keeps the tree, the pids, the counts and the states in order, and goes on exactly until the first process exits or resumes killed |
| Process.Boot | Lab5/kern/process/proc.c:880-928 | from the state that proc_init leaves, any run of calls keeps the first process the only child of idle |
| Process.InitAlone | Lab5/kern/process/proc.c:874-877 | whenever init finds no child to wait for, the assertions at its end hold: no child and no sibling, two processes, init alone on the list |
| Process.NoZombieAwaited | Lab5/kern/process/proc.c:760-767 | in every such state a process asleep in do_wait has no zombie among the children it waits for |
| Process.OneTree | Lab5/kern/process/proc.c:148-178 | in every such state all processes descend from idle |
| ElfSegment.CopyFile | Lab5/kern/process/proc.c:588-600 | the first loop puts the bytes of the file into one new page after the other, and stops early exactly when the frames are used up |
| ElfSegment.ClearRest | Lab5/kern/process/proc.c:616-626 | the last loop goes on with pages of zeros |
| ElfSegment.LoadSegment | Lab5/kern/process/proc.c:583-627 | each page the segment touches is mapped once, and no other; the assertion in the middle holds; without memory exactly if there are fewer frames than pages |
| ElfSegment.PagesTouched | Lab5/kern/process/proc.c:583-627 | the pages mapped are exactly those with an address of the segment in them |
| ElfSegment.SegmentInMemory | Lab5/kern/process/proc.c:583-627 | the bytes of the file are at their addresses, zeros behind them up to the memory size, and what was in the frames elsewhere |
| Mksfs.AppendedDouble | lab8/tools/mksfs.c:415-422 | an append through the double-indirect slots is found again, and all earlier blocks still are |
| Mksfs.AppendedIndirect | lab8/tools/mksfs.c:409-414 | an append through the indirect slots is found again, and all earlier blocks still are |
| Mksfs.OtherBlocks | lab8/tools/mksfs.c:397-426 | what a file reads does not depend on the index blocks of other files |
| Mksfs.NeededCounts | lab8/tools/mksfs.c:382-426 | an append takes just the index blocks by which the longer file has more |
| Mksfs.CreateImage | lab8/tools/mksfs.c:223-254 | gives up exactly for at most three blocks more than a multiple of 2^32; otherwise the image has the blocks of the file, cut to 32 bits and to the maximum, and the blocks to hand out begin right behind a bitmap that is just large enough |
| Mksfs.TooSmall | lab8/tools/mksfs.c:223-238 | a bitmap leaves no block exactly for at most three blocks more than a multiple of 2^32 |
| Mksfs.Image.AllocIno | lab8/tools/mksfs.c:173-180 | blocks are handed out one after the other, unused_blocks counts the rest, and it fails exactly at the end |
| Mksfs.Image.UpdateCache | lab8/tools/mksfs.c:382-395 | the index block is the cached one or a new empty one; the search is never needed |
| Mksfs.Image.AppendBlock | lab8/tools/mksfs.c:397-426 | every block appended is found again, in order, its number written in the slot of its place; too big and out of space exactly as computed; other files' index blocks stay |
| Mksfs.Image.AppendAll | lab8/tools/mksfs.c:397-426 | any number of appends of given blocks succeeds exactly if slots and index blocks suffice, and all are found again |
| Mksfs.Image.OpenFile | lab8/tools/mksfs.c:516-530 | a file of any size, its data blocks and index blocks taken from one allocator in turn, is stored exactly if only the last piece read is short and slots and image have room; all blocks are found again, and the blocks handed out are exactly the data blocks and the new index blocks, each once |
| Mksfs.BitmapBlock | lab8/tools/mksfs.c:318-332 | one block of the bitmap marks exactly the free blocks of its range |
| Mksfs.Bitmap | lab8/tools/mksfs.c:312-334 | the bitmap marks exactly the blocks from next_ino up to ninos, none beyond, in the number of blocks set aside for it |

## Left out

- Page free lists at pointer level (lab2 and lab3 default_pmm.c, best_fit_pmm.c): inserting at the tail adds the block after itself, so no list invariant holds in general; a set of free frames stands for them.
- The buddy allocator: its free path merges blocks without comparing orders, so its partition is not kept.
- The FIFO replacement list, printfmt, string routines, the shell and the user programs: easy next to what is here, or input and output.
- TLB flushes, and the accessed and dirty bits that hardware may set in entries.
- Faults on valid entries: Access reports failure for them and does not go on; do_pgfault would take such an entry for a swap entry.
- Areas that share a page: which of them a fault takes its permissions from depends on the address that faults first.
- mm_destroy, mm_map, copy_mm and the other parts of do_fork, do_exit and load_icode that handle memory: success or failure is a parameter.
- load_icode beyond the segment loops; the file must hold the bytes that the program header names, which the code does not check.
- SkewCost.RunPays: counts inserts and removals of the root, the operations that schedule and wakeup_proc come to; a removal inside the heap is proved right, but not its cost.
- TimerWakeups.RunTimerList: takes the timers due now off the list before it wakes their processes, which do not touch the list; which wait states are interruptible is a parameter, because the header of lab8 that says so is not part of this model.
- cache_inode hashing, directory entries and writing of blocks in mksfs.c: input and output around the block numbers; a word of the bitmap is its 32 bits.
- The file systems, devices and the virtual file system of lab8: thin dispatch.
- Paging.AddressSpace.FindPte: the case of get_pte without creation stands apart from GetPte, because allocation calls it.
- Process.Kernel.Step: do_wait by the idle process is not modelled; it only schedules. A clock interrupt that asks for rescheduling is `Yield` of the running process; rounds of the idle loop before need_resched is set are no steps.
- Kmalloc.Allocator.Kfree: the list of large blocks is a sequence; the link word that each record holds is not modelled.
- Kmalloc.Allocator.AllocBig: the pages for a large request are the page source's; only which pages and which order go back is claimed.

Nothing was executed: all statements are about the model.
