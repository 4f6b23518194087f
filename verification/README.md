# Verified models of the kvm-unit-tests support library

kvm-unit-tests runs small guest programs on bare (virtual) hardware. They share a C library: a buddy page
allocator, a virtual allocator on top of it, a protocol that runs functions on other CPUs, a virtqueue driver,
packed CPU masks, a formatted printer with its number parser, a prefix stack for test reports, and 64-bit
division for 32-bit targets. This project models that library in Dafny and proves what it relies on.

Where the C code updates memory in place, the model is a class or a method with the same loops, proved equal to a
function on values; the theorems about runs are about those functions. C asserts are Dafny asserts (so they cannot
fire) or an outcome whose exact condition is stated. Machine words are naturals below 2^64 and wrap-around is written
out. Strings are the characters before the terminating NUL.

| module | what it holds |
|---|---|
| `Basics` | options, sequences without repetition, the numbers below n |
| `Bits` | powers of two, bits of a word, masks, `fls`, `get_order` |
| `Lists` | circular doubly linked lists in a memory of links, and a family of free lists kept in them |
| `PageArea`, `PageOps`, `PageInit`, `PageBytes` | one memory area as a value: the invariant, split, merge, allocate, free, initialise, sizes |
| `PageAlloc` | the same area as the program keeps it: a byte array, intrusive lists, `max_order` |
| `PageFit`, `PageExact`, `PageFresh` | which block an allocation takes, what it leaves, and the order of the free lists; its whole effect, and freeing as its inverse; requests for fresh memory |
| `PageRuns` | several areas and every run of initialising, allocating and freeing |
| `Vmalloc` | the virtual allocator over a page table, physical pages and their contents |
| `Deadlock`, `OnCpus`, `OnCpusProof` | the waits-for graph and its check; the dispatch protocol as interleaved steps |
| `OnCpusCalls`, `OnCpusWaiters` | the life of one call; who waits on whom, and that nothing stalls unreported |
| `Virtio`, `VirtioRuns` | the split virtqueue driver, and every run of it against a device |
| `Cpumask` | CPU sets packed into words |
| `Division`, `Calendar` | shift-and-subtract division; the closed-form `mktime` |
| `CString`, `Printf`, `Format` | string functions and the number parser, number printing, `vsnprintf` |
| `RoundTrip`, `Numerals`, `FormatShift`, `FormatLaw` | printing against parsing; what a printed number looks like and what a numeral is read as; formats of several parts; what each conversion prints |
| `Report` | the prefix stack |

The main results, hardest first:

- Page allocator. In every state reached by initialising areas, allocating and freeing, each area is tiled by aligned
  power-of-two blocks of one state byte, every free list holds exactly the usable blocks of its order, blocks handed
  out never overlap, usable and allocated pages add up to the same number for ever, and no assert fires when a block
  is freed (`PageRuns.RunsKeepInvariant`, `PageRuns.LiveNeverOverlap`, `PageRuns.RunsConserve`,
  `PageRuns.FreeNeverAsserts`, `PageOps.AllocCorrect`, `PageOps.FreeCorrect`). An allocation splits a block of the
  least order that will do, in the first area that has one, and takes used memory before fresh memory; exactly the
  halves split off stay free; a request for fresh memory gets pages never handed out before; and allocating undoes
  freeing (`PageFit.AllocBestFit`, `PageExact.AllocExact`, `PageExact.FreeThenAlloc`, `PageRuns.AllocationsFind`,
  `PageRuns.RunsDirtyFirst`, `PageRuns.UsedNeverFresh`).
- Dispatch to CPUs. Over every interleaving of any number of CPUs, an accepted task is run exactly once, never
  overwritten before that and never blocked from being begun; whatever takes a call off its stack, its function has by
  then been accepted, and completed if the call waits, on every CPU asked for; the waiters masks are exact, so the
  deadlock check reports only what is there; and as long as some call has not returned some CPU can get on with its
  work or a deadlock check fires: nothing stalls in silence (`OnCpusProof`, `OnCpusCalls`, `OnCpusWaiters`, `Deadlock`).
- Virtqueue. In every run against a device that returns each head once, the free chain, both rings and the in-flight
  buffers stay consistent across the wrap of the 16-bit indices; the device fetches exactly the buffers added, in
  order, and what it works on does not change under it (`VirtioRuns`).
- Virtual allocator. Allocations are aligned, backed, disjoint and exactly where and as large as the arguments say;
  freeing returns exactly the backing pages, although the page count is read again after its page was freed (`Vmalloc`).
- Printing and parsing. `vsnprintf` stores the longest prefix of the unbounded output; the output of a format is the
  outputs of its parts in a row, each conversion, with any flags, width, precision and length, taking its arguments
  from the front; every printed field is given character by character; and a printed number is read back by the
  parser, which reads every numeral as the number it writes (`Format.Vsnprintf`, `FormatLaw`, `Numerals`, `RoundTrip`).

Properties one might expect that do not hold, with the exact condition under which they do, and a concrete input where
that condition does not already name one:

- "NULL is returned only when no free block is large enough": `PageRuns.AllocIncomplete` gives a run from
  initialisation on that fails, because freeing never raises `max_order`; `PageOps.AllocFails` says exactly when NULL
  is returned.
- "A block whose alignment and size are at least the parameter values": so it is, except that a request for fresh
  memory never gets the size and gets the alignment exactly when it is smaller than the order asked for
  (`PageOps.AllocCorrect`, `PageFresh.FreshTooSmall`).
- "A freed block is taken again by the next request of its order": exactly when the order does not lie above
  `max_order` (`PageExact.FreeThenAlloc`).
- "A freed block is merged with its free buddy": it never is (`PageOps.FreedNeverMerges`), because the block carries
  the free bit that `coalesce` does not accept.
- "`coalesce` keeps the area well formed": exactly when the two neighbours are true buddies
  (`PageAlloc.MemArea.Coalesce`, `PageArea.MergeBreaks`); its caller passes only such pairs.
- "A byte size is always covered": it is unless rounding up to pages wraps around (`PageBytes.RequestOrderLeast`,
  `Vmalloc.PlanCovers`).
- "The next virtual range lies below the previous one": exactly when there is room (`Vmalloc.NextTopExact`).
- "A printed signed number is read back": exactly when its sign is not behind padding zeros
  (`RoundTrip.IntRoundTrip`, `RoundTrip.BuriedSign`).
- "A printed unsigned number is as wide as asked for": exactly when it has no prefix before a field of zeros with a
  negative width (`Numerals.UnsignedWidth`, `Numerals.WidePrefix`).
- "A pushed prefix is popped again": exactly when no `%c` of its format takes a zero, the only way to put a NUL into
  the text (`Report.RecordedExactly`, `Format.NulExactly`, `Report.NulPrefix`).

Where a comment and the code disagree, the model follows the code: the comment above the coalescing loop of
`_free_pages` says that neighbouring blocks are merged, which the code never does for a block that was just freed; and
the comment above `page_memalign_order` promises the whole size, of which a request for fresh memory gets half.

## Model

| member | source | states |
|---|---|---|
| `Bits.Fls` | lib/bitops.h:43-72 | the halving search finds the position of the highest set bit, which is defined by powers of two |
| `Bits.FlsNarrow` | lib/bitops.h:47-70 | one halving step keeps the sum of the counter and the highest bit |
| `Bits.IsPowerOf2Meaning` | lib/bitops.h:80-83 | the word test `n & (n - 1)` singles out exactly the powers of two |
| `Bits.GetOrderLeast` | lib/bitops.h:85-88 | `get_order` is the least order whose block covers the size |
| `Bits.GenMaskBits` | lib/bitops.h:36-37 | the mask has exactly the bits of its range |
| `Bits.GenMaskIsMacro` | lib/bitops.h:36-37 | the and of the two shifted all-ones words is the difference of two powers of two |
| `Bits.HighMaskAlignsDown` | lib/vmalloc.c:50-52 | masking with `GENMASK` rounds down to a multiple of the alignment |
| `Lists.InsertKeepsRing` | lib/list.h:43-51 | the three link writes of an insertion leave one closed prev/next cycle with the item in its place |
| `Lists.DeleteKeepsRing` | lib/list.h:28-38 | the two link writes of a removal leave one closed cycle without exactly that item |
| `Lists.RingUntouched` | lib/list.h:28-60 | a list with other nodes keeps its cycle |
| `Lists.OthersUntouched` | lib/list.h:28-60 | rewiring one free list, and a page on no list, keeps every other free list |
| `Lists.ListMemory.IsListEmpty` | lib/list.h:19-22 | true exactly for an unlinked item or a cycle of one item |
| `Lists.ListMemory.ListRemove` | lib/list.h:28-38 | deletes exactly its node, sets its links to NULL and returns it; NULL and no change when it is alone or unlinked |
| `Lists.ListMemory.ListAdd` | lib/list.h:43-51 | inserts right after the given item, writing only that cycle |
| `Lists.ListMemory.ListAddTail` | lib/list.h:56-60 | appends at the end of the list |
| `Lists.ListMemory.Last` | lib/alloc_page.c:160-162 | the last page of a free list, or that it is empty |
| `PageArea.SplitKeeps` | lib/alloc_page.c:99-134 | a split keeps tiling, exact free lists and the bound on fresh blocks, gives both halves, and leaves all other pages alone |
| `PageArea.TakeKeeps` | lib/alloc_page.c:181-192 | marking a usable block allocated and unlinking it keeps the invariant |
| `PageArea.ReleaseKeeps` | lib/alloc_page.c:266-301 | marking a live block free and linking it keeps the invariant |
| `PageArea.MergeKeeps` | lib/alloc_page.c:220-250 | merging a true buddy pair keeps the invariant and every page's use |
| `PageArea.MergeBreaks` | lib/alloc_page.c:220-250 | merging neighbours that are not buddies breaks the invariant |
| `PageOps.SplitDownKeeps` | lib/alloc_page.c:173-179 | splitting down to an order keeps the invariant, every page's use and all allocated bytes |
| `PageOps.AllocCorrect` | lib/alloc_page.c:142-193 | NULL changes nothing; a block is aligned to both orders, was wholly usable, and exactly its pages become allocated, all other allocated bytes being kept |
| `PageOps.AllocFails` | lib/alloc_page.c:142-171 | NULL exactly when no usable block has an order in the searched range |
| `PageOps.FreedNeverMerges` | lib/alloc_page.c:233-235 | the pair a just-freed block belongs to is never mergeable |
| `PageOps.FreeCorrect` | lib/alloc_page.c:266-318 | the asserts pass exactly on the first page of a live block; exactly its pages become usable and all other bytes are kept |
| `PageOps.SplitThenMerge` | lib/alloc_page.c:99-250 | splitting a fresh block and coalescing its halves restores every byte, `max_order` and the members of every list |
| `PageFit.AllocBestFit` | lib/alloc_page.c:142-193 | the block comes from the least order large enough that has one and is its first part; the free blocks afterwards are exactly the old ones without it and with the halves split off |
| `PageFit.AllocMaxOrder` | lib/alloc_page.c:112-121 | `max_order` is lowered, by one, exactly when an allocation splits the only block of that order |
| `PageFit.FreeGivesBack` | lib/alloc_page.c:266-318 | a free adds exactly its block to the free ones, not fresh, and never raises `max_order` |
| `PageFit.AllocDirtyFirst` | lib/alloc_page.c:99-193 | on every free list blocks used before stay in front of fresh ones, and one of them is taken when the chosen order has any |
| `PageFit.FreeDirtyFirst` | lib/alloc_page.c:293-300 | a freed block goes in front of the fresh ones |
| `PageExact.AllocExact` | lib/alloc_page.c:142-193 | the whole effect: the first part of the block is allocated, each half split off goes to its list with the block's state, in front, or at the end if it is fresh, the block leaves its list, and nothing else changes |
| `PageExact.FreeThenAlloc` | lib/alloc_page.c:142-318 | an allocation right after a free gets the same block and restores the area byte by byte and list by list, exactly when its order does not lie above `max_order` |
| `PageFresh.FreshCorrect` | lib/alloc_page.c:142-193 | a request for fresh memory keeps the invariant, its pages were all fresh and exactly they become allocated: half as many as asked for |
| `PageFresh.FreshTooSmall` | lib/alloc_page.c:136-192 | the size is never what was asked for, the alignment exactly when it is smaller than the order asked for |
| `PageFresh.FreshFails` | lib/alloc_page.c:149-171 | NULL exactly when no fresh block has an order above both orders asked for and up to `max_order` |
| `PageFresh.FreshKeepsOrder` | lib/alloc_page.c:142-193 | it keeps blocks used before in front of fresh ones |
| `PageFresh.ServeFails` | lib/alloc_page.c:149-171 | a request of either kind gets a block exactly when its search reaches one |
| `PageInit.TableSizeLeast` | lib/alloc_page.c:481-491 | the table covers the remaining pages and is the smallest that does |
| `PageInit.ExtendKeeps` | lib/alloc_page.c:506-526 | placing the next fresh block keeps the invariant |
| `PageInit.ExtendMaximal` | lib/alloc_page.c:506-526 | a block of the largest aligned order that fits keeps the cut maximal and `max_order` the largest order placed |
| `PageInit.ExtendDescending` | lib/alloc_page.c:522-525 | a fresh area's free lists run from high addresses to low ones |
| `PageAlloc.NextOrder` | lib/alloc_page.c:508-520 | the order search ends at the largest aligned order that fits, without reaching its asserts |
| `PageAlloc.CutBlocks` | lib/alloc_page.c:502-526 | the loop cuts the whole range into maximal blocks and leaves a valid area |
| `PageAlloc.MemArea.constructor` | lib/alloc_page.c:465-529 | state table first, the rest a valid area cut maximally, `max_order` the largest order placed, every free list from high addresses to low ones |
| `PageAlloc.MemArea.Split` | lib/alloc_page.c:99-134 | the byte loop and list moves equal the split on values, and none of the asserts fires |
| `PageAlloc.MemArea.Search` | lib/alloc_page.c:150-171 | finds the least non-empty order from the requested one up to `max_order`, and its first block |
| `PageAlloc.MemArea.PageMemalignOrder` | lib/alloc_page.c:142-193 | the in-place allocation equals the allocation on values, keeps the invariant, and writes links of list heads and usable pages only |
| `PageAlloc.MemArea.SearchFresh` | lib/alloc_page.c:158-167 | finds the least order whose last block is fresh, and that block |
| `PageAlloc.MemArea.PageMemalignFresh` | lib/alloc_page.c:142-193 | the in-place allocation of fresh memory equals the one on values, keeps the invariant, and writes links of list heads and usable pages only |
| `PageAlloc.MemArea.Coalesce` | lib/alloc_page.c:220-250 | merges exactly a mergeable pair, as the merge on values, and otherwise changes nothing; the invariant is kept exactly when nothing is merged or the pair are buddies |
| `PageAlloc.MemArea.CoalesceFrom` | lib/alloc_page.c:302-317 | every round looks at a true buddy pair, the loop ends, and no page changes its use |
| `PageAlloc.MemArea.FreePages` | lib/alloc_page.c:266-318 | NULL is ignored; otherwise the in-place free equals the free on values and is not ok exactly when an assert fires; links of list heads and usable pages only are written |
| `PageRuns.GrantAddsLive` | lib/alloc_page.c:178-193 | an allocation adds exactly its block to the live blocks |
| `PageRuns.FreeRemovesLive` | lib/alloc_page.c:266-301 | a free removes exactly its block from the live blocks |
| `PageRuns.LiveDisjoint` | lib/alloc_page.c:142-193 | two live blocks that share a page are the same block |
| `PageRuns.RunsConserve` | lib/alloc_page.c:142-318 | from any reached state on, an area keeps its frames, and its usable plus allocated pages stay the same number whatever is done |
| `PageRuns.FreedBlockMissed` | lib/alloc_page.c:299-300 | a block freed above `max_order` is not found by the next request of its size |
| `PageRuns.AllocIncomplete` | lib/alloc_page.c:142-171 | a run of initialisation, two allocations and a free after which a pair is free and a request for a pair gets NULL |
| `PageRuns.EndpointsSuffice` | lib/alloc_page.c:493-501 | the four endpoint checks make the new area disjoint from all others |
| `PageRuns.EndpointsExact` | lib/alloc_page.c:493-501 | they pass exactly when the new frames overlap no area |
| `PageRuns.GetArea` | lib/alloc_page.c:195-203 | finds the one area that holds the frame, or none when none does |
| `PageRuns.AllocInSpec` | lib/alloc_page.c:392-407 | NULL and no change exactly when no allowed area has a block that its search reaches; otherwise the first such area grants the block and the others stay as they are |
| `PageRuns.InitKeeps` | lib/alloc_page.c:465-529 | adding an area keeps all areas valid and disjoint and brings no live block |
| `PageRuns.AllocateKeeps` | lib/alloc_page.c:392-407 | an allocation keeps the ledger of live blocks exact |
| `PageRuns.ReleaseKeepsHeap` | lib/alloc_page.c:266-318 | a free keeps the ledger of live blocks exact |
| `PageRuns.RunsKeepInvariant` | lib/alloc_page.c:99-529 | every state reached by any run satisfies the invariant of all areas and the ledger |
| `PageRuns.LiveNeverOverlap` | lib/alloc_page.c:142-193 | in every run, blocks handed out and not yet returned share no page |
| `PageRuns.FreeNeverAsserts` | lib/alloc_page.c:266-318 | in every run, freeing a block that was handed out and not yet returned fires no assert |
| `PageRuns.AllocationsFind` | lib/alloc_page.c:392-407 | in every run, a request gets NULL exactly when no allowed area has a usable block, or a fresh one if it asks for that, of an order that its search reaches, and otherwise a block inside the first area that has one, all of it fresh if it asked for that |
| `PageRuns.RunsDirtyFirst` | lib/alloc_page.c:99-318 | in every run, on every free list, blocks used before come before fresh ones |
| `PageRuns.UsedNeverFresh` | lib/alloc_page.c:142-318 | from any reached state on, a page that is allocated, or was before, is never fresh again |
| `PageBytes.RequestOrderLeast` | lib/alloc_page.c:422-430 | the requested order is the least that covers the bytes, exactly when rounding up to pages does not wrap |
| `PageBytes.AlignmentOrderSound` | lib/alloc_page.c:422-430 | a block aligned to the computed order starts at an address with the requested alignment |
| `Vmalloc.NextTopExact` | lib/vmalloc.c:45-60 | the masked 64-bit subtraction gives an address far enough below the old top exactly when there is room, and then the exact one |
| `Vmalloc.PlanCovers` | lib/vmalloc.c:131-142 | the pages chosen cover the size exactly when rounding up does not wrap |
| `Vmalloc.PlanIs` | lib/vmalloc.c:131-142 | one page when alignment and size fit it together, refusal when their sum wraps, otherwise just the pages that hold the size at the larger of page and requested alignment |
| `Vmalloc.OnePageAligned` | lib/vmalloc.c:102-115 | the offset behind the metadata keeps a small alignment |
| `Vmalloc.ManyAligned` | lib/vmalloc.c:140-145 | rounding down to the computed order meets the requested alignment |
| `Vmalloc.NewBlockKeeps` | lib/vmalloc.c:102-160 | a block on free pages below everything allocated joins the live ones, apart from all of them |
| `Vmalloc.ReturnKeeps` | lib/vmalloc.c:162-190 | returning one block's pages keeps every other live block tagged, mapped and owned |
| `Vmalloc.AllocatorTouchesLinksOnly` | lib/list.h:10-60 | what is taken for granted about pages going to and coming from the page allocator follows from its link writes: only the two link words of free pages change |
| `Vmalloc.Vm.DoAllocVpages` | lib/vmalloc.c:45-60 | the range lies below the old top exactly when there is room, and then it is the highest aligned one; the top moves there |
| `Vmalloc.Vm.VmAllocOnePage` | lib/vmalloc.c:102-115 | one fresh page below the top with its magic word; when no page is left, an address mapped to frame 0 with the magic word there, and no new block |
| `Vmalloc.Vm.VmMemalign` | lib/vmalloc.c:123-160 | the pointer is aligned, its bytes are backed by pages that were free, and its block is apart from all earlier ones; the number of pages and the address are those the arguments and the old top give; it fails exactly when an assert on the arguments fires or a physical page is missing |
| `Vmalloc.Vm.VmFree` | lib/vmalloc.c:162-190 | page alignment picks the right branch, the asserts hold, exactly the backing pages are returned, once each, and only link words of free pages are written |
| `Deadlock.WaitsOnStep` | lib/on-cpus.c:24-40 | to wait on a CPU is to be, or to wait on, one of its waiters |
| `Deadlock.Search` | lib/on-cpus.c:24-40 | the recursion without a visited set ends and finds the CPU exactly when it waits on one of the waiters |
| `Deadlock.Check` | lib/on-cpus.c:42-51 | a deadlock is reported exactly when the target already waited on the caller |
| `Deadlock.CheckDecides` | lib/on-cpus.c:42-51 | the graph with the new edge is acyclic exactly when the check finds nothing |
| `Deadlock.AcyclicIsRanked` | lib/on-cpus.c:24-40 | an acyclic waits-for graph has a rank that falls from every CPU to its waiters, which bounds the recursion |
| `Deadlock.DropKeepsAcyclic` | lib/on-cpus.c:146-147 | clearing a waiter bit keeps the graph acyclic |
| `OnCpusProof.StepKeeps` | lib/on-cpus.c:53-156 | any step of any CPU keeps the protocol invariant |
| `OnCpusProof.RunsKeepInvariant` | lib/on-cpus.c:53-156 | every interleaving of any number of CPUs keeps it, so the waits-for graph stays acyclic while no check fires |
| `OnCpusProof.TasksRunOnce` | lib/on-cpus.c:67-112 | each CPU begins exactly the tasks it accepted, once each and in order, and an idle CPU has completed all of them |
| `OnCpusProof.AcceptedCanRun` | lib/on-cpus.c:67-84 | in every run, a CPU with an accepted task not begun can take its next step and begins that task within two steps of its own |
| `OnCpusProof.NeverOverwritten` | lib/on-cpus.c:67-112 | no step changes a task that is accepted and not begun, and that task is the one begun |
| `OnCpusProof.AcceptedOnlyByPublish` | lib/on-cpus.c:98-112 | a task is accepted only when its sender clears the idle bit of an idle target, and it is the sender's task |
| `OnCpusProof.NoSpinRing` | lib/on-cpus.c:42-65 | no ring of CPUs each spins on the next |
| `OnCpusCalls.CallsLeaveWhenDone` | lib/on-cpus.c:86-156 | in every run, whatever any CPU does, a call keeps what it was asked for, gets a ticket only by having its task accepted, counts as run on its caller only when that turn has returned, and leaves its stack only when it is done |
| `OnCpusCalls.ReturnMeansDone` | lib/on-cpus.c:114-156 | whatever step takes a waiting call off the stack, its task has been accepted, begun and finished on every CPU asked for, the caller included |
| `OnCpusCalls.AsyncReturnMeansAccepted` | lib/on-cpus.c:86-139 | whatever step takes a call that does not wait off the stack, all its targets have accepted its task |
| `OnCpusCalls.StacksGrow` | lib/on-cpus.c:114-139 | a stack grows only by a call as it was invoked, or by the caller's one turn of its own function after all other targets have accepted it |
| `OnCpusCalls.StepsUnlessBlocked` | lib/on-cpus.c:53-156 | in every run, a CPU can step exactly when it is not spinning on a busy target, a lock held elsewhere, or a deadlock that the check reports |
| `OnCpusCalls.AwaitEnds` | lib/on-cpus.c:141-149 | once all its targets are idle, a waiting call can finish by steps of its own |
| `OnCpusWaiters.WaitersExact` | lib/on-cpus.c:53-65 | in every run, a CPU stands in exactly the waiters masks of the CPUs it spins on or waits for, and whoever is sent something has been started |
| `OnCpusWaiters.ReportsAreReal` | lib/on-cpus.c:24-51 | when the check fires there is a line of CPUs from the target to the caller, each registered as waiting on the next |
| `OnCpusWaiters.NoSilentDeadlock` | lib/on-cpus.c:24-156 | in every run, as long as some call has not returned, some CPU can take a step that gets somewhere or its deadlock check fires |
| `Virtio.SlotIsRemainder` | lib/virtio.c:74-75 | for a power of two the 16-bit index and a free-running counter select the same slot |
| `Virtio.Virtqueue.constructor` | lib/virtio.c:23-48 | links all descriptors into the free chain and clears the data |
| `Virtio.Virtqueue.Add` | lib/virtio.c:50-81 | the in-place addition equals the addition on values, about which `VirtioRuns.DeviceFetchesAdded` and `VirtioRuns.AddFailsWhenFull` say what it does |
| `Virtio.Virtqueue.DetachBuf` | lib/virtio.c:90-104 | the chain walk returns a whole chain to the free list, as on values |
| `Virtio.DetachFreesChain` | lib/virtio.c:90-104 | detaching puts a whole chain, of any length, in front of the free ones, forgets its buffer and changes nothing else |
| `Virtio.Virtqueue.Get` | lib/virtio.c:106-125 | the in-place collection equals the one on values |
| `VirtioRuns.SlotsPut` | lib/virtio.c:74-77 | writing the next ring slot overwrites no entry still queued |
| `VirtioRuns.AddKeeps` | lib/virtio.c:50-81 | adding a buffer keeps free chain, rings and in-flight buffers consistent |
| `VirtioRuns.GetKeeps` | lib/virtio.c:106-125 | collecting a buffer keeps them consistent |
| `VirtioRuns.GetReturnsAdded` | lib/virtio.c:106-125 | the buffer returned is the one added under that head, with the device's length |
| `VirtioRuns.DeviceFetchesAdded` | lib/virtio.c:50-81 | in every run, what the device fetches next is the buffer that was added in that turn, in one readable descriptor that leads nowhere else |
| `VirtioRuns.DeviceBuffersStay` | lib/virtio.c:50-125 | in every run, what the device works on stays as it was fetched until the device returns it |
| `VirtioRuns.AddFailsWhenFull` | lib/virtio.c:50-81 | in every run, adding fails exactly when all descriptors are in flight, and then changes nothing |
| `VirtioRuns.RunsKeepInvariant` | lib/virtio.c:23-125 | every run keeps the invariant, across index wrap |
| `VirtioRuns.FreePlusInFlight` | lib/virtio.c:23-125 | in every run the free chain visits exactly the descriptors without data, and free plus in flight is the ring size |
| `VirtioRuns.StepsNotBlocked` | lib/virtio.c:50-125 | in every run, any buffer may be added, whatever was used can be collected, and the device sees new heads exactly when some are on offer |
| `Cpumask.RelationByWords` | lib/cpumask.h:62-164 | the word tests decide the relation on the CPUs below `nr_cpus`, whatever the stray bits are |
| `Cpumask.Subset` | lib/cpumask.h:62-73 | true exactly for set inclusion below `nr_cpus` |
| `Cpumask.Equal` | lib/cpumask.h:131-142 | true exactly for set equality below `nr_cpus` |
| `Cpumask.Empty` | lib/cpumask.h:144-153 | true exactly for no member below `nr_cpus` |
| `Cpumask.Full` | lib/cpumask.h:155-164 | true exactly when every CPU below `nr_cpus` is a member |
| `Cpumask.CombinedMembers` | lib/cpumask.h:76-129 | words combined this way are the set operation on the members, without stray bits |
| `Cpumask.Combine` | lib/cpumask.h:76-129 | and, or, xor and andnot give the set operation also when the destination is a source; the result tells whether it is not empty |
| `Cpumask.SetCpu` | lib/cpumask.h:21-31 | changes exactly one member |
| `Cpumask.Weight` | lib/cpumask.h:166-174 | the number of members |
| `Cpumask.Next` | lib/cpumask.h:182-187 | the first member after the given CPU, or `nr_cpus` |
| `Cpumask.ForEachCpu` | lib/cpumask.h:189-192 | visits exactly the members, in increasing order |
| `Division.Clz32` | lib/ldiv32.c:13-23 | the number of leading zeros |
| `Division.Clz64` | lib/ldiv32.c:25-28 | the number of leading zeros of the 64-bit word |
| `Division.UDivMod` | lib/ldiv32.c:31-61 | shift and subtract gives the quotient and a remainder below the divisor, for all 64-bit operands; a trap exactly on zero |
| `Division.DivMod` | lib/ldiv32.c:63-79 | truncation toward zero, the remainder with the sign of the dividend |
| `Division.TruncatedUnique` | lib/ldiv32.c:63-105 | there is only one such quotient and remainder, so the wrappers return it |
| `Calendar.MktimeCounts` | powerpc/rtas.c:9-35 | the closed form equals days counted by years and months since 1970, for every valid date |
| `Calendar.MktimeIncreasing` | powerpc/rtas.c:13-35 | a later date gives a later time |
| `Calendar.NextDayAdds` | powerpc/rtas.c:13-35 | consecutive days are 86400 seconds apart, across month ends, year ends and leap days |
| `CString.Memcmp` | lib/string.c:141-153 | zero exactly on equal bytes, otherwise the difference at the first place they differ |
| `CString.Strstr` | lib/string.c:101-116 | the first occurrence, or none when there is none |
| `CString.ReadDigits` | lib/string.c:214-247 | reads the longest run of digits; the overflow asserts fire exactly when the number exceeds the limit |
| `CString.Strtoll` | lib/string.c:181-256 | the cursor loop reads what the text means: space, sign, prefix, digits; the end pointer; an assert exactly on overflow |
| `Printf.WriteDigits` | lib/printf.c:169-172 | the digit loop writes the digits of the number backwards |
| `Printf.FillZeros` | lib/printf.c:174-175 | zeros up to the precision, at least one digit |
| `Printf.ReverseInPlace` | lib/printf.c:181-187 | swapping from both ends reverses the buffer |
| `Printf.DigitsFit` | lib/printf.c:161-175 | the digits of a 64-bit number fit the local buffers |
| `Printf.Stream.AddChar` | lib/printf.c:26-33 | one more character of output, stored only while there is room, nothing else in the buffer changed |
| `Printf.Stream.PrintStr` | lib/printf.c:35-59 | padding, at most precision characters, blanks behind |
| `Printf.PaddedWidth` | lib/printf.c:35-59 | the field is as wide as asked for, the text on its right, or on its left for a negative width; a text cut by the precision is padded as if whole |
| `Printf.Stream.PrintInt` | lib/printf.c:159-192 | the sign and zero-filled digits, padded |
| `Printf.Stream.PrintUnsigned` | lib/printf.c:194-236 | the zero-filled digits with the prefix of the alternate form, padded |
| `Format.ReadFmtNum` | lib/printf.c:238-252 | the width and where the format goes on |
| `Format.ReadInt` | lib/printf.c:257-282 | the precision from digits, an argument or nothing |
| `Format.Switch` | lib/printf.c:320-412 | one turn of the switch: its text, or the changed properties |
| `Format.Vsnprintf` | lib/printf.c:284-417 | the first min(size - 1, total) characters of the unbounded output and a NUL, nothing else changed, the total returned, for every format that is defined; `FormatLaw` says what that output is |
| `Format.PlainText` | lib/printf.c:307-319 | a format without conversions is its own output |
| `Format.OneConversion` | lib/printf.c:320-412 | a lone conversion prints just its argument |
| `Format.NulExactly` | lib/printf.c:307-413 | the output holds a NUL exactly when some `%c` takes an argument that is zero as a character |
| `RoundTrip.DigitsValue` | lib/printf.c:194-208 | the digits printed for a number write that number, after any zeros |
| `RoundTrip.UnsignedRoundTrip` | lib/printf.c:194-236 | every 64-bit number, with any width, precision and prefix, is read back in full; a signed parse asserts exactly above LONG_MAX |
| `RoundTrip.IntRoundTrip` | lib/printf.c:159-192 | every number of magnitude up to LONG_MAX is read back in full, exactly when its sign is not behind padding zeros |
| `RoundTrip.BuriedSign` | lib/printf.c:35-46 | a number whose sign is printed behind zeros and that reads back as 0 |
| `Numerals.DigitsAre` | lib/printf.c:157-203 | the digits of a number: as many as its magnitude takes, lower case, no leading zero; none for zero |
| `Numerals.UnsignedField` | lib/printf.c:194-236 | the text of an unsigned number, character by character: blanks, prefix unless zero, zeros, digits, blanks, each as many as width and precision say |
| `Numerals.IntField` | lib/printf.c:159-192 | the text of a signed number, character by character; padding zeros go before the sign |
| `Numerals.IntWidth` | lib/printf.c:159-192 | a signed number fills its width, and overruns it only when it has to |
| `Numerals.UnsignedWidth` | lib/printf.c:205-236 | so does an unsigned one, exactly unless its prefix stands before a field of zeros with a negative width |
| `Numerals.WidePrefix` | lib/printf.c:212-219 | a number that comes out two characters too wide |
| `Numerals.NumeralRead` | lib/string.c:181-256 | every numeral, after any white space and sign, with any prefix and in any base, the base left open included, is read as the number its digits write, up to the first character that is not one of them; negated modulo 2^64 after a minus; an assert exactly beyond the limit |
| `Numerals.CaseBlind` | lib/string.c:215-222 | capital letters are the same digits |
| `FormatShift.ShiftRender` | lib/printf.c:308-413 | what a format puts out from the cursor on does not depend on what comes before |
| `FormatShift.TextThen` | lib/printf.c:308-319 | text in front of any format comes out as it is, in front of the output of the rest |
| `FormatShift.OtherThen` | lib/printf.c:323-411 | a percent sign and a character without a meaning, such as another percent sign, puts out that character and takes no argument |
| `FormatLaw.ConversionThen` | lib/printf.c:238-413 | a conversion in front of any format takes its arguments, a star's included, from the front, and its output comes before that of the rest |
| `FormatLaw.CharRenders` | lib/printf.c:326-328 | `%c` is the one character, the argument modulo 256, whatever the flags |
| `FormatLaw.StringRenders` | lib/printf.c:35-59 | `%s` is a field of the width asked for, with the first characters of the string, as many as the precision lets through, on its right or left side |
| `FormatLaw.UnsignedRenders` | lib/printf.c:348-402 | `%u`, `%x` and `%p` are the field of the argument modulo 2^32, or 2^64 with `l`, `z`, `t` or for an address, an address always in the alternate form |
| `FormatLaw.IntRenders` | lib/printf.c:348-372 | `%d` is the field of the signed number of that width congruent to the argument |
| `FormatLaw.UnsignedReadBack` | lib/printf.c:194-402 | formatting an unsigned number or an address with any flags, width, precision and length and parsing the output gives the number back, with the base left open too in the alternate form |
| `FormatLaw.IntReadBack` | lib/printf.c:159-372 | formatting a signed number with any flags, width, precision and length and parsing the output gives it back exactly when its sign is not behind padding zeros |
| `Report.FirstDelimiter` | lib/report.c:63-75 | the delimiter that ends a prefix is the first one, also for prefixes that are empty, end in a colon or start with a space |
| `Report.FlatUnique` | lib/report.c:29-75 | the flat text determines the stack |
| `Report.RecordedExactly` | lib/report.c:29-56 | a push shows as one more prefix exactly when no `%c` of its format takes a zero |
| `Report.NulPrefix` | lib/report.c:41-52 | `%c` with a zero is such a format |
| `Report.PushedText` | lib/report.c:58-61 | `report_prefix_push` pushes its argument unchanged and it is always recorded |
| `Report.Prefixes.Push` | lib/report.c:29-56 | the asserts pass exactly when text and delimiter fit and the text holds no delimiter; then the stack grows by it |
| `Report.Prefixes.Pop` | lib/report.c:63-75 | takes off exactly the last prefix, and nothing from an empty stack |
| `Report.Prefixes.PopN` | lib/report.c:84-90 | n pops |

## Left out

- PageAlloc.MemArea.PageMemalignFresh: not for a single page, for which the order counter is decremented below zero and wraps around.
- `reserve_pages` and `unreserve_pages` (lib/alloc_page.c): a reserved page stays on its free list, so the invariant is not kept there.
- Cutting one memory range into areas at the physical boundaries, and the zeroing of pages by flags.
- PageRuns.AllocInSpec: the table of areas and the loop over it are modelled on values, not updated in place, because each area is already a class of its own.
- PageAlloc.MemArea.FreePages: addresses are frames, frame 0 standing for NULL, so the assert that a pointer is page aligned is not modelled.
- Vmalloc.Vm.VmMemalign: asks for room in the address range and a size whose rounding does not wrap, since the code checks neither; the exact conditions are `NextTopExact` and `PlanCovers`.
- Vmalloc.Vm.VmAllocOnePage: asks for room below the top; an address that is mapped to frame 0 because no physical page is left does not count as live.
- Page-table walks: `install_page` and `virt_to_pte_phys` are a map. Which free page the page allocator hands out is left open; that it writes links of free pages only is `AllocatorTouchesLinksOnly`.
- OnCpusProof.StepKeeps: steps are sequentially consistent, setting a waiter bit and its deadlock check is one step, a CPU enters the idle loop at most once, and `on_cpu` is the call for the mask of one CPU; barriers, WFE/SEV, booting of secondaries, spinlock internals and the `cpu0_calls_idle` assert are not part of the model.
- Cpumask.Combine: the CPU count does not fill the last word exactly, because the code then indexes one word past it.
- Virtio.Virtqueue.Get: the entry it reads names a descriptor whose chain ends inside the ring, which an entry never written by the device need not do; the code does not look at the used index.
- Notification, feature negotiation and queue discovery of virtio devices.
- Division.DivMod: operands other than INT64_MIN, whose negation overflows.
- Printf.Stream.PrintInt: not the most negative number, whose negation overflows, and a precision that fits the local buffer; Printf.Stream.PrintUnsigned likewise for its buffer. `Format.Vsnprintf` is stated for formats in which this holds, the arguments match, and no number overflows.
- Format.Vsnprintf: the count of characters is unbounded, not an int.
- `%ls` and wide strings, and 32-bit builds of the digit buffers.
- Report.Prefixes.PopN: a negative count is not modelled, because counting it down overflows an int, which C leaves undefined.
- Result counting and summary lines of lib/report.c, and the lock around them.
- lib/alloc_phys.c, lib/memregions.c, lib/argv.c, lib/rand.c and common/sieve.c.
- Architecture test programs, EFI, ACPI, device tree, PCI, migration and console code.
