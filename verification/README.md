# OpenASD, verified

A Dafny 4.11 model of the stateful core of OpenASD, a freestanding x86-64 kernel, with proofs of what
that core is relied on for. `dafny verify dfyconfig.toml` checks everything.

The model follows the kernel's layers. Code that changes state step by step is a class or a method
with loops and `modifies` clauses; beside it stands a value-level account of the same operation, and
the theorems are about that account over every input, every run or every reachable state.

* **Physical memory** (`Bits`, `BuddyBlocks`, `BuddySpec`, `BuddyProofs`, `BuddyRuns`, `BuddyInit`,
  `BuddyBoot`, `PhysAllocator`). A buddy allocator whose per-page metadata goes stale on purpose. Free
  and held blocks tile the managed frames in every reachable state, the metadata test for a free buddy
  is exact in spite of the stale entries, pages are conserved, and the free routine does what the
  design document asks, which tests list membership instead of metadata.
* **Address spaces** (`PhysMemory`, `PageTables`, `AddressSpaces`, `Regions`, `UserView`,
  `UserMemory`). Four-level page tables are bytes in frames taken from that allocator. An ownership
  invariant says which table or page each frame serves. Mapping a page changes one translation in one
  address space; demand paging changes no user byte anywhere; the user copy loops move exactly the
  bytes asked for, across page boundaries; the sorted region list is an in-place doubly linked list.
* **Kernel heap** (`SlabSpec`, `SlabHeap`, `KernelMemory`). Bitmap slabs and whole blocks on top of the
  allocator, and heap and address spaces side by side on one allocator.
* **Run queues** (`RedBlack`, `RbLinks`, `RbTree`, `RunQueueSpec`, `RunQueueRuns`, `RunQueue`).
  Red-black trees as parent-linked nodes rewired in place, proved against tree values; three classes
  per CPU; work stealing.
* **SPSC ring** (`RingProtocol`, `RingBuffer`, `RingMemory`, `RingSolo`). Every interleaving of one producer and
  one consumer, with stale index reads, byte-wise copies and 64-bit wrap-around; and the sequential
  operations on the flat data region, which are runs of that protocol.
* **Initial user stack** (`StackLayout`, `UserStack`), the layout of section 3.4.1 of the System V
  AMD64 psABI up to the auxiliary vector, built through the page tables above.
* **Passwd text** (`PasswdText`, `PasswdSpec`, `PasswdLaws`, `PasswdBuffer`, `PasswdDb`), **service waves**
  (`Finite`, `ServiceGraph`, `ServiceWaves`), **FAT32 reading** (`Fat32Spec`, `Fat32File`) and **path
  canonicalisation** (`PathSpec`, `PathCanon`).

Where the code differs from what one would expect, the model keeps the code and says exactly when the
expectation holds: `BuddyInit.InitCoalescedIffNoStraddle` (boot leaves no mergeable pair if and only if
no buddy pair straddles two memory ranges; `BuddyInit.MeetingEntriesStayApart` is a map where one
does), `BuddyInit.UsableExactly` (the bootstrap pool is kept back unless it starts at frame 0),
`SlabSpec.NewHeaderCounted`, `SlabSpec.FullSlabClaimsRoom` and `SlabHeap.Heap.Kmalloc` (a new slab counts
its slots correctly in every class but the 8-byte one, where a slab without room hands out slot 0
again), `SlabHeap.HeaderFoundIff` (kfree finds the header of every slot's slab except from the third
slot of the 2048-byte class; `SlabHeap.DecidedFor` says what it does there), `PathSpec.CanonIdempotent` (canonicalising twice equals once unless the
path has 255 characters, all of them needed), `PathSpec.OverrunIff` (the terminator stays inside the
output buffer unless that is one byte and the path means the root), `Fat32Spec.TablesApart` and
`Fat32Spec.WrappedTablesTouched` (clusters and tables of an accepted volume are apart unless the end of the
tables wraps around 32 bits), `PasswdBuffer.InsideIff` (the text of
the user table stays inside its buffer if and only if it is at most 32 characters too long),
`UserStack.AuxNullIff` and `UserStack.AuxOnFreshStack` (no auxiliary vector is pushed; when the word in
its place is null all the same).

Several predicates state a costly fact behind a trigger predicate that is always true (`Open`,
`Entered`, `Shown`, `Look`, `Asked`, `Spelled`, `Checked`). They mean the fact itself; the trigger only keeps it out of proofs that
merely pass it on.

## Model

| member | source | states |
|---|---|---|
| `BuddyProofs.BuddyTestIsExact` | kernel/mm/mm.c:245-248 | When a block is freed, the metadata of its buddy says "free with this order" if and only if the buddy is on that order's list, although absorbed halves keep stale metadata. |
| `BuddyProofs.FreeKeeps` | kernel/mm/mm.c:243-263 | Freeing a held block, however far it coalesces, keeps free and held blocks an exact aligned tiling of the managed frames with accurate head metadata and page count, and keeps a fully coalesced allocator fully coalesced. |
| `BuddyProofs.AllocKeeps` | kernel/mm/mm.c:214-241 | Allocation either leaves the state untouched because every list from that order up is empty (or the order is too large), or yields a block not held before and keeps the whole invariant. |
| `BuddyProofs.AllocFailsIff` | kernel/mm/mm.c:214-241 | Allocation answers 0 if and only if no free block of that order or a higher one exists. |
| `BuddyProofs.AllocTakes` | kernel/mm/mm.c:214-241 | The block handed out is cut from the first one on the list of the lowest order, from the requested one up, that has any; of each order in between exactly the upper half is left over on its list, and every other list is as it was. |
| `BuddyProofs.CutSparesOthers` | kernel/mm/mm.c:214-241 | So the block it comes from was free, no free block of a smaller sufficient order was passed over, and every other free block still is free. |
| `BuddyProofs.CoalesceStep` | kernel/mm/mm.c:245-259 | Merging with a free buddy turns a state that is consistent with the child block missing into one consistent with the parent missing. |
| `BuddyRuns.RunKeeps` | kernel/mm/mm.c:214-263 | Over every legal run of allocations and frees the tiling invariant holds, and full coalescing is never lost. |
| `BuddyRuns.RunConservesPages` | kernel/mm/mm.c:214-263 | Over every legal run, free pages plus pages held stay constant. |
| `BuddyRuns.FreeAddsPages` | kernel/mm/mm.c:243-263 | A free adds exactly the block's pages to the counter, whatever it merges with. |
| `BuddyRuns.RunThatFreesAllRestores` | kernel/mm/mm.c:214-263 | From a coalesced allocator with nothing held, any run that ends with nothing held ends with the same set of free blocks. |
| `BuddyRuns.FreeMeetsDesign` | doc/amm-physical.md:102-117 | The metadata-based free leaves the same lists as the designed one, which tests whether the buddy is on its list. |
| `BuddyRuns.AllocThenFreeRestores` | kernel/mm/mm.c:214-263 | In a coalesced allocator, an allocation followed by the free of its block restores every list. |
| `BuddyBoot.BootThenRun` | kernel/mm/mm.c:142-263 | From a memory map whose free entries do not overlap and a pool cut from free memory, through boot and any run: free and held blocks tile exactly the free memory outside the pool and pages are conserved; unless a buddy pair straddles two usable ranges, no two buddies are ever both free, and whenever nothing is held the free blocks are exactly those the boot code cut. |
| `BuddyInit.FirstBlockIsLargest` | kernel/mm/mm.c:142-158 | Each block cut from a range is the largest aligned block that fits at its start. |
| `BuddyInit.InitEstablishes` | kernel/mm/mm.c:160-193 | Releasing disjoint ranges establishes the invariant, and the free blocks are exactly the greedy cuts. |
| `BuddyInit.InitCoalescedIffNoStraddle` | kernel/mm/mm.c:142-193 | After boot no two buddies are both free if and only if no aligned block has its halves in two different ranges. |
| `BuddyInit.MeetingEntriesStayApart` | kernel/mm/mm.c:142-193 | On a map with 64 MiB at one mebibyte and the single pages 2 and 3 as further free entries, the pool that boot chooses is the 64 MiB, and boot leaves the buddies 2 and 3 both on the lists. |
| `BuddyInit.UsableExactly` | kernel/mm/mm.c:160-193 | The frames released at boot are exactly the whole pages of free entries that are not in the pool, where a pool starting at frame 0 does not count as one. |
| `BuddyInit.PoolAtZeroReleased` | kernel/mm/mm.c:175-192 | Where the only free entry starts at frame 0 and is too short for the first choice, boot chooses all of it as the pool and then releases all of it. |
| `BuddyInit.UsableDisjoint` | kernel/mm/mm.c:160-193 | Free entries without a page in common yield disjoint ranges. |
| `PhysAllocator.BumpInit` | kernel/mm/mm.c:88-115 | The pool is the first 64 MiB of the first free entry with that much room above one mebibyte; else the whole of the first longest free entry; else empty. |
| `BuddyInit.ChosenOnce` | kernel/mm/mm.c:88-115 | That choice is unique. |
| `BuddyInit.ChosenIsPool` | kernel/mm/mm.c:88-115 | It always lies in free memory. |
| `PhysAllocator.PhysState.FreeBlock` | kernel/mm/mm.c:132-140 | Pushes a block on its list, marks its head and raises the page count, and nothing else. |
| `PhysAllocator.PhysState.FreeRange` | kernel/mm/mm.c:142-158 | The cutting loop releases a range as the value-level greedy cut does. |
| `PhysAllocator.PhysState.Init` | kernel/mm/mm.c:160-193 | Boot releases exactly the usable ranges of the memory map, which `BuddyInit.UsableExactly` describes; the total and the free count are their pages. |
| `PhysAllocator.PhysState.Alloc` | kernel/mm/mm.c:214-241 | The search and split loops compute the value-level allocation, which `BuddyProofs.AllocTakes` says takes the smallest block that will do. |
| `PhysAllocator.PhysState.Free` | kernel/mm/mm.c:243-263 | The coalescing loop with its list search computes the value-level free. |
| `PhysAllocator.PhysState.Boot` | kernel/mm/mm.c:88-212 | On any map with disjoint free entries, none of them with frame 0, boot ends with nothing held and the free blocks tiling exactly the free memory outside the pool that bump_init chooses. |
| `PhysAllocator.PhysState.Take` | kernel/mm/mm.c:214-241 | With the blocks that clients hold on record: 0 if and only if no block is large enough, else a block of managed memory that starts where no held block starts, now held, cut from the smallest free block that will do and the one freed last among those. |
| `PhysAllocator.PhysState.Give` | kernel/mm/mm.c:243-263 | Freeing a held block with the order recorded for its first page releases exactly that block and keeps the tiling. |
| `BuddyProofs.OddFrameIsSingle` | kernel/mm/mm.c:132-140 | In a state whose recorded orders are all aligned, as every operation keeps them, an odd frame has order 0 recorded. |
| `BuddyProofs.FreeMeta` | kernel/mm/mm.c:243-263 | Freeing keeps every recorded order, stale ones included, aligned with its frame. |
| `BuddyProofs.AllocMeta` | kernel/mm/mm.c:214-241 | So does allocating. |
| `PageTables.TranslationsAreInjective` | kernel/mm/mm.c:731-748 | Two user pages, in the same or different address spaces, never translate to one frame. |
| `PageTables.LeafBelongs` | kernel/mm/mm.c:731-748 | A walk for a page ends in a frame that the ownership map assigns to exactly that page of that address space. |
| `PageTables.LinkTableTranslates` | kernel/mm/mm.c:282-309 | Linking a cleared table into an empty slot changes no translation of any address space. |
| `PageTables.MapLeafTranslates` | kernel/mm/mm.c:314-322 | Writing a leaf entry changes the entry of that one page of that one address space. |
| `PageTables.PageEntryDecodes` | kernel/mm/mm.c:317-320 | The composed entry is present, names its frame, is open to user mode, and is writable or non-executable as the protection says. |
| `PageTables.TableEntryDecodes` | kernel/mm/mm.c:287-307 | The entry for a table is present, names its frame, and takes no right away: open to user mode, writable, not non-executable. |
| `PageTables.LeafDecides` | kernel/mm/mm.c:276-322 | A user access to a page, which the processor lets through only if every entry on the walk allows it, is let through if and only if the leaf entry alone allows it. |
| `PageTables.LeafProtects` | kernel/mm/mm.c:314-322 | So a page mapped with some protection is readable from user mode, and writable and executable just as that protection says. |
| `AddressSpaces.Amm.WalkAlloc` | kernel/mm/mm.c:276-312 | Returns the page's leaf table, building missing tables, every entry of which is open to user mode and writable (part of the invariant `PageTables.Wired`); existing translations, data and frames held by others are untouched; every frame taken serves as a table; 0 only when no frame is left. |
| `AddressSpaces.Amm.MapPage` | kernel/mm/mm.c:314-322 | On success exactly one page of one address space changes, to the given frame and protection; it fails only when no frame is left for a table, and then no translation changes; every frame taken serves as a table; frames in blocks that others hold are neither taken nor written. |
| `AddressSpaces.Amm.VmapCreate` | kernel/mm/mm.c:441-461 | A new address space maps no user page, shares the kernel half, and leaves all others, the kernel's root and frames that others hold as they were; 0 if and only if the pool is full or no frame is left; the one frame taken is its root, and an entry of the pool is used up even without one. |
| `Regions.VMap.Overlaps` | kernel/mm/mm.c:492-504 | The early-exit scan finds an overlap exactly when one exists, or when the interval wraps. |
| `Regions.VMap.Find` | kernel/mm/mm.c:547-555 | Returns a region holding the address, and null only if none does. |
| `Regions.VMap.Add` | kernel/mm/mm.c:506-534 | Succeeds exactly for a non-empty, non-wrapping, non-overlapping interval with pool space; inserts at the sorted place; links, count and disjointness stay in order. |
| `Regions.VMap.Remove` | kernel/mm/mm.c:536-545 | Unlinks exactly the region with that base, if there is one. |
| `UserMemory.MappingZeros` | kernel/mm/mm.c:685-699 | Mapping a cleared frame changes no user byte where the page had no frame, and otherwise clears that page at most. |
| `UserMemory.PageFault` | kernel/mm/mm.c:685-699 | Succeeds if and only if a region holding the address allows the access and a frame is left; then, unless frames ran out for a table, user mode may read the page, and write and execute it exactly as the region that holds the address says; on a page without a frame no user byte of any address space changes; never more than the faulting page is cleared or remapped. |
| `UserMemory.Populate` | kernel/mm/mm.c:707-724 | Eager population changes no user byte; a range that is empty or wraps around yields nothing; otherwise, unless frames ran out, every page of the range is mapped and the pointer returned is the frame and offset that the base address translates to. Pages that get a frame carry the protection asked for; pages that had one, and all others, keep their entries. |
| `UserMemory.AccessPage` | kernel/arch/syscall.c:134-141 | Making a page accessible changes no user byte and no other page's entry; it works on a mapped page or where a region allows the access, and fails only for want of permission or of frames; a page mapped for it gets the rights of its region. |
| `UserMemory.CopyToUser` | kernel/arch/syscall.c:176-207 | Stores exactly the first bytes of the source at the destination, all of them on success, and changes no other byte of any address space; success means every page was mapped or writable by its region, failure that one was not or that frames ran out; null arguments and length 0 copy nothing. |
| `UserMemory.CopyFromUser` | kernel/arch/syscall.c:143-174 | On success the buffer holds the user's bytes and every page was mapped or in a region; failure means one was neither or frames ran out; on any outcome no user byte changes. |
| `UserView.StoredIsReadBack` | kernel/arch/syscall.c:143-207 | What was stored is read back, across page boundaries and after any demand paging in between. |
| `UserView.SliceElsewhere` | kernel/arch/syscall.c:176-207 | Bytes outside a stored range read as before. |
| `SlabSpec.NewHeaderCounted` | kernel/mm/mm.c:775-788 | A new slab's free count equals its clear bits if and only if its class is not the 8-byte one. |
| `SlabSpec.FullSlabClaimsRoom` | kernel/mm/mm.c:783-820 | A full slab still claims free slots exactly in the 8-byte class, and the next scan then yields slot 0, which is in use. |
| `SlabSpec.TakeCounted` | kernel/mm/mm.c:812-819 | While a bit is clear the scan finds a clear slot, and a correct count stays correct. |
| `SlabSpec.TakeWorn` | kernel/mm/mm.c:812-819 | With no bit clear the scan yields slot 0, which is in use, and only the count changes. |
| `SlabSpec.SlotOffset` | kernel/mm/mm.c:752-756 | Slots lie inside their block, never on a page boundary, and start in the first page except the third slot of the 2048-byte class. |
| `SlabHeap.LiveApart` | kernel/mm/mm.c:790-880 | Any two live objects, slots or whole blocks, occupy disjoint bytes. |
| `SlabHeap.Heap.ObjectsApart` | kernel/mm/mm.c:790-880 | In every valid heap the live objects are pairwise disjoint. |
| `SlabHeap.HeadersApart` | kernel/mm/mm.c:752-823 | No live object, slot or whole block, reaches into the header of any slab. |
| `SlabHeap.Heap.SlabNew` | kernel/mm/mm.c:775-810 | 0 if and only if no block is left for a slab; else a new slab, with room, in front of its list, so that every slab is on the list of its class; no object changes. |
| `SlabHeap.NeverStepsBack` | kernel/mm/mm.c:851-854 | No pointer whatever makes kfree step back to the previous page: the order of a pair is recorded only for even frames. |
| `SlabHeap.HeaderFoundIff` | kernel/mm/mm.c:847-862 | kfree looks for the header of a slot in the right page if and only if the slot is not the third of the 2048-byte class. |
| `SlabHeap.DecidedFor` | kernel/mm/mm.c:825-862 | For every object, kfree decides to clear its bit or to free its block, but for the third slot of the 2048-byte class: there it clears a bit among the bytes of an object if the second page of the slab holds what passes for a size, and otherwise frees that page alone, a block that nobody holds. |
| `SlabHeap.Heap.SlabClass` | kernel/mm/mm.c:769-773 | The smallest class that holds the size, or none above 4096. |
| `SlabHeap.Heap.Kmalloc` | kernel/mm/mm.c:790-823 | For every size: one new object, a slot of the smallest class or else the smallest block that holds the size, not live before, or nothing at all changes, and then the slabs of the class are full and no block large enough is free; except that a request of up to 8 bytes yields an object in use exactly when the first slab of its class that claims room has none. Blocks that others hold stay theirs. |
| `SlabHeap.Heap.Kfree` | kernel/mm/mm.c:825-880 | Exactly its argument stops being live, whatever data a large object holds where a header would be; a slot that is already free changes nothing at all; neither does the third slot of the 2048-byte class, which stays taken, if the page behind holds what passes for a size. Blocks that others hold stay theirs. |
| `KernelMemory.Kernel.ObjectOffFrames` | kernel/mm/mm.c:214-880 | With the heap and the address spaces on one allocator, no live heap object shares a byte with a page table or a user page. |
| `KernelMemory.Kernel.Kmalloc` | kernel/mm/mm.c:790-823 | Does what the heap does, and keeps heap and address spaces in order and apart. |
| `KernelMemory.Kernel.Kfree` | kernel/mm/mm.c:825-880 | Does what the heap does, and keeps both in order and apart. |
| `KernelMemory.Kernel.VmapCreate` | kernel/mm/mm.c:441-461 | Keeps both in order and apart, and writes no frame of the heap. |
| `KernelMemory.Kernel.PageFault` | kernel/mm/mm.c:685-699 | Keeps both in order and apart, and writes no frame of the heap. |
| `KernelMemory.Kernel.CopyToUser` | kernel/arch/syscall.c:176-207 | Stores the bytes as above, keeps both in order and apart, and writes no frame of the heap. |
| `KernelMemory.Kernel.CopyFromUser` | kernel/arch/syscall.c:143-174 | Changes no user byte, keeps both in order and apart, and writes no frame of the heap. |
| `RedBlack.InsertOrder` | kernel/sched/sched.c:92-111 | Insertion puts the node behind all keys not above its own and moves nothing else in the order. |
| `RedBlack.FixUpOrder` | kernel/sched/sched.c:67-90 | Recolouring and rotating leave the in-order sequence alone. |
| `RedBlack.InsertBalanced` | kernel/sched/sched.c:67-111 | Insertion turns a red-black tree into a red-black tree. |
| `RedBlack.InsertOnlyHeight` | kernel/sched/sched.c:92-111 | A tree built by n insertions has height h with 2^h at most (n+1)^2, that is at most 2 log2(n+1). |
| `RedBlack.RemovedOrder` | kernel/sched/sched.c:120-165 | Removal deletes exactly the given node from the order. |
| `RedBlack.RemovedSorted` | kernel/sched/sched.c:120-165 | A sorted tree stays sorted when any of its nodes is removed. |
| `RbTree.NodePool.RotateLeft` | kernel/sched/sched.c:43-53 | The link writes turn the represented tree into its left rotation and touch only the nodes involved. |
| `RbTree.NodePool.RotateRight` | kernel/sched/sched.c:55-65 | The mirror image. |
| `RbTree.NodePool.InsertFixup` | kernel/sched/sched.c:67-90 | The loop terminates with the nodes linked as the value-level fixup, root black. |
| `RbTree.NodePool.Insert` | kernel/sched/sched.c:92-111 | The linked nodes represent the value-level insertion; nodes outside the tree are untouched. |
| `RbTree.NodePool.Leftmost` | kernel/sched/sched.c:113-118 | The first node in order, or null for an empty tree. |
| `RbTree.NodePool.RemoveNode` | kernel/sched/sched.c:120-165 | The linked nodes represent the tree without the node, wherever it stood; its links are cleared; other nodes are untouched. |
| `RunQueueSpec.InsertIsPlace` | kernel/sched/sched.c:92-111 | In a sorted tree, rb_insert is insertion into the waiting line in front of the first larger key. |
| `RunQueueSpec.DequeuePicksFirst` | kernel/sched/sched.c:399-416 | The process taken comes before every other waiting on the CPU by class, then key, then arrival; idle exactly when none waits; only it leaves. |
| `RunQueueSpec.LeastLoadedIsLeast` | kernel/sched/sched.c:339-349 | The CPU chosen for a process without one has the smallest load, the first such. |
| `RunQueueSpec.EnqueueGoesHome` | kernel/sched/sched.c:336-370 | A process made ready goes to the CPU it names if there is one of that number, otherwise to the first CPU that no other undercuts in load; there it joins the line of its class in front of the first larger key, and nothing else about any process or line changes. |
| `RunQueueSpec.BusiestIsBusiest` | kernel/sched/sched.c:723-730 | The victim has the largest stealable load among the other CPUs, the first such. |
| `RunQueueRuns.StealMovesHalf` | kernel/sched/sched.c:722-775 | If another CPU has more stealable processes than this one by more than the threshold, exactly half of those of a busiest CPU move, batch line first, to this CPU; otherwise nothing moves. Real-time lines never change. |
| `RunQueueRuns.RunAccounts` | kernel/sched/sched.c:336-416 | Over every run of enqueue, dequeue and steal, each readying of a process is matched by one pick, except while it still waits. |
| `RunQueueRuns.NoOvertaking` | kernel/sched/sched.c:399-416 | Over every run, while a process stays in its line so does everyone behind it: nobody behind is picked or stolen first. |
| `RunQueue.Scheduler.Enqueue` | kernel/sched/sched.c:336-370 | Trees, counts and CPU fields change as the waiting lines do, on the CPU the process names, or if there is none of that number on the first one of least load. |
| `RunQueue.Scheduler.Dequeue` | kernel/sched/sched.c:399-416 | Takes the head of the first non-empty class; trees and counts stay in step. |
| `RunQueue.Scheduler.Steal` | kernel/sched/sched.c:722-775 | Trees, counts and CPU fields change as stealing on waiting lines does. |
| `RingProtocol.SlotIndexIsHome` | kernel/ipc/ringbuf.h:94-95 | The masked, wrapped 64-bit index is the true position modulo the number of slots. |
| `RingProtocol.AdmittedFits` | kernel/ipc/ringbuf.h:88-113 | The full test on wrapped indices is exact for the observed occupancy, and no more is admitted than it leaves room for. |
| `RingProtocol.StepKeeps` | kernel/ipc/ringbuf.h:85-163 | Every step of either side keeps the protocol invariant. |
| `RingProtocol.EveryInterleaving` | kernel/ipc/ringbuf.h:85-163 | In every interleaving the wrapped occupancy is the true one and at most slot_count, each popped item carries the bytes of the item pushed at its position, and the two sides never copy in the same slot at once. |
| `RingProtocol.PoppedIsPrefix` | kernel/ipc/ringbuf.h:85-163 | In every interleaving, what was popped is a prefix of what was pushed if and only if every pop asked for the size of the item at its turn. |
| `RingBuffer.IsPow2Sound` | kernel/ipc/ringbuf.h:34-36 | A number that passes the bit test is a power of two. |
| `RingBuffer.IsPow2Complete` | kernel/ipc/ringbuf.h:34-36 | Every power of two passes it. |
| `RingBuffer.PushAppends` | kernel/ipc/ringbuf.h:85-100 | A push fails exactly when the queue is full or the item too large; otherwise it appends a slot that starts with the item. |
| `RingBuffer.PopTakes` | kernel/ipc/ringbuf.h:126-141 | A pop fails exactly when the queue is empty or the size too large; otherwise it yields the front and leaves the rest. |
| `RingMemory.RingMemory.Init` | kernel/ipc/ringbuf.h:52-71 | Accepts exactly power-of-two sizes of at least 8 and counts of at least 2, and leaves an empty queue. |
| `RingMemory.RingMemory.Push` | kernel/ipc/ringbuf.h:85-100 | The byte copy and index store are the value-level push. |
| `RingMemory.RingMemory.Pop` | kernel/ipc/ringbuf.h:126-141 | The byte copy and index store are the value-level pop. |
| `RingMemory.RingMemory.PushBatch` | kernel/ipc/ringbuf.h:104-122 | Leaves exactly the state, and returns the count, of pushing one by one until refused. |
| `RingMemory.RingMemory.PopBatch` | kernel/ipc/ringbuf.h:145-163 | Leaves the state and yields the items of popping one by one. |
| `RingSolo.PushIsRun` | kernel/ipc/ringbuf.h:85-100 | From every protocol state with an idle producer, whatever the consumer is doing, the steps of the producer alone lead to the ring that the sequential push computes, with the item sent if and only if the push succeeds. |
| `RingSolo.PopIsRun` | kernel/ipc/ringbuf.h:126-141 | The same for the consumer and the sequential pop. |
| `StackLayout.LayoutIsEntryStack` | kernel/arch/elf.c:116-143 | Words argc, pointers, NULL, pointers, NULL above an aligned sp, with strings where the pointers lead, are the entry stack of the ABI up to the auxiliary vector. |
| `UserStack.VmCopyToUser` | kernel/arch/elf.c:146-158 | Succeeds exactly when every page is present, and then stores all bytes; moves no page; writes nowhere else. |
| `UserStack.PushBytes` | kernel/arch/elf.c:75-78 | Lowers sp by the length and stores the bytes there. |
| `UserStack.PushWord` | kernel/arch/elf.c:80-83 | Lowers sp by 8 and stores the word there. |
| `UserStack.PushStrings` | kernel/arch/elf.c:99-114 | Every string stands intact and NUL-terminated at its pointer, below the old sp. |
| `UserStack.BuildUserStack` | kernel/arch/elf.c:85-144 | Zero only if a page of the stack is missing; otherwise an aligned sp with argc, argument pointers, NULL, environment pointers, NULL, every string intact, both lists cut to 63, and nothing outside the stack changed. The word where an auxiliary vector would begin is null if the lists have an even number of members together; if odd, it is the eight bytes from the 16-byte boundary below the strings on, as they were before the call up to the strings and their text from there. |
| `UserStack.AuxNullIff` | kernel/arch/elf.c:116-143 | With an odd number of members that word is null if and only if those eight bytes are. |
| `UserStack.AuxOnFreshStack` | kernel/arch/elf.c:85-144 | On a stack that was all zero: if and only if the number is even, or the strings begin in the upper half of their 16 bytes, or as many strings as there are bytes up to the middle are empty. |
| `PasswdText.LineRead` | kernel/usr/usr.c:303-315 | Reading a line of space-separated words gives the words back and stops at its end. |
| `PasswdText.AtouDec` | kernel/usr/usr.c:53-58 | Reading a printed decimal number gives the number back. |
| `PasswdText.Hex64Read` | kernel/usr/usr.c:323-346 | Sixteen printed hex digits are recognised and parse back to the number. |
| `PasswdSpec.LineParsed` | kernel/usr/usr.c:354-378 | The parser reads a printed user line as its eight fields and continues behind it. |
| `PasswdSpec.LineDescribes` | kernel/usr/usr.c:380-386 | Those fields describe the user they were printed from. |
| `PasswdSpec.RoundTrip` | kernel/usr/usr.c:348-485 | Printing a database and loading the text into a fresh one restores every user but root exactly, and root's salt and hash, and counts every line. |
| `PasswdLaws.TokIsPrefix` | kernel/usr/usr.c:308-315 | A token is the text up to the first space character, or as much of it as the buffer holds. |
| `PasswdLaws.BlanksSkipped` | kernel/usr/usr.c:303-306 | Spaces, tabs and carriage returns in front of a token do not matter; line ends do. |
| `PasswdLaws.LoadLineGood` | kernel/usr/usr.c:380-402 | Whatever a line says, it adds at most one user, one that could have been printed, with a new name and uid, and keeps all others but for salts and hashes. |
| `PasswdLaws.LoadLineElsewhere` | kernel/usr/usr.c:380-402 | A line changes no user of another uid. |
| `PasswdLaws.LoadGood` | kernel/usr/usr.c:348-407 | Loading any text whatever keeps a database in order: uids and names distinct, fields printable, at most 64 users, and every user it had still in place. |
| `PasswdLaws.LoadedIsStable` | kernel/usr/usr.c:348-485 | Whatever text was loaded at boot, writing the database and loading that gives exactly the same users. |
| `PasswdDb.UserDb.WritePasswd` | kernel/usr/usr.c:418-485 | For every size from 8 on, writes exactly the text that `PasswdBuffer.Written` describes and its terminator, nothing behind it, and returns its length; where the text fits it is the whole text. |
| `PasswdBuffer.InsideIff` | kernel/usr/usr.c:418-485 | Text and terminator stay inside the buffer if and only if the full text is at most 32 characters longer than the buffer, since cut fields are still followed by their spaces. |
| `PasswdBuffer.EightIsTooSmall` | kernel/usr/usr.c:418-485 | The smallest buffer that is accepted does not hold the line of any user. |
| `PasswdBuffer.WrittenWhole` | kernel/usr/usr.c:418-485 | Where text and terminator fit, the text is written whole. |
| `PasswdDb.UserDb.LoadPasswd` | kernel/usr/usr.c:348-407 | The pointer-moving parser changes the table as the value-level load does, and returns how many lines described a user, up to 64. |
| `PasswdDb.UserDb.AddUser` | kernel/usr/usr.c:162-200 | Adds a user, with name, home and shell cut to their records, and returns 0; or changes nothing and returns -1 if the table is full, the uid or name is taken, or the name is empty. |
| `PasswdDb.Reload` | kernel/usr/usr.c:348-534 | Saving and loading into a database fresh from usr_init, end to end, with as many lines loaded as users saved. |
| `ServiceGraph.Find` | init/svcmgr.c:20-25 | The first service of that name, or none. |
| `ServiceGraph.Known` | init/svcmgr.c:257-262 | A dependency names the first service of its name, unless that name is "kernel" or no service has it. |
| `ServiceGraph.LongChainCycles` | init/svcmgr.c:246-281 | A dependency chain longer than the table closes a cycle. |
| `ServiceWaves.LeftoverIffCyclic` | init/svcmgr.c:246-281 | When no sweep helps any more, a service is left without a wave if and only if there is a cycle. |
| `ServiceWaves.SettledIsDepth` | init/svcmgr.c:253-271 | A wave number assigned is the length of the longest dependency chain below the service, and less than the number of services. |
| `ServiceWaves.ServiceManager.ComputeWaves` | init/svcmgr.c:246-281 | Terminates; -1 if and only if the known dependencies are cyclic; otherwise each service has its longest-chain depth, and no wave below the count is empty. |
| `ServiceWaves.ServiceManager.LaunchWave` | init/svcmgr.c:283-288 | Attempts exactly the services of the wave that are still new, in table order, and they are new no longer. |
| `ServiceWaves.ServiceManager.Boot` | init/asdinit.c:215-223 | Over new services: if dependencies are cyclic nothing is attempted; otherwise every service is attempted exactly once, after everything it depends on. |
| `ServiceWaves.DependenciesFirst` | init/asdinit.c:222-223 | Launching wave by wave attempts every service after all of its known dependencies. |
| `ServiceWaves.OrderIrrelevant` | init/svcmgr.c:246-281 | With distinct names, a service's depth does not depend on its place in the table. |
| `Fat32Spec.ParsedIsMounted` | kernel/vfs/fat32.c:510-564 | On an accepted header the fields are those of the image, none of them zero; the data area starts behind the reserved sectors and all copies of the table, in 32-bit arithmetic; sectors are bounded by volume and image, and clusters are what fits behind. |
| `Fat32Spec.MeasureAccepts` | kernel/vfs/fat32.c:525-543 | Where no sum wraps, the arithmetic accepts a header if and only if reserved sectors, all tables and two clusters fit into the volume and into the image. |
| `Fat32Spec.TablesApart` | kernel/vfs/fat32.c:94-103 | No valid cluster shares a byte with any copy of the table, unless the end of the tables wraps around 32 bits and the clusters reach beyond the reserved sectors. |
| `Fat32Spec.WrappedTablesTouched` | kernel/vfs/fat32.c:525-543 | In that case the last cluster overlaps the tables. |
| `Fat32Spec.ClusterInside` | kernel/vfs/fat32.c:94-103 | Every cluster that passes the validity check lies wholly inside the image. |
| `Fat32Spec.ClustersApart` | kernel/vfs/fat32.c:98-103 | Different clusters do not overlap. |
| `Fat32Spec.NextReads` | kernel/vfs/fat32.c:105-118 | The next cluster is the low 28 bits of the four bytes at the entry of the first table, little end first, or the end mark where those lie outside the image. |
| `Fat32File.OpenFile.Read` | kernel/vfs/fat32.c:355-400 | Serves the bytes along the chain from the offset on, as many as asked for or up to where the chain or the file ends; an error exactly when the chain does not reach the offset. |
| `Fat32File.OpenFile.Seek` | kernel/vfs/fat32.c:407-422 | Moves to any position from the start to the end of the file and refuses all others. |
| `Fat32File.Session` | kernel/vfs/fat32.c:355-422 | Any sequence of reads and seeks on a file whose chain covers its size behaves as on one byte sequence, the clusters along the chain cut to size. |
| `PathSpec.CanonIsFold` | kernel/vfs/vfs.c:109-156 | A success is the rendered fold of the components over a stack: absolute, with no empty, "." or ".." component. |
| `PathSpec.MeaningSteps` | kernel/vfs/vfs.c:126-142 | One more component: an empty one or "." changes nothing, ".." drops the last name if there is one, any other is appended. |
| `PathSpec.MeaningCancels` | kernel/vfs/vfs.c:109-156 | A name followed by ".." is as if neither were there, and a path without a leading slash means what it does from the root. |
| `PathSpec.CanonAccepts` | kernel/vfs/vfs.c:109-156 | Succeeds if and only if the buffer is not empty, the path has fewer than 256 characters, no prefix of its components leaves more than 127 names, and the result fits; the root needs no room. |
| `PathSpec.CanonIdempotent` | kernel/vfs/vfs.c:109-156 | Canonicalising again yields the same path if and only if the path is not one of the greatest length, without a leading slash, none of whose components can be dropped. |
| `PathSpec.IdempotenceFails` | kernel/vfs/vfs.c:109-156 | A name of 255 letters is accepted into 258 bytes, and its canonical form is not. |
| `PathSpec.CanonIdempotentWithin` | kernel/vfs/vfs.c:479-525 | With a buffer of at most 256 bytes, as every caller passes, canonicalising again always yields the same path. |
| `PathSpec.FitsIff` | kernel/vfs/vfs.c:143-153 | The check while rebuilding, in closed form: room for the path and its terminator, and one byte more for a single component. |
| `PathSpec.OverrunIff` | kernel/vfs/vfs.c:109-156 | A success needs more bytes than the size passed if and only if the size is 1 and the components of the path cancel out. |
| `PathSpec.RootOverrunsOneByte` | kernel/vfs/vfs.c:143-155 | The path "/" with size 1 is such a case. |
| `PathSpec.CanonOfPrefix` | kernel/vfs/vfs.c:109-156 | Canonicalising a prefix first changes nothing, when both fit. |
| `PathCanon.Canonicalize` | kernel/vfs/vfs.c:109-156 | The in-place cutting, the offset stack and the rebuild compute exactly the value-level canonical path, fail exactly when it does, and write nothing behind the size passed, but for one terminator in the case of `PathSpec.OverrunIff`. |

## Left out

Assumptions of the model:

- Frame 0 is not managed by the physical allocator, because 0 stands for "out of memory".
- Page metadata is a total map that reads as zero where never written; lists of free blocks are sequences, not links stored in the free frames themselves.
- Blocks are freed with the order they were allocated with; memory-map arithmetic does not exceed 64 bits.
- User copies, page faults and mappings are for user-half addresses, and user addresses plus lengths stay below the top of the user half. Callers check the whole range before they copy, except copy_user_cstr and validate_user_str, which check the first byte of a string and copy on from there; a string that reaches the top of the user half without a terminator is outside the model.
- TLB invalidation, spin locks and memory ordering are not modelled; the ring's acquire and release pairs appear as possibly stale but never decreasing index reads, and slot bytes as one shared memory, which the absence of simultaneous access justifies.
- A physical address and the kernel pointer to it are the same number in `SlabHeap`.
- There is at least one CPU, and a process's class and key change only while it waits nowhere.
- The strings of a program's arguments and environment fit below the stack top.
- A user database has root first, as usr_init makes it, distinct uids and names, at most one flag per user, and non-empty fields without white space that fit their parser buffers.

Members that say less than the code does:

- RingMemory.RingMemory.PushBatch: items are given as a sequence of equal-sized items, not as one flat source buffer.
- SlabHeap.Heap.Kfree: pointers that no allocation returned are excluded, and the third slot of the 2048-byte class where kfree frees half of its slab, which `SlabHeap.DecidedFor` shows and no invariant survives; the bytes of objects, and so a bit cleared among them, are not modelled; one bitmap bit is one boolean, not a bit of a byte.
- AddressSpaces.Amm.WalkAlloc: for pages of the user half only; the kernel half is shared between address spaces and has no owner in the model.
- AddressSpaces.Amm.MapPage: for pages of the user half and frames not mapped elsewhere; shared memory maps one frame twice.
- UserMemory.PageFault: above the user half only for addresses that no region allows, which it refuses.
- UserMemory.AccessPage: above the user half only for addresses that no region allows.
- UserMemory.CopyFromUser: for ranges of the user half, as above.
- RingSolo.PushIsRun: single items; the batch operations are tied to repeated single ones by `RingMemory.RingMemory.PushBatch` and `RingMemory.RingMemory.PopBatch`.
- UserMemory.CopyToUser: permission is looked up once per page, at the first address copied there, as the code does; the rest of a page that a region covers in part is not checked.
- PasswdDb.UserDb.AddUser: group membership masks and the group table are not modelled; the salt and hash of a new user are parameters.
- Fat32File.OpenFile.Read: the run-time check that a cluster lies inside the image is omitted, because `Fat32Spec.ClusterInside` shows that it never fails on an accepted header.
- UserMemory.Populate: for ranges that lie in the user half or wrap around to their start or below; success promises that every page is mapped only while frames are left, since a failed table allocation goes unreported.
- UserStack.BuildUserStack: addresses and sizes are natural numbers; a total string length near 2^47 is excluded.
- RunQueue.Scheduler.Dequeue: the idle process is a value of its own, not a process record.

Parts of the repository that are not part of this model:

- Red-black balance after removals: the delete fixup is not there, so only order is claimed.
- Taking a queued process off its queue while its class or key changes (sched_reap, sched_set), context switching, timers and lock progress.
- Tearing down address spaces, shared memory, kernel-half mappings and allocation from the bootstrap pool.
- FAT12 and FAT16 volumes, directories and all writing; GPT and virtio.
- Loading ELF segments; message ports; device drivers; the boot loader, installer, consoles and shells.
- Password hashing, entropy, rate limits and permission bits, which would only add easy members.
- Service file parsing, restarts and the outcome of launching a service.
