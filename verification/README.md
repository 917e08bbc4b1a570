# Verified models of a small i386 kernel

This project models the algorithmic cores of a hobby kernel for i386 in Dafny and proves
what each of them is for. `dafny verify dfyconfig.toml` checks all of it.

| file | models |
|---|---|
| `RbShape.dfy`, `RbTree.dfy` | the intrusive red-black tree: first as trees with a hole, then the pointer code, node by node |
| `VirtRegion.dfy` | the map of virtual regions over that tree |
| `FlatHashMap.dfy` | the open-addressing hash map with tombstones and rehashing |
| `VfsPath.dfy` | the dentry cache over the hash map, and the path walk |
| `Bits.dfy`, `AlignUp.dfy`, `Defs.dfy` | bit operations, powers of two, shared definitions |
| `BuddyBlocks.dfy`, `BuddyHeap.dfy` | the buddy heap: blocks and free lists as values, then the code on page descriptors |
| `SlabBlocks.dfy`, `SlabLinks.dfy`, `SlabHeap.dfy` | slabs, the live allocations, the lists of slabs, and kmalloc, kfree and krealloc |
| `FrameAlloc.dfy`, `Bitmap.dfy` | the frame allocator and the early bitmap allocator |
| `Paging.dfy`, `EarlyMap.dfy` | two-level page tables reached through the recursive slot, and early mapping |
| `Prd.dfy` | the descriptor table of the bus-master IDE driver |
| `Ext2.dfy` | reading bytes through partition and disk, and the block-pointer tree of a file |
| `Pit.dfy` | fixed-point time of the interval timer |

## How the code is modelled

Code that updates structures in place is a class with the fields of the source, and each
method is proved against a function or predicate on values, about which the lemmas speak.

* **Red-black tree.** A tree is split at a node into a context and a subtree, so each step of
  the pointer code is a small change at the hole. Parent link and colour, packed into one word
  in the source, are two fields. The flag `inherit` is false for rb_tree.c line 417 as written;
  true hands the old colour of the parent to the sibling. Every removal theorem covers both.
  As written, a removal keeps black heights equal if and only if it does not end with a rotation
  under a red parent. Trees of unequal black heights are covered too: `Safe` says that every
  sibling the fixup looks at exists, which is exactly when the code dereferences no null pointer,
  and the crashing run is six insertions and five removals long.
* **Virtual regions.** `useLast` is false for virt_region.c line 111 as written, which measures the
  trailing gap from the second-to-last region. As written, the search is right if and only if
  that line is not reached with at least two regions, the last one ending above the second-to-last
  one, and room after the latter; the wrong answer always overlaps the last region. NULL is 0. A
  region that would end at 2^32 gets the end 0 in 32-bit arithmetic: it is recorded and never
  found again. Sizes are taken modulo 2^32 as the code computes them.
* **Hash map.** The hash is an arbitrary function of the key. Insertion looks for a duplicate only
  up to the first slot that is not used; `Hidden` is the exact condition under which it
  misses one, and `HiddenRun` is a run that reaches it. Callers that look a key up first never meet it,
  which `Run` proves for whole runs.
* **Paths.** The filesystem is an arbitrary deterministic lookup, and no mounts are registered. A
  component of exactly 256 bytes passes the first length check, overruns its buffer by the final zero and
  then fails the assertion of the cache (`Halted`); longer ones give the error for long names. A null path pointer is the empty path.
* **Heap.** Block addresses are page numbers in the buddy layer and bytes above it. `allFlags` is false
  for heap.c line 147 as written, which gives the blocks that enter the heap HEAD alone; the set `raw`
  holds those heads. A block keeps such a head while it is split from above or handed out, and loses it
  when it has been a slab, so blocks made by line 309 merge among themselves while those of line 147
  never merge and are sent to `free_slab` when they are freed. `initPrev` is false for line 464 as written, which leaves
  the link to the slab before with the order of the buddy block (`Wild`) unless that is 0. A step of a run
  that fails an assertion, reads a block as a slab or follows a wild link stops it. Pages outside the
  heap never look like free buddies. Failed assertions of `alloc_buddy`, `free_buddy` and `kmalloc` are
  preconditions. The object lists of slabs are sequences, and the links of later slab pages to their
  head are a map, whose keys are the pages with the BUDDY flag cleared. The bytes that free lists
  occupy inside free objects are not part of `mem`.
* **Frames.** The free list is a sequence of heads. Allocation types one page too many as
  used; that page is never unused because runs are maximal, and lies behind the descriptors
  (`past`) when the chosen run ends at the last page of memory. Freeing re-inserts a run that it extends backwards without
  unlinking it.
* **Paging.** Every access to a table goes through the translation that the tables define. Page
  tables come from the bitmap (the ALLOC_BITMAP mode). A frame at address 0 reads as a
  failure. `EarlyAllocAndMap` ignores the answer of the mapper as the source does; `complete`
  says whether a call failed.
* **Ext2.** The read loop subtracts the whole length after its first turn, so only the first block is
  copied; `ReadExact` says exactly when that is enough. Null indirect pointers are followed to block 0.
* **Integers.** 32-bit wrap-around is written out where addresses or counters can reach it. The 64-bit
  counters of the hash map and the 64-bit byte offsets of the file system are unbounded.

## Model

| member | source | states |
|---|---|---|
| `RbShape.InsertFixInOrder` | kernel/utils/data_structs/rb_tree.c:161-240 | insertion fixup, from any node upwards and with every rotation case, leaves the in-order sequence as it was |
| `RbShape.InsertFixColours` | kernel/utils/data_structs/rb_tree.c:161-240 | started at a red node, fixup ends with a black root and no red node under a red one, whatever the black heights |
| `RbShape.InsertFixBalanced` | kernel/utils/data_structs/rb_tree.c:161-240 | equal black heights stay equal through the whole fixup |
| `RbShape.InsertCorrect` | kernel/utils/data_structs/rb_tree.c:562-588 | hanging a new node at a free link and fixing up gives the old sequence with that node at that place, and a valid red-black tree if the old one was valid |
| `RbShape.DeleteFixInOrder` | kernel/utils/data_structs/rb_tree.c:334-511 | deletion fixup never changes the in-order sequence, on any tree; where a sibling is missing, which the code dereferences, it is taken as black |
| `RbShape.DeleteFixValid` | kernel/utils/data_structs/rb_tree.c:365-511 | with one black node missing below a context of otherwise equal black heights, fixup ends with black root and no red-red edge, also when both nephews are red; black heights are equal again if and only if the colour of the parent is inherited or the last rotation was not under a red parent |
| `RbShape.DeleteFixColours` | kernel/utils/data_structs/rb_tree.c:468-511 | whatever the black heights, fixup ends with black root and no red-red edge whenever every sibling it looks at exists |
| `RbShape.PendingSafe` | kernel/utils/data_structs/rb_tree.c:474-488 | with exactly one black node missing every sibling that fixup looks at exists |
| `RbShape.TakeOutInOrder` | kernel/utils/data_structs/rb_tree.c:257-332 | unhooking a node, directly or through its successor, removes exactly it from the sequence |
| `RbShape.TakeOutColours` | kernel/utils/data_structs/rb_tree.c:280-332 | unhooking from any tree that keeps the colour rules keeps them, up to the place handed to fixup |
| `RbShape.TakeOutValid` | kernel/utils/data_structs/rb_tree.c:280-332 | after unhooking, either the tree is valid or exactly one black node is missing at the place handed to fixup |
| `RbShape.RemoveCorrect` | kernel/utils/data_structs/rb_tree.c:629-659 | from every tree that keeps the colour rules, removal gives the sequence without that node, and the colour rules again unless a sibling is missing; from equal black heights no sibling is missing, and they stay equal exactly when line 417 is repaired or the removal does not end under a red parent |
| `RbShape.RemovalUnbalancesExample` | kernel/utils/data_structs/rb_tree.c:410-420 | the tree of six insertions has unequal black heights after one removal as the code is written |
| `RbShape.InsertedTree` | kernel/utils/data_structs/rb_tree.c:562-588 | inserting 8, 4, 9, 2, 6, 7 gives the tree of the two examples, step by step |
| `RbShape.RemovalCrashesExample` | kernel/utils/data_structs/rb_tree.c:484-488 | removing 2, 9, 4, 7 from that tree with line 417 as written leaves a tree from which removing 6 dereferences a missing sibling |
| `RbTree.RbTree.Rotate` | kernel/utils/data_structs/rb_tree.c:66-129 | the pointer writes of either rotation realise the rotation of the shape, parent links and root included, and nothing outside the tree changes |
| `RbTree.RbTree.FindLink` | kernel/utils/data_structs/rb_tree.c:131-159 | the search path ends at a matching node or at the free link where the key belongs; keys before it compare below and keys after it above |
| `RbTree.RbTree.InsertRotation` | kernel/utils/data_structs/rb_tree.c:161-192 | the pointers follow the one or two rotations of the insertion case with a black uncle |
| `RbTree.RbTree.InsertFixup` | kernel/utils/data_structs/rb_tree.c:194-240 | the pointer structure ends in the shape that the insertion fixup function gives |
| `RbTree.RbTree.Search` | kernel/utils/data_structs/rb_tree.c:661-668 | the node at which the descent by the comparator ends, which compares equal; null means that no stored node does, for every probe under which the stored order is monotone |
| `RbTree.RbTree.Insert` | kernel/utils/data_structs/rb_tree.c:562-588 | null and an unchanged tree when an equal node is met; otherwise the node is spliced into the sequence between the smaller and the larger ones, with parent links mirroring child links and red-black validity kept |
| `RbTree.RbTree.Transplant` | kernel/utils/data_structs/rb_tree.c:257-278 | one subtree replaces another under the same parent, or at the root |
| `RbTree.RbTree.FindSuccessor` | kernel/utils/data_structs/rb_tree.c:242-255 | the leftmost node of the right subtree, null when there is none |
| `RbTree.RbTree.Detach` | kernel/utils/data_structs/rb_tree.c:303-316 | the successor leaves its own place and takes over the right subtree of the node that goes away, in the order of writes of the code |
| `RbTree.RbTree.TakeOutNode` | kernel/utils/data_structs/rb_tree.c:280-332 | pointers after unhooking hold the shape the take-out function gives, with the node and parent to be fixed |
| `RbTree.RbTree.FixRedSibling` | kernel/utils/data_structs/rb_tree.c:334-363 | the red sibling is rotated above the parent and colours are exchanged |
| `RbTree.RbTree.FixRedNephew` | kernel/utils/data_structs/rb_tree.c:365-466 | the pointers follow the line or triangle case, with line 417 as written or repaired |
| `RbTree.RbTree.FixStep` | kernel/utils/data_structs/rb_tree.c:468-511 | in every context that keeps the colour rules one iteration ends in the fixed shape, moves the same problem strictly upwards, or meets a missing sibling, and then the fixup is not safe |
| `RbTree.RbTree.DeleteFixup` | kernel/utils/data_structs/rb_tree.c:468-511 | the loop dereferences no missing sibling if and only if the fixup is safe, and then terminates with the pointers holding the fixed shape |
| `RbTree.RbTree.RemoveNode` | kernel/utils/data_structs/rb_tree.c:629-659 | on every red-black coloured tree: no null dereference if and only if every sibling visited exists, and then the node leaves the set and the sequence and parent links, black root and colour rule hold; from equal black heights that is always so, and they stay equal if and only if the stated condition holds; null changes nothing |
| `RbTree.RbTree.Min` | kernel/utils/data_structs/rb_tree.c:670-701 | the first node of the sequence, null for the empty tree |
| `RbTree.RbTree.Next` | kernel/utils/data_structs/rb_tree.c:735-758 | the following node of the sequence, null after the last |
| `VirtRegion.CmpIsOverlap` | kernel/memory/virt/virt_region.c:214-226 | the comparator answers equal exactly for overlapping intervals and is antisymmetric on non-empty ones |
| `VirtRegion.CmpNotTransitive` | kernel/memory/virt/virt_region.c:214-226 | its equality is not transitive |
| `VirtRegion.FoundIffWellFormed` | kernel/memory/virt/virt_region.c:214-226 | a recorded region compares equal to every probe that meets the memory from its start to its end, counted modulo 2^32, if and only if the computed 32-bit end is not below the start |
| `VirtRegion.SortedMonotone` | kernel/memory/virt/virt_region.c:119-134 | over pairwise disjoint regions the comparator is monotone for every probe, so tree search is right although its equality is no equivalence |
| `VirtRegion.InsertSorted` | kernel/memory/virt/virt_region.c:136-147 | a free region put between those below and above it keeps all regions disjoint and ascending |
| `VirtRegion.FirstGapIsLowest` | kernel/memory/virt/virt_region.c:60-117 | the first gap that is big enough starts at the lowest address that fits |
| `VirtRegion.NoGapNothingFits` | kernel/memory/virt/virt_region.c:60-117 | when no gap is big enough, no address fits at all |
| `VirtRegion.StaleAnswer` | kernel/memory/virt/virt_region.c:102-117 | with two or more regions and no inner gap, the stale answer overlaps the last region; in every other case the answer of line 111 is the lowest fitting address, or NULL and nothing fits |
| `VirtRegion.StaleExample` | kernel/memory/virt/virt_region.c:102-117 | two regions that touch at the start of the range are in the stale case |
| `VirtRegion.VirtRegions.Mark` | kernel/memory/virt/virt_region.c:136-147 | a free region is recorded in order and one that meets a recorded region changes nothing; the map stays disjoint and ascending if and only if the computed 32-bit end of the new region is not below its start |
| `VirtRegion.VirtRegions.SearchPage` | kernel/memory/virt/virt_region.c:119-134 | finds the region at which the descent by the comparator ends, and it meets the probe, on every map; on a map whose regions end at or above their start it finds nothing exactly when the probe is free |
| `VirtRegion.VirtRegions.IsFree` | kernel/memory/virt/virt_region.c:181-198 | true whenever no region meets the page, and on maps whose regions end at or above their start only then; false for page 0 and always true for the topmost page, whose computed end is 0 |
| `VirtRegion.VirtRegions.Release` | kernel/memory/virt/virt_region.c:149-161 | removes exactly one region, one that meets the page, if and only if the removal from the tree dereferences no missing sibling, which from equal black heights is always so |
| `VirtRegion.VirtRegions.FindGap` | kernel/memory/virt/virt_region.c:60-117 | as written, the answer is the lowest fitting address or NULL if and only if the stale case does not apply, and then it is the end of the second-to-last region; with the last region used instead it is always right |
| `VirtRegion.VirtRegions.ScanGaps` | kernel/memory/virt/virt_region.c:76-110 | the walk over neighbouring regions stops at the first inner gap, which is the lowest |
| `VirtRegion.VirtRegions.Reserve` | kernel/memory/virt/virt_region.c:163-179 | for every count, its byte size taken modulo 2^32: a right answer is recorded and disjoint from all regions; the stale answer meets the last region and records nothing; the map stays disjoint and ascending if and only if answer and size add up to less than 2^32 |
| `VirtRegion.VirtRegions.Replay` | kernel/memory/virt/virt_region.c:136-198 | over every run of marks, reservations and releases, with lines 111 and 417 as written or repaired, the recorded regions are pairwise disjoint and the tree red-black coloured after each step, each step changes them as that operation should (nothing being recorded for a stale answer), and a run ends early if and only if a step asserts, records an end below its start, or removes a region it found from a tree in which a visited sibling is missing |
| `VirtRegion.VirtRegions.TopRegionLost` | kernel/memory/virt/virt_region.c:136-198 | reserving all of an empty map leaves its first page reported free, and marking that page records a region inside the reserved one |
| `FlatHashMap.FindFreeSlot` | kernel/utils/data_structs/flat_hashmap.c:26-37 | terminates at the first slot of the cyclic path that is not used |
| `FlatHashMap.LoadFactor` | kernel/utils/data_structs/flat_hashmap.c:87-92 | the integer test at 75 percent leaves at least one slot free |
| `FlatHashMap.FlatHashMap.FindExact` | kernel/utils/data_structs/flat_hashmap.c:128-155 | finds the slot of a stored key and None exactly for absent keys, passing tombstones and wrapping around |
| `FlatHashMap.FlatHashMap.Get` | kernel/utils/data_structs/flat_hashmap.c:347-367 | answers what the finite map holds |
| `FlatHashMap.FlatHashMap.Rehash` | kernel/utils/data_structs/flat_hashmap.c:39-84 | moves exactly the stored entries into a table without tombstones, each reachable from its home slot |
| `FlatHashMap.FlatHashMap.HandleRehash` | kernel/utils/data_structs/flat_hashmap.c:177-197 | keeps the stored entries, leaves an empty slot and at most 25 percent of tombstones; the capacity doubles exactly above a load of 75 percent, tombstones are dropped then or above 25 percent, and a table within both limits stays as it is |
| `FlatHashMap.FlatHashMap.Insert` | kernel/utils/data_structs/flat_hashmap.c:264-327 | as the finite map does, with the duplicate answer, if and only if the key is not hidden behind a slot that is not used; a hidden key is stored a second time; a new entry goes into the first slot of its path that is not used |
| `FlatHashMap.FlatHashMap.Delete` | kernel/utils/data_structs/flat_hashmap.c:369-404 | answers and forgets the value of the key, as the finite map does |
| `FlatHashMap.FlatHashMap.constructor` | kernel/utils/data_structs/flat_hashmap.c:200-225 | a new table denotes the empty map and is as large as the rounding of the wanted capacity to a power of two says, but at least 4 |
| `FlatHashMap.HiddenIff` | kernel/utils/data_structs/flat_hashmap.c:264-283 | the duplicate search misses a stored key exactly when it lies beyond the first slot of its path that is not used |
| `FlatHashMap.HiddenInsertDenotesNothing` | kernel/utils/data_structs/flat_hashmap.c:264-327 | the table after inserting over a hidden key denotes no finite map at all |
| `FlatHashMap.HiddenRun` | kernel/utils/data_structs/flat_hashmap.c:264-327 | four insertions with one hash, a deletion that leaves its tombstone, and an insertion of a stored key that answers 0 and stores it twice |
| `FlatHashMap.HidingTable` | kernel/utils/data_structs/flat_hashmap.c:264-283 | in the table of that run every key behind the tombstone is hidden |
| `FlatHashMap.FlatHashMap.Run` | kernel/utils/data_structs/flat_hashmap.c:264-404 | over every sequence of get, delete and insert-after-a-failed-get, table and answers equal those of the finite map |
| `VfsPath.SectionsRejoin` | kernel/vfs/core/path.c:13-37 | the components computed from a path hold no slash and rejoin to the path |
| `VfsPath.ComponentsUnique` | kernel/vfs/core/path.c:13-37 | every path has at most one split into components without slashes that rejoin to it, the root path alone having none |
| `VfsPath.FoldWalks` | kernel/vfs/core/path.c:39-85 | folding the lookup over components visits one inode after the other, each the answer of the filesystem for the component before it, and ends at the last one or at the first long name or failed lookup with its error |
| `VfsPath.Vfs.FetchSection` | kernel/vfs/core/path.c:13-37 | the component after the slash, or failure when it is too long for the buffer |
| `VfsPath.Vfs.LookupStep` | kernel/vfs/core/path.c:39-86 | one component resolves as the filesystem answers, whatever the cache holds; the cache grows coherently |
| `VfsPath.Vfs.LookupPath` | kernel/vfs/core/path.c:88-130 | for every coherent cache: the invalid-argument error exactly for paths without a leading slash; otherwise the answer follows the one sequence of slash-free components that rejoin to the path through the filesystem, errors included, so only the root path is answered without a lookup, and the cache only grows |
| `VfsPath.Vfs.LookupTwice` | kernel/vfs/core/path.c:88-130 | a second lookup of the same path returns the same dentry or error |
| `VfsPath.CacheWalkGrows` | kernel/vfs/core/dir_entry_cache.c:48-105 | what the cache already leads to stays the same when entries are added |
| `VfsPath.InsertCoherent` | kernel/vfs/core/dir_entry_cache.c:12-105 | adding the dentry of an answer keeps the cache coherent with the filesystem |
| `BuddyHeap.BuddyHeap.constructor` | kernel/memory/heap/heap.c:121-172 | greedy tiling covers the heap with naturally aligned free blocks, none of which could be larger, listed by order, without free buddies of equal order; their heads carry HEAD alone as line 147 is written, all flags when repaired |
| `BuddyHeap.BuddyHeap.ChooseOrder` | kernel/memory/heap/heap.c:127-143 | the largest order that fits the remaining pages and the alignment of the address |
| `BuddyHeap.BuddyHeap.SplitFirst` | kernel/memory/heap/heap.c:284-338 | one split turns the first block of a list into two buddies on the next lower list, the upper one first and with all flags, and touches no allocation |
| `BuddyHeap.BuddyHeap.AllocBuddy` | kernel/memory/heap/heap.c:256-350 | hands out one new naturally aligned block of exactly the wanted order, the top of the first free block of the smallest order that suffices, other allocations unchanged; None exactly when every free block is smaller |
| `BuddyHeap.BuddyHeap.ResolveMerge` | kernel/memory/heap/heap.c:47-110 | merges with the buddy if and only if it is a free head of the same order that carries all flags, and keeps the partition and the lists |
| `BuddyHeap.BuddyHeap.MergeUpwards` | kernel/memory/heap/heap.c:112-119 | merging stops with no two free buddies of equal order anywhere that both carry all flags |
| `BuddyHeap.BuddyHeap.FreeBuddy` | kernel/memory/heap/heap.c:352-384 | the allocation disappears, and partition, lists and absence of free buddies that could merge hold again; the freed block stays as it is if and only if its buddy is not free, has another order, or line 147 made the head of one of the two |
| `BuddyHeap.UnmergedRun` | kernel/memory/heap/heap.c:145-150 | in a heap of two pages, after one page is taken and given back, a request for both is refused as line 147 is written and met when it is repaired |
| `BuddyBlocks.RawUnsplit` | kernel/memory/heap/heap.c:284-350 | a block whose head line 147 made is handed out with such a head only unsplit |
| `BuddyBlocks.SplitTiled` | kernel/memory/heap/heap.c:284-338 | splitting keeps the aligned partition, the upper half being the XOR buddy of the lower |
| `BuddyBlocks.MergeTiled` | kernel/memory/heap/heap.c:66-107 | merging keeps the aligned partition |
| `BuddyBlocks.MergeTest` | kernel/memory/heap/heap.c:47-64 | the flag and order test on the descriptor at the XOR address is true exactly for a free buddy of the same order whose head carries all flags |
| `BuddyBlocks.MaximalNoPairs` | kernel/memory/heap/heap.c:121-172 | in a greedy tiling no two free buddies of equal order exist |
| `BuddyBlocks.PushLists` | kernel/memory/heap/heap.c:152-159 | pushing a descriptor keeps every free list a well-formed doubly linked list |
| `BuddyBlocks.UnlinkLists` | kernel/memory/heap/heap.c:75-92 | unlinking from any position keeps every free list well formed |
| `Bits.XorBuddy` | kernel/memory/heap/heap.c:51-55 | flipping the order bit of an aligned number gives the other half of its enclosing block, and flipping it again gives it back |
| `AlignUp.AlignUpLeast` | kernel/include/core/defs.h:81-98 | for every 32-bit value the smearing code gives the least power of two not below it, and 0 above 2 GiB |
| `AlignUp.SmearStep` | kernel/include/core/defs.h:85-90 | one or-and-shift step doubles the number of ones at the top |
| `SlabBlocks.LiveDisjoint` | kernel/memory/heap/heap.c:386-563 | any two live allocations, slab objects or whole blocks, are disjoint |
| `SlabBlocks.PopObject` | kernel/memory/heap/heap.c:410-431 | the object taken from a slab was not live, and it alone becomes live |
| `SlabBlocks.NewSlab` | kernel/memory/heap/heap.c:433-478 | carving a fresh block makes its first object live and nothing else; the list links are stated by SlabLinks |
| `SlabBlocks.PushObject` | kernel/memory/heap/heap.c:500-528 | returning an object ends exactly that allocation; used count plus free list stays the object count, free objects stay distinct |
| `SlabBlocks.LastObject` | kernel/memory/heap/heap.c:523-530 | with one object in use every other object of the slab is on its free list |
| `SlabBlocks.DropSlab` | kernel/memory/heap/heap.c:523-562 | giving back the block of a slab ends only the allocation of its last object |
| `SlabBlocks.MaskedBase` | kernel/memory/heap/heap.c:531-535 | masking any address of an aligned block gives its base |
| `SlabBlocks.LiveAligned` | kernel/memory/heap/heap.c:566-598 | every allocation whose size is a power of two is aligned to it |
| `SlabLinks.PopListed` | kernel/memory/heap/heap.c:421-428 | a slab that becomes full leaves the front of its list, and every list stays well linked and holds exactly the slabs that are not full |
| `SlabLinks.PushListed` | kernel/memory/heap/heap.c:510-521 | a full slab that loses an object goes to the front of its list, and every list stays well linked |
| `SlabLinks.DropListed` | kernel/memory/heap/heap.c:554-560 | unlinking a slab from any position keeps every list well linked |
| `SlabLinks.DropWild` | kernel/memory/heap/heap.c:554-560 | releasing a slab whose link before is sound leaves the links of the others sound; none becomes wild |
| `SlabHeap.SlabHeap.Carve` | kernel/memory/heap/heap.c:386-406 | the free list of a new slab holds its objects in order of address, object size apart, as many as fit |
| `SlabHeap.SlabHeap.AllocSlab` | kernel/memory/heap/heap.c:408-479 | a new object of the cache, apart from every live allocation; slabs stay on the list of their cache exactly while not full; None if and only if the list is empty and no block is large enough |
| `SlabHeap.SlabHeap.FreeSlab` | kernel/memory/heap/heap.c:481-562 | as line 464 is written, a bad link is followed if and only if the last object of a slab of more than one page is freed that was never full and never had a slab put in front of it; otherwise the allocation ends, others stay, full slabs return to their list and an empty slab is released |
| `SlabHeap.SlabHeap.ReleaseSlab` | kernel/memory/heap/heap.c:530-562 | the masked address is the base of the block, the slab leaves list and page links, and the whole block goes back to the buddy layer, if and only if its link before is sound |
| `SlabHeap.OrderUsable` | kernel/memory/heap/heap.c:216-227 | a cache has at least two objects per slab if and only if its objects have at most 128 KiB |
| `SlabHeap.SlabHeap.constructor` | kernel/memory/heap/heap.c:698-713 | nothing is live, and every custom cache has objects of the size given, rounded up to the next multiple of 4 |
| `SlabHeap.CachesMade` | kernel/memory/heap/heap.c:698-713 | the thirteen standard caches come first, and each custom cache has the smallest multiple of 4 that holds its object and a slab with room for two or more |
| `SlabHeap.SlabPages` | kernel/memory/heap/heap.c:216-227 | a slab has the fewest pages, a power of two of at most 64, that hold 32 objects, or 64 pages |
| `SlabHeap.AsManyAsFit` | kernel/memory/heap/heap.c:439-447 | a slab is cut into as many objects as fit into it |
| `SlabHeap.OnePage` | kernel/memory/heap/heap.c:216-227 | a slab has one page if and only if its objects have at most 128 bytes |
| `SlabHeap.SlabHeap.Kmalloc` | kernel/memory/heap/heap.c:566-591 | a region of at least n bytes, apart from every live allocation, aligned to its power-of-two size; None if and only if cache and blocks are exhausted |
| `SlabHeap.KmallocLeast` | kernel/memory/heap/heap.c:566-591 | the size handed out is the least power of two of at least 16 that holds n bytes |
| `SlabHeap.SlabHeap.KmallocAligned` | kernel/memory/heap/heap.c:593-598 | the address is a multiple of any power-of-two alignment asked for |
| `SlabHeap.SlabHeap.Kfree` | kernel/memory/heap/heap.c:688-696 | exactly that allocation ends, unless it is a block whose head line 147 made, which is sent to free_slab, or its slab is released through a bad link; these are the only failures and none happens with both lines repaired |
| `SlabHeap.SlabHeap.MallocFree` | kernel/memory/heap/heap.c:454-478 | from any state in which the cache has no free object, kmalloc of n bytes and kfree of the answer succeed if and only if n is at most 128 or line 464 is repaired |
| `SlabHeap.LoneObject` | kernel/memory/heap/heap.c:454-478 | the same on a new heap of 64 pages, so with 256 bytes the first kfree follows a bad link |
| `SlabHeap.WholeBlock` | kernel/memory/heap/heap.c:688-696 | kmalloc of a whole heap of 32 pages and its kfree fail if and only if line 147 is as written |
| `SlabHeap.SlabHeap.Run` | kernel/memory/heap/heap.c:566-720 | over every run of kmalloc, kfree, krealloc and custom caches, with lines 147 and 464 as written or repaired, the live allocations are exactly those the answers account for, each new region misses all of them, is aligned and at least as large as the size asked for or the size its cache was created with, NULL is answered exactly where nothing is free, two free buddies of equal order stand side by side only where line 147 made a head of theirs, and the run ends early exactly at a step that stops; with both lines repaired only sizes above 2 GiB stop it |
| `SlabHeap.SlabHeap.SizeOf` | kernel/memory/heap/heap.c:600-618 | the size the descriptor gives is the size of the live allocation, unless a block whose head line 147 made is read as a slab |
| `SlabHeap.SlabHeap.Krealloc` | kernel/memory/heap/heap.c:620-686 | for every 32-bit size: the same address when the object is large enough; otherwise NULL exactly where nothing is free or the cache is custom, and nothing changes, or a new allocation that holds the old bytes, the old one ended, the bytes of every other live allocation unchanged; it stops exactly for blocks that line 147 made, sizes above 2 GiB and releases through a bad link |
| `FrameAlloc.FrameAllocator.BuildFreeList` | kernel/memory/phys_alloc/frame_alloc.c:194-246 | the list holds the heads of exactly the maximal runs of unused pages, the highest first, heads and feet carry their lengths, other unused pages keep their counts and pages in use have 0, and the result is the number of unused pages |
| `FrameAlloc.FrameAllocator.Alloc` | kernel/memory/phys_alloc/frame_alloc.c:26-97 | the last n pages of the first run on the list that is long enough become used, with the page after them, which was not unused; the list again holds exactly the maximal runs; None if and only if no run fits, and then no n unused pages are contiguous; a descriptor behind the last one is written if and only if the chosen run ends at the last; the feet stay right if and only if the page before already held the new count or is the head of its run, since line 89 writes one page too high |
| `FrameAlloc.FrameAllocator.AllocAll` | kernel/memory/phys_alloc/frame_alloc.c:26-97 | over every run of allocations the ranges are disjoint, were unused at the start, and the unused total falls by their sum; a descriptor behind the last one is written exactly when a range ends at the last |
| `FrameAlloc.FrameAllocator.FreePages` | kernel/memory/phys_alloc/frame_alloc.c:99-177 | the pages are unused and counted again, and the list holds exactly the maximal runs if and only if the page before the range is not unused, whatever foot it carries; otherwise a head is listed twice, a page that is no head is listed, or the count leads before the first descriptor; every other count and the rest of the list stay |
| `FrameAlloc.RelistedRun` | kernel/memory/phys_alloc/frame_alloc.c:133-176 | two unused pages, one taken and freed again: the run is listed twice |
| `FrameAlloc.FootRun` | kernel/memory/phys_alloc/frame_alloc.c:83-90 | three unused pages, one taken: the last page of the run that is left does not carry its length |
| `FrameAlloc.StaleFootRun` | kernel/memory/phys_alloc/frame_alloc.c:133-140 | three allocations and three frees of eleven pages after which the count of a foot leads before the first descriptor |
| `FrameAlloc.PastRun` | kernel/memory/phys_alloc/frame_alloc.c:55-59 | taking the only page of memory writes the type of a descriptor that does not exist |
| `FrameAlloc.TakeTail` | kernel/memory/phys_alloc/frame_alloc.c:38-92 | shortening one run at its end changes no other run |
| `FrameAlloc.RangeInRun` | kernel/memory/phys_alloc/frame_alloc.c:194-246 | contiguous unused pages lie in one maximal run |
| `Bitmap.PageBitmap.AllocPageAt` | kernel/memory/phys_alloc/bitmap_alloc.c:24-33 | clears the bit of that page and of no other |
| `Bitmap.FreeMeans` | kernel/memory/phys_alloc/bitmap_alloc.c:24-33 | a page is free exactly when bit i mod 8 of byte i div 8 is set |
| `Bitmap.PageBitmap.FreePage` | kernel/memory/phys_alloc/bitmap_alloc.c:163-169 | sets the bit of that page and of no other, and moves the hint there |
| `Bitmap.PageBitmap.FindRun` | kernel/memory/phys_alloc/bitmap_alloc.c:98-144 | the first free page from the hint on and the pages after it, short only when the next page is taken or the bitmap ends |
| `Bitmap.PageBitmap.AllocPages` | kernel/memory/phys_alloc/bitmap_alloc.c:89-161 | exactly the bits of that run change and the free pages fall by their number; an empty answer means no free page from the hint on |
| `Bitmap.PageBitmap.AllocPage` | kernel/memory/phys_alloc/bitmap_alloc.c:82-87 | one page fewer, or the null address, exactly when none is left from the hint on or the page is page 0 |
| `Paging.RecursiveWindow` | kernel/arch/i386/memory/paging_utils.c:99-109 | the window of a slot translates to the table of that slot, and the last one to the directory |
| `Paging.SetPage` | kernel/arch/i386/memory/paging_utils.c:75-97 | writing one entry of one table changes the mapping of one page only |
| `Paging.InstallTable` | kernel/arch/i386/memory/paging_utils.c:57-73 | installing a zeroed table changes no mapping outside the recursive slot |
| `Paging.AddressSpace.TableEntry` | kernel/arch/i386/memory/paging_utils.c:244-254 | reads the directory entry of the address through the recursive slot |
| `Paging.AddressSpace.VirtToPhys` | kernel/arch/i386/memory/paging_utils.c:120-145 | agrees with the hardware walk on every 32-bit address; the null answer means unmapped or physical address 0 |
| `Paging.AddressSpace.MapPageEntry` | kernel/arch/i386/memory/paging_utils.c:75-97 | writes the entry when the table is present, else nothing |
| `Paging.AddressSpace.MapTableEntry` | kernel/arch/i386/memory/paging_utils.c:57-73 | installs and clears a table in an absent slot, else nothing |
| `Paging.AddressSpace.EnsurePageTable` | kernel/arch/i386/memory/paging.c:10-29 | afterwards the table is present, in a frame that was free and under an entry that is present and writable and nothing else if it was absent, or no frame was available; no mapping changes and no frame in use becomes a table |
| `Paging.AddressSpace.MapPhysRange` | kernel/arch/i386/memory/paging.c:31-59 | maps a prefix of the range to consecutive frames with the given flags, all of it if and only if the frames available cover the missing tables |
| `Paging.AddressSpace.MapPages` | kernel/arch/i386/memory/paging.c:61-74 | succeeds if and only if the frames available cover the missing tables, and then every byte va + k translates to pa + k, every other address below the recursive slot as before, and each entry is present, has its write, user, accessed and dirty bit as the flags ask and every other flag 0 |
| `Paging.AddressSpace.CanMapPages` | kernel/arch/i386/memory/paging_utils.c:20-55 | true exactly when no page of the range is mapped, although absent tables are skipped whole |
| `Paging.MissingJoin` | kernel/arch/i386/memory/paging.c:31-59 | the tables missing for two ranges in a row are those missing for the first and those still missing for the second |
| `Paging.EntryFlags` | kernel/arch/i386/memory/paging_utils.c:222-242 | an entry made from kernel flags holds the frame, is present, carries WRITE in bit 1, USER in bit 2, ACCESSED in bit 5 and DIRTY in bit 6, and has every other low bit 0 |
| `EarlyMap.EarlyAllocAndMap` | kernel/memory/core/pfn_handler.c:19-49 | all pages are mapped with the flags asked for, bit by bit, to pairwise distinct frames that were free and are neither free nor page tables afterwards, if and only if the free frames from the hint on cover the pages and the missing tables; the answer alone says this only when no call failed |
| `EarlyMap.UnmappedRun` | kernel/memory/core/pfn_handler.c:19-49 | one free frame, one page wanted and an absent table: the answer is one page, and nothing is mapped |
| `EarlyMap.BackedStep` | kernel/memory/core/pfn_handler.c:27-46 | after one more run from the bitmap has been mapped, all pages so far are backed by distinct frames that were free, none of them a page table |
| `Prd.IdeDma.TakeBytes` | kernel/arch/i386/drivers/pci/ide.c:566-607 | up to the end of the page or the chunk, and if the next page lies in the same 64 KiB window one more page or the rest, as far as the distance to the window end that the code computes allows; whole sectors inside one window; the loop terminates |
| `Prd.IdeDma.FillEntry` | kernel/arch/i386/drivers/pci/ide.c:555-616 | the entry covers exactly those next bytes of the chunk, earlier entries stay, the table at most doubles |
| `Prd.IdeDma.FillPrdt` | kernel/arch/i386/drivers/pci/ide.c:619-649 | the regions of the table concatenate to exactly the bytes of the chunks, whose number is the sectors answered times 512, every entry is proper, only the last carries the end bit, and the index stays below the doubled capacity |
| `Prd.TakeFits` | kernel/arch/i386/drivers/pci/ide.c:573-589 | each turn takes at least one sector and stays in its page |
| `Ext2.PagesHoldBlocks` | kernel/filesystem/Ext2/fs_read_bytes.c:30-39 | the pages of the temporary buffer hold the blocks read into it when the block size divides the page size |
| `Ext2.SubmitDisk` | kernel/services/block/type/disk.c:30-59 | blocks of the disk arrive from the sectors that hold them |
| `Ext2.SubmitPartition` | kernel/services/block/type/partition.c:20-37 | blocks of the partition arrive from its place on the disk |
| `Ext2.FsReadBytes` | kernel/filesystem/Ext2/fs_read_bytes.c:18-56 | exactly the bytes of the partition from that offset on |
| `Ext2.LeavesAt` | kernel/filesystem/Ext2/fetch.c:47-98 | position i below an indirect block is position i mod w below pointer i div w |
| `Ext2.PointerStored` | kernel/filesystem/Ext2/fetch.c:12-26 | the pointer read is p if and only if the partition holds the four bytes of p, lowest first, at byte block * size + 4 * i |
| `Ext2.BlockIndex` | kernel/filesystem/Ext2/fetch.c:47-98 | the data block at that position of the flattened tree of direct, single, double and triple indirect pointers, each pointer being the number whose four bytes the partition holds in ascending order at the place of its slot |
| `Ext2.HoleMissed` | kernel/filesystem/Ext2/fetch.c:66-97 | the block found differs from the hole that the test for 0 expects if and only if an indirect block on the way is null and the words of block 0 lead to a block other than 0 |
| `Ext2.HoleExample` | kernel/filesystem/Ext2/fetch.c:66-97 | a disk on which a null single-indirect pointer gives a block other than 0 |
| `Ext2.ReadInode` | kernel/filesystem/Ext2/fetch.c:100-145 | an error beyond the end of the file; otherwise the bytes of the file from the offset to the end of its block are delivered, if that block is present, and the rest of the buffer stays |
| `Ext2.ReadExact` | kernel/filesystem/Ext2/fetch.c:118-142 | for every offset and length: every buffer receives the bytes of the file if and only if the read is empty or lies inside one present block, the block of a byte being the unique one whose range holds its position |
| `Pit.DivRound` | kernel/arch/i386/drivers/pic/pit.c:33-43 | the nearest integer, halves up |
| `Pit.RoundTwiceNearest` | kernel/arch/i386/drivers/pic/pit.c:88-99 | rounding twice is still within one half of the exact quotient |
| `Pit.Timer.SetVars` | kernel/arch/i386/drivers/pic/pit.c:80-111 | the reload value fits 16 bits, is not zero and is within one half of 3579545 / (3 hz); clamped values apply only where no fitting value exists |
| `Pit.Timer.Tick` | kernel/arch/i386/drivers/pic/pit.c:126-134 | the two words together advance by the time per tick modulo 2^64 |
| `Pit.Timer.Ticks` | kernel/arch/i386/drivers/pic/pit.c:126-134 | n interrupts advance clock and tick count by n modulo their widths, and from zero the clock is at most 4 n units off until it wraps |
| `Pit.AfterTicks` | kernel/arch/i386/drivers/pic/pit.c:126-134 | repeated addition modulo 2^64 is one multiplication, so the clock after n ticks is known for every n |
| `Pit.PerTickError` | kernel/arch/i386/drivers/pic/pit.c:45-57 | one tick is less than 4 units of 2^-32 ms off |
| `Pit.AccumulatedError` | kernel/arch/i386/drivers/pic/pit.c:126-134 | before wrap-around n ticks are at most 4 n units off |

## Left out

- Heap growth (heap.c 175-214): it passes a physical address where a descriptor is expected.
- BuddyHeap.BuddyHeap.AllocBuddy: answers None where the source grows the heap.
- BuddyHeap.BuddyHeap.constructor: starts from cleared descriptors, whereas the heap flags of the source overlay the links that the frame allocator leaves there (pfn_desc.h 37-50) and line 147 only adds to them; the case of `add_buddies` that merges into an existing heap belongs to growth.
- BuddyHeap.BuddyHeap.ResolveMerge: a neighbour outside the heap is refused by its index; the source reads a descriptor that is not the heap's there.
- SlabHeap.SlabHeap.AllocSlab: answers None where the source would use the failed answer of `alloc_buddy`.
- SlabHeap.SlabHeap.Kmalloc: answers None where the source grows the heap; requests above 2 GiB fail an assertion of the source and are a precondition here.
- SlabHeap.SlabHeap.KmallocAligned: answers None where the source grows the heap.
- SlabHeap.SlabHeap.FreeSlab: the object list of a slab is a sequence, and nothing is promised about the state after a bad link has been followed.
- SlabHeap.SlabHeap.Kfree: nothing is promised about the state after a block has been read as a slab.
- Creating slab caches while the heap runs: custom caches are given to the constructor, with the 8 bytes per object that the source asserts, and those of more than 128 KiB per object, whose slabs would stay listed when full, are refused.
- VirtRegion.VirtRegions.Replay: a run ends at a region that reaches 2^32, although the code goes on with a map that no longer finds it.
- `rb_augment_from`, `rb_free_tree`, `rb_prev`, `rb_max`, the bounds searches and `rb_remove_key`: no user with a real augment function, or mirror images.
- `kvregion_count` and the names of regions.
- Hash map iteration and clearing: the loop of `fhashmap_foreach` has no index bound.
- The mount table and cache purges.
- FrameAlloc.FrameAllocator.BuildFreeList: the links of the list are a sequence.
- FrameAlloc.FrameAllocator.Alloc: the links of the list are a sequence, and what lies behind the last descriptor is not part of the model.
- FrameAlloc.FrameAllocator.FreePages: an empty range, which no caller passes, and the cycle of links that listing a head twice makes.
- `mm_alloc_pagetable` in its ALLOC_FRAME mode, unmapping pages and clearing flags, and the translation lookaside buffer.
- Prd.IdeDma.FillPrdt: growth of the table always succeeds; the register writes that follow are left out.
- The request queue of the disk, its callbacks and completion: a request completes at once.
- Ext2.BlockIndex: blocks of 256 KiB and more, for which the squares exceed 32 bits, and positions beyond the triple-indirect tree.
- Nanosecond conversion and the callback of the timer interrupt.
- Ring queue, strings, printing, terminal, boot code, interrupt tables, port I/O and device discovery: they add only easy members.
