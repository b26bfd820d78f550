# The memory manager of the Cerius bootloader

This project models the bootloader's memory manager and proves what each of its layers promises the layer above.

* **Pager** (`Words`, `Pte`, `PageTree`, `PageIndex`, `Pager`, `HardwareWalk`, `TableCount`). Page tables are objects
  with the array the processor reads (`phy`) and the array of pointers the software follows (`lin`). Each carries, as a
  ghost field, the tree below it as a value (`PageTree.Table`). The methods of `Pager` change the tables in place and are
  proved to take the value from one tree to another related by `Mapped` or `Unmapped`; the lemmas of `PageTree` say what
  those relations mean for every translation. `HardwareWalk` is an independent definition of the translation of
  pages and of bytes of section 5.3 (Long-Mode Page Translation), and of the rights of section 5.6 (Page-Protection
  Checks), of the AMD64 Architecture Programmer's Manual, Volume 2.
* **Range trees** (`AvlModel`, `AvlTree`, `AslrModel`, `AslrTree`, `AslrDraws`, `Placement`). AVL entries rotate in
  place by swapping payloads, and cache heights and totals; the value model says what the keys, the balance and the
  weighted random choice become. `AslrDraws` counts the sequences of draws that lead to a place, and `Placement` turns
  that into a statement about sets of free ranges.
* **Address spaces** (`RangeSets`, `AddressSpace`, `SpaceManagers`, `MemoryState`, `MemoryManager`, `Partition`,
  `Initializer`, `Startup`). Free ranges live in two trees that mirror each other. The physical and the linear manager
  and the pager are composed into the memory manager, whose whole state is the value `MemoryState.State`.
  `Startup.Start` goes from the page tables in use to managers that own the memory the firmware's map offers.
* **Slab allocator and reserve** (`Bitmap`, `ChunkLayout`, `PrimitiveHeap`, `ReserveRuns`). Chunks with bitmaps, two
  doubly linked lists, watermarks and a lock: `PrimitiveHeap.PrimitiveHeap.Valid` says that a chunk is in the first list
  exactly when some but not all of its slots are free, in the second exactly when all are; then the accounts of the
  reserve, which is renewed by allocations that use up the reserve.
* **Heap** (`KeyedTrees`, `HeapTiling`, `HeapArrays`, `Heap`, `HeapLayers`, `HeapSteps`). The chunks the heap owns are
  tiled by free ranges and live blocks; every object goes back where it came from, found in a tree of records.
  `HeapLayers` puts the memory manager, the array space and the slabs on top of each other and shows that no two objects
  share a byte; `HeapSteps` shows that the operations of the array space and of the slab allocator are its steps.
* **Boot sector** (`DiskLoad`). The loop that loads consecutive sectors through the BIOS.

`Common` holds an option type and a fact about the sizes of sets.

Pages are counted in units of 4096 bytes, so page `q` starts at linear address `0x1000 * q`. Ghost parameters such as
`first`, `count` and `b` give addresses as page numbers. Machine words are naturals below 2^64, with wrap-around,
truncation to `int` and bitwise operators written out where the sources rely on them.

## Where the code departs from its intent

* Failed allocations leave the reserve locked
  (bootloader/memory/PhysicalSpaceManager/PhysicalSpaceManager.cpp:14-18,
  bootloader/memory/LinearSpaceManager/LinearSpaceManager.cpp:15-16). The methods are modelled as they are: `lockCnt` is
  one higher exactly when 0 is returned.
* `lintophy` shifts by -1 when a 4 KB entry has bit 7 (PAT) set. `Pager.LinToPhy` requires that bit clear on the one
  entry it ends at. `pagein` never sets it, and `Pte.SplitPat` says exactly which large pages set it when split.
* `pageout` would free the root if nothing stayed mapped. `Pager.PageOut` requires some other mapping; the memory manager
  provides one, since the code and the tables are mapped outside its ranges.
* `lintophy` returns 0 both for "not mapped" and for frame 0. The specification uses an option; the method returns 0 in
  both cases, as the source does.
* Index arithmetic is truncated to `int`. `PageIndex.TruncationExact` says of which ranges the indices are right in every
  table, and of which they are not: `first % 512 + count` must stay below 2^31. The pager's operations require that.
* `PartitionRange` lacks a return after handing on a piece, and then reads past the forbidden intervals.
  `Partition.ReadsPastEndExactly` says when it does: whenever some byte of the range is allowed. The recursions of
  `Partition` and `Initializer` have the return.
* The initializer rounds bases that are not page-aligned by adding `base - base % 4096`, which aligns none of them
  (`Initializer.RoundingAligns`); `Initializer.FreeUsable` requires aligned bases of the map's entries that offer a page,
  without which the assertions on allocation and release fail.
* The comment beside `minNumUnits` counts 8 units of the reserve for a renewal, 6 of them for page tables. The renewal
  asks for 2 MB at a multiple of 2 MB, which takes at most 3 tables (`TableCount.RenewalTables`), and a mark of 5 would do
  (`ReserveRuns.MarkExact`).
* The heap passes (start, size) where (size, start) is expected. The model passes what the source passes;
  `HeapTiling.SwappedCarve` says exactly when that is right, and `HeapTiling.SwapMatters` gives a range for which it is
  not.

## Model
| member | source | states |
|---|---|---|
| Pte.NewTableEntryMeaning | bootloader/memory/Pager/Pager.cpp:38-43 | the word stored for a new table is its address and the two lowest bits: present, and all below may be written and executed, but not by user programs; it maps no page |
| Pte.NewLeafEntryMeaning | bootloader/memory/Pager/Pager.cpp:53-56 | the word stored for a page maps exactly the given frame, with PAT clear, the preferences' attributes, the write right, and the user and execute rights as the preferences say |
| Pte.SplitTableEntryMeaning | bootloader/memory/Pager/Pager.cpp:92-98 | the word that replaces a large page names the new table and keeps every attribute but PAT, and with them the page's rights |
| Pte.SplitLeafEntryMeaning | bootloader/memory/Pager/Pager.cpp:100-111 | each word of the new table maps its 512th of the large page, with the same attributes and rights, at 1 GB and at 2 MB |
| Pte.SplitPat | bootloader/memory/Pager/Pager.cpp:106-110 | splitting a 2 MB page sets bit 7 of the 4 KB entries exactly when the page had PAT set |
| PageTree.SplitLookup | bootloader/memory/Pager/Pager.cpp:92-112 | the table that replaces a large page translates every page as the large page did |
| PageTree.SplitNeverEmptied | bootloader/memory/Pager/Pager.cpp:113 | unmapping part of a just-split page never empties its table, as the source asserts |
| PageTree.MappedLookup | bootloader/memory/Pager/Pager.cpp:14-59 | a tree related by `Mapped` translates page q of the range to its own frame and every other page as before |
| PageTree.UnmappedLookup | bootloader/memory/Pager/Pager.cpp:60-138 | a tree related by `Unmapped` translates no page of the range and every other page, attributes included, as before |
| PageTree.MappedPath | bootloader/memory/Pager/Pager.cpp:14-59 | a page in the range has what the entries on its way leave of the write right and of its preferences, without the user right if a table was missing; other mapped pages keep their rights |
| PageTree.UnmappedPath | bootloader/memory/Pager/Pager.cpp:60-138 | unmapping takes no right from any page, and pages that stay mapped keep exactly theirs, through splits of large pages too |
| PageTree.MappedTidy | bootloader/memory/Pager/Pager.cpp:29-45 | mapping leaves no table below the root without a present entry |
| PageTree.UnmappedTidy | bootloader/memory/Pager/Pager.cpp:116-137 | unmapping leaves no table below the root without a present entry |
| PageTree.BlankIffNothingMapped | bootloader/memory/Pager/Pager.cpp:122-137 | in a tree without empty tables, a table has no present entry exactly when it translates no page |
| PageTree.UnmapUndoesMap | bootloader/memory/Pager/Pager.cpp:14-138 | unmapping what was just mapped gives back the same tree, entry by entry and table by table |
| PageIndex.IndicesExact | bootloader/memory/Pager/Pager.cpp:20-28 | the wrapping, truncated and clamped indices select exactly the entries whose span meets the range |
| PageIndex.WholeEntryExact | bootloader/memory/Pager/Pager.cpp:64-86 | the remainder test passes exactly when the entry's span lies inside the range |
| PageIndex.TruncationExact | bootloader/memory/Pager/Pager.cpp:20-28 | the truncated indices are right in every table a range meets if and only if `first % 512 + count` is below 2^31 |
| Pager.LinToPhy | bootloader/memory/Pager/Pager.cpp:156-187 | the walk through `lin` returns the physical address of the very byte that the processor finds in any memory that holds the tables, with the offset into pages of each size, or 0 when it finds none |
| Pager.EnsureTable | bootloader/memory/Pager/Pager.cpp:31-47 | an absent entry gets an empty table, a unit of the locked reserve in a frame no other table has, below an entry that is present, writable and executable; a present one is left alone; lock balanced |
| Pager.PageInLeaf | bootloader/memory/Pager/Pager.cpp:50-57 | one 4 KB entry of the range gets its frame and nothing else changes |
| Pager.PageInTable | bootloader/memory/Pager/Pager.cpp:29-49 | one entry of a higher table comes to map its part of the range; new tables are new units of the reserve |
| Pager.PageInNode | bootloader/memory/Pager/Pager.cpp:14-59 | the recursive pass maps exactly the part of the range the table spans, in place |
| Pager.PageIn | bootloader/memory/Pager/Pager.cpp:139-147 | every page of an unmapped range translates to its frame, every other page as before; its rights are the write right, and the execute right of the preferences, as far as the entries on its way leave them; other mapped pages keep theirs; no old table goes, new ones are the units taken, at most 6 for up to 2 MB and at most 3 within an aligned 2 MB |
| Pager.SplitTable | bootloader/memory/Pager/Pager.cpp:97-111 | the filled unit is the value tree that translates as the large page |
| Pager.SplitEntry | bootloader/memory/Pager/Pager.cpp:90-112 | the entry points to a table that maps the same; the reserve's lock is balanced |
| Pager.HavePresentChild | bootloader/memory/Pager/Pager.cpp:122-128 | the scan is true exactly when the table has a present entry |
| Pager.PageOutBelow | bootloader/memory/Pager/Pager.cpp:116-120 | unmaps below an entry; the entry is cleared and the table back in the reserve exactly when the table became empty |
| Pager.PageOutEntry | bootloader/memory/Pager/Pager.cpp:79-121 | clears, splits or recurs so that exactly the entry's part of the range is unmapped |
| Pager.PageOutNode | bootloader/memory/Pager/Pager.cpp:60-138 | the pass unmaps the part of the range the table spans, and reports and frees the table exactly when it is empty |
| Pager.PageOut | bootloader/memory/Pager/Pager.cpp:148-154 | no page of the range translates any more, every other page as before and with the rights it had; dropped tables are back in the reserve, new ones come from it, and none is new if no large page had to be split |
| Pager.PageInThenOut | bootloader/memory/Pager/Pager.cpp:139-154 | mapping an unmapped range and unmapping it restores the tree, table object by table object, and the units outstanding are those there were |
| Pager.TablesCounted | bootloader/memory/Pager/Pager.cpp:14-45 | the table objects of a tree are as many as its value has tables |
| Pager.FramesApart | bootloader/memory/Pager/Pager.cpp:38-43 | in every state the operations leave, tables have frames of their own |
| Pager.EmptiedExactly | bootloader/memory/Pager/Pager.cpp:122-137 | a table is emptied exactly when no page outside the range was translated |
| HardwareWalk.HardwareAgrees | bootloader/memory/Pager/Pager.cpp:156-187 | the processor's walk over words in physical memory translates every page as the value tree does |
| HardwareWalk.HardwareBytes | bootloader/memory/Pager/Pager.cpp:156-187 | so it does every byte: from the fields of the address it finds the frame and offset that the value tree gives |
| HardwareWalk.RightsAgree | bootloader/memory/Pager/Pager.cpp:38-45 | the rights it grants, those that all entries of its walk give, are those on the way through the tree |
| PagerHardware.WalksAgree | bootloader/memory/Pager/Pager.cpp:38-45 | with the tables in memory at their physical addresses, the processor's translation and the rights it grants are the software's, on every page |
| PagerHardware.TablesFit | bootloader/memory/Pager/Pager.cpp:38-45 | for every tree the operations leave there is such a memory |
| TableCount.RangeTables | bootloader/memory/Pager/Pager.cpp:29-45 | mapping a range of at most 2 MB adds at most two tables a level |
| TableCount.BlockTables | bootloader/memory/Pager/Pager.cpp:29-45 | inside one aligned 2 MB block it adds at most one table a level |
| TableCount.RenewalTables | bootloader/memory/Reserve/MemoryReserveManager.h:15 | mapping 2 MB anywhere adds at most 6 tables to the value, and at most 3 when it lies in an aligned 2 MB; `Pager.PageIn` turns that into units |
| AvlModel.RotateKeepsOrder | bootloader/memory/AvlTree/AvlEntry.hpp:64-84 | both rotations keep the in-order sequence |
| AvlModel.RebalanceBalances | bootloader/memory/AvlTree/AvlEntry.hpp:51-88 | a tree off balance by at most 2 becomes balanced and loses at most one level |
| AvlModel.AddBalanced | bootloader/memory/AvlTree/AvlEntry.hpp:90-105 | insertion keeps the balance and raises the height by at most one, so the asserted difference of at most 2 holds |
| AvlModel.AddOrder | bootloader/memory/AvlTree/AvlEntry.hpp:95-102 | insertion adds the key once, where the order wants it, duplicates allowed |
| AvlModel.DelBalanced | bootloader/memory/AvlTree/AvlEntry.hpp:107-156 | deletion keeps the balance and lowers the height by at most one |
| AvlModel.DelOrder | bootloader/memory/AvlTree/AvlEntry.hpp:107-195 | deletion removes one occurrence of the key and nothing else, through any chain of replacements |
| AvlModel.DelAbsent | bootloader/memory/AvlTree/AvlEntry.hpp:141-142 | deleting an absent key leaves the tree as it was |
| AvlModel.FoundIffPresent | bootloader/memory/AvlTree/AvlEntry.hpp:112-153 | the deletion reports success exactly when the key occurs in the tree |
| AvlModel.FindBoundFinds | bootloader/memory/AvlTree/AvlEntry.hpp:197-220 | the search returns the nearest key on the asked side, or reports none exactly when there is none |
| AvlModel.EnoughNodes | bootloader/memory/AvlTree/AvlEntry.hpp:87 | a balanced tree of height h has at least Fib(h+2) - 1 nodes |
| AvlTree.AvlEntry.InvCache | bootloader/memory/AslrTree/AslrEntry.cpp:28-44 | the cached height and totals are those of the subtree |
| AvlTree.AvlEntry.Rebalance | bootloader/memory/AvlTree/AvlEntry.hpp:51-88 | rotating in place gives the value model's rebalanced tree over the same entries, caches exact |
| AvlTree.AvlEntry.Add | bootloader/memory/AvlTree/AvlEntry.hpp:90-105 | the entry in place becomes the value model's insertion, over the old entries and exactly one new one |
| AvlTree.AvlEntry.ReplacePtrWithExtreme | bootloader/memory/AvlTree/AvlEntry.hpp:158-195 | moves the subtree's extreme key out and leaves the value model's rest, or says the entry is to go |
| AvlTree.AvlEntry.Del | bootloader/memory/AvlTree/AvlEntry.hpp:107-156 | the entry in place becomes the value model's deletion, or is reported gone exactly when that is empty |
| AvlTree.AvlEntry.FindBound | bootloader/memory/AvlTree/AvlEntry.hpp:197-220 | returns what the value model's search finds, and changes nothing |
| AslrModel.TotalsGiveStarts | bootloader/memory/AslrTree/AslrEntry.cpp:69-70 | xTotal - numChildren * (size - 1) counts the starts of a subtree whose ranges are all long enough |
| AslrModel.NthPlaceFeasible | bootloader/memory/AslrTree/AslrEntry.cpp:98-126 | every n below the count is sent to a feasible start, and the rank of that start is n |
| AslrModel.RankFinds | bootloader/memory/AslrTree/AslrEntry.cpp:98-126 | every feasible start is reached from its rank: the search is a bijection |
| AslrModel.AmongIsStarts | bootloader/memory/AslrTree/AslrEntry.cpp:61-72 | `among` is the sum over all long enough ranges of their number of starts |
| AslrModel.PickFeasible | bootloader/memory/AslrTree/AslrEntry.cpp:47-96 | whatever is drawn, the chosen start is feasible |
| AslrModel.Uniform | bootloader/memory/AslrTree/AslrEntry.cpp:71-94 | under ideal independent draws each feasible start is chosen with probability exactly 1/among, any other never |
| AslrDraws.ProbabilityCounts | bootloader/memory/AslrTree/AslrEntry.cpp:47-96 | that probability is the fraction of the sequences of draws for which the search arrives at the place |
| AslrDraws.UniformDraws | bootloader/memory/AslrTree/AslrEntry.cpp:47-96 | every feasible start is reached by the same number of sequences of draws, 1/among of all, and no other start by any |
| AslrTree.SuitableStarts | bootloader/memory/AslrTree/AslrEntry.cpp:106-107 | the cached totals give the subtree's number of starts, which is not negative |
| AslrTree.FindNthSuitable | bootloader/memory/AslrTree/AslrEntry.cpp:98-126 | the loop ends, its assertions hold, and it finds the n-th start |
| AslrTree.FindRandomRange | bootloader/memory/AslrTree/AslrEntry.cpp:47-96 | succeeds exactly when some range is long enough; the result is the choice for the values drawn, and `among` is exact |
| Placement.EveryStartAlike | bootloader/memory/AslrTree/AslrEntry.cpp:47-126 | over any set of free ranges, however the tree holds them: each byte of each range from which the size fits is reached by the same number of sequences of draws, more than none, and no other byte by any |
| Placement.ReachingCount | bootloader/memory/AslrTree/AslrEntry.cpp:47-126 | that number is the number of all sequences divided by the number of starts |
| RangeTrees.RangeTree.Add | bootloader/memory/AvlTree/AvlTree.hpp:23-33 | the tree's keys gain exactly the given pair, with exactly one new entry; order, balance and caches are kept |
| RangeTrees.RangeTree.Del | bootloader/memory/AvlTree/AvlTree.hpp:35-50 | the keys lose one occurrence of the pair if there is one, and it says so |
| RangeTrees.RangeTree.FindBound | bootloader/memory/AvlTree/AvlTree.hpp:52-58 | the nearest key on the asked side, or none exactly when there is none |
| RangeTrees.RangeTree.FindRandomRange | bootloader/memory/AslrTree/AslrTree.cpp:19-28 | finds exactly when a range is long enough; the start is the place that the words drawn lead to in the tree, of which there are as many as the search draws |
| RangeSets.CarveBytes | bootloader/memory/AddressSpaceManager/AddressSpaceManager.cpp:6-22 | taking a range out makes exactly its bytes not free |
| RangeSets.CarveCoalesced | bootloader/memory/AddressSpaceManager/AddressSpaceManager.cpp:6-22 | what is left is still disjoint, not touching and not empty |
| RangeSets.MergeBytes | bootloader/memory/AddressSpaceManager/AddressSpaceManager.cpp:32-61 | giving a range back makes exactly its bytes free |
| RangeSets.MergeCoalesced | bootloader/memory/AddressSpaceManager/AddressSpaceManager.cpp:32-61 | the merged ranges are disjoint and do not touch |
| RangeSets.SameBytesSameRanges | bootloader/memory/AddressSpaceManager/AddressSpaceManager.cpp:32-61 | the coalesced form is unique: the same free bytes mean the same ranges |
| RangeSets.MergeUndoesCarve | bootloader/memory/AddressSpaceManager/AddressSpaceManager.cpp:24-61 | freeing what was just allocated restores the ranges |
| RangeSets.TotalCarve | bootloader/memory/PhysicalSpaceManager/PhysicalSpaceManager.cpp:20-21 | the free bytes shrink by exactly the size taken |
| RangeSets.TotalMerge | bootloader/memory/PhysicalSpaceManager/PhysicalSpaceManager.cpp:30-31 | the free bytes grow by exactly the size given back |
| AddressSpaceManager.AllocSubrangeFromSuperRange | bootloader/memory/AddressSpaceManager/AddressSpaceManager.cpp:6-22 | both trees lose the range and gain the same pieces: they stay mirror images; each takes at most two new entries |
| AddressSpaceManager.Alloc | bootloader/memory/AddressSpaceManager/AddressSpaceManager.cpp:24-30 | the search finds the one range that holds the bytes, the assertions hold, and exactly those bytes are taken |
| AddressSpaceManager.Free | bootloader/memory/AddressSpaceManager/AddressSpaceManager.cpp:32-61 | both trees hold the merged ranges, the returned range is the one that contains the bytes; each takes at most one new entry |
| SpaceManagers.PhysicalSpaceManager.Alloc | bootloader/memory/PhysicalSpaceManager/PhysicalSpaceManager.cpp:9-24 | fails exactly when no range is long enough; otherwise takes the start of the best fit, and the lock is balanced |
| SpaceManagers.PhysicalSpaceManager.Free | bootloader/memory/PhysicalSpaceManager/PhysicalSpaceManager.cpp:25-33 | the bytes are merged back and `availableMemory` stays the sum of the free lengths |
| SpaceManagers.LinearSpaceManager.AllocAslr | bootloader/memory/LinearSpaceManager/LinearSpaceManager.cpp:8-24 | fails exactly when no range has length + align - 1 bytes; otherwise the start is the byte that the words drawn lead to in the tree of the free ranges, rounded up to the alignment, and it still fits, as asserted |
| SpaceManagers.LinearSpaceManager.Free | bootloader/memory/LinearSpaceManager/LinearSpaceManager.cpp:25-32 | the bytes are merged back, the lock is balanced |
| MemoryState.AllocConsistent | bootloader/memory/MemoryManager/MemoryManager.cpp:5-25 | an allocation keeps live blocks disjoint on both sides, apart from free memory, and each mapped to its own frames |
| MemoryState.FreeConsistent | bootloader/memory/MemoryManager/MemoryManager.cpp:27-39 | a release keeps all of that |
| MemoryState.StepKeeps | bootloader/memory/MemoryManager/MemoryManager.cpp:5-39 | a step keeps the state consistent and free plus live bytes the same, and moves no block that stays live |
| MemoryState.PhysicalGiftKeeps | bootloader/memory/PhysicalSpaceManager/PhysicalSpaceManager.cpp:25-33 | physical memory that is nobody's may be given to the manager at any time: the state stays consistent and gains exactly those bytes |
| MemoryState.LinearGiftKeeps | bootloader/memory/LinearSpaceManager/LinearSpaceManager.cpp:25-32 | so may linear memory that is nobody's and not mapped |
| MemoryState.RunKeeps | bootloader/memory/MemoryManager/MemoryManager.cpp:5-39 | after any run of allocations, releases and gifts the state is consistent, free plus live bytes are what they were plus what was given, and a block live throughout is where it was |
| MemoryState.RunOpen | bootloader/memory/MemoryManager/MemoryManager.cpp:5-39 | a page on whose way all entries allow writing and executing at the start of a run has those rights at its end, whatever was mapped and unmapped: so has every block that comes to lie there |
| MemoryManager.MemoryManager.Alloc | bootloader/memory/MemoryManager/MemoryManager.cpp:5-25 | the composed managers take one step of the state, or fail exactly when memory is short and change nothing but the lock; the start is the place drawn, rounded up; rights only widen |
| MemoryManager.MemoryManager.PhysicalOf | bootloader/memory/MemoryManager/MemoryManager.cpp:33-35 | the walk finds a live block's own physical address, which is not 0 |
| MemoryManager.MemoryManager.Free | bootloader/memory/MemoryManager/MemoryManager.cpp:27-39 | unmaps and releases exactly the block; free plus live bytes, tables and lock are balanced |
| MemoryManager.MemoryManager.TablesOutside | bootloader/memory/Pager/Pager.cpp:38-43 | no byte of a frame with a page table, or with any unit of the reserve, is free or in a live block, whatever the manager has done |
| MemoryManager.MemoryManager.AddPhysical | bootloader/memory/Initializer/MemoryManagerInitializer.cpp:59-62 | the composed managers take one gift of physical memory |
| MemoryManager.MemoryManager.AddLinear | bootloader/memory/Initializer/MemoryManagerInitializer.cpp:70-73 | the composed managers take one gift of linear memory |
| Partition.PartitionExact | bootloader/memory/Initializer/MemoryManagerInitializer.cpp:10-18 | with the missing return, the pieces are not empty, in order and disjoint, and hold exactly the bytes no interval forbids |
| Partition.ReadsPastEndExactly | bootloader/memory/Initializer/MemoryManagerInitializer.cpp:12-17 | as written, the recursion goes on past the last interval if and only if some byte of the range is allowed |
| Initializer.FreeLinear | bootloader/memory/Initializer/MemoryManagerInitializer.cpp:65-73 | freeing each piece as it is found leaves the manager valid, with exactly the allowed bytes of the range freed |
| Initializer.FreePhysical | bootloader/memory/Initializer/MemoryManagerInitializer.cpp:59-62 | the same for a range of physical memory |
| Initializer.RoundingAligns | bootloader/memory/Initializer/MemoryManagerInitializer.cpp:54-55 | the rounded base is page-aligned if and only if the base was |
| Initializer.FreeUsable | bootloader/memory/Initializer/MemoryManagerInitializer.cpp:50-63 | the free physical bytes are exactly those in pages that lie wholly in an entry of the map with an aligned base, and that nothing forbids |
| Initializer.Initialize | bootloader/memory/Initializer/MemoryManagerInitializer.cpp:40-73 | the reserve's place is looked up by the walk; a manager without memory becomes a valid one in which a physical byte is free exactly if it is in a whole page of the map, from 1 MB on and not the reserve's, and a linear byte exactly if it is from 1 MB on, below 2^47 and not the reserve's; the tree is as it was |
| Startup.Start | bootloader/memory/Initializer/MemoryManagerInitializer.cpp:20-76 | from a ready tree that maps something, but none of the linear space given away, to managers with exactly those bytes free and a heap without objects, made of the tree's tables, the reserve and new objects only |
| Bitmap.LeastBit | bootloader/memory/PrimitiveHeap/BitmapHelper.cpp:3-7 | x & -x is the power of two of the lowest set bit |
| Bitmap.PowersOfTwo | bootloader/memory/PrimitiveHeap/BitmapHelper.cpp:9-13 | the test holds exactly of the 64 powers of two |
| Bitmap.BinaryLog | bootloader/memory/PrimitiveHeap/BitmapHelper.cpp:15-37 | halving and the byte table give the exponent of every power of two |
| ChunkLayout.FindOptimalELength | bootloader/memory/PrimitiveHeap/PrimitiveHeap.cpp:84-98 | that many slots and their bitmap fit behind the header and the padding, and one slot more does not; the decrement always fits |
| ChunkLayout.SlotsApart | bootloader/memory/PrimitiveHeap/PrimitiveHeap.cpp:74-82 | slots of one chunk or of two have no byte in common |
| ChunkLayout.SlotRecovered | bootloader/memory/PrimitiveHeap/PrimitiveHeap.cpp:179-182 | from a slot's address, freeing finds the chunk and index that allocation chose |
| ChunkLayout.SlotAligned | bootloader/memory/PrimitiveHeap/PrimitiveHeap.cpp:26-30 | the padding aligns every slot and is less than the alignment |
| PrimitiveHeap.PrimitiveHeapChunk.Take | bootloader/memory/PrimitiveHeap/PrimitiveHeap.cpp:156-166 | the scan takes the lowest free slot out of the bitmap, and only that one |
| PrimitiveHeap.PrimitiveHeapChunk.Give | bootloader/memory/PrimitiveHeap/PrimitiveHeap.cpp:183-184 | exactly the slot becomes free in the bitmap |
| PrimitiveHeap.PrimitiveHeapChunk.Fill | bootloader/memory/PrimitiveHeap/PrimitiveHeap.cpp:123-129 | exactly the first eLength bits are set |
| PrimitiveHeap.RemoveChunkFromLL | bootloader/memory/PrimitiveHeap/PrimitiveHeap.cpp:223-234 | the list holds the other chunks in the same order, linked both ways |
| PrimitiveHeap.AddChunkToLL | bootloader/memory/PrimitiveHeap/PrimitiveHeap.cpp:236-246 | the list holds the chunk and then the old ones, linked both ways |
| PrimitiveHeap.PrimitiveHeap.constructor | bootloader/memory/PrimitiveHeap/PrimitiveHeap.cpp:7-39 | the invariant holds; no unit is in use; the slots of the initial chunk, if there is one, are available |
| PrimitiveHeap.PrimitiveHeap.Replenish | bootloader/memory/PrimitiveHeap/PrimitiveHeap.cpp:111-132 | eLength more units are available and no unit's use changes |
| PrimitiveHeap.PrimitiveHeap.Trim | bootloader/memory/PrimitiveHeap/PrimitiveHeap.cpp:100-109 | whole unused chunks go until few enough units are left or none is unused; no unit in use is touched |
| PrimitiveHeap.PrimitiveHeap.Alloc | bootloader/memory/PrimitiveHeap/PrimitiveHeap.cpp:134-174 | a unit not in use is handed out, aligned: the lowest free slot of its chunk, and of an unused chunk only when none is partly used; the count is exact, so the renewal causes no trim |
| PrimitiveHeap.PrimitiveHeap.Free | bootloader/memory/PrimitiveHeap/PrimitiveHeap.cpp:175-201 | exactly that unit comes back; an unlocked heap ends above minUnits; from minUnits up no chunk is taken, so a trim, which ends above maxUnits - eLength, causes no renewal |
| PrimitiveHeap.PrimitiveHeap.Unlock | bootloader/memory/PrimitiveHeap/PrimitiveHeap.cpp:208-221 | the last unlock renews or trims, never both: above minUnits no chunk is taken, else none is given back; it ends with more than minUnits units |
| PrimitiveHeap.PrimitiveHeap.TakenApart | bootloader/memory/PrimitiveHeap/PrimitiveHeap.cpp:74-82 | two units in use share no byte, and lie clear of headers and bitmaps |
| ReserveRuns.SlotCounts | bootloader/memory/Reserve/MemoryReserveManager.h:13-16 | the slab allocator's numbers of units for the reserve and for the two node heaps |
| ReserveRuns.SectionAndRenewal | bootloader/memory/Reserve/MemoryReserveManager.h:15 | an operation and the renewal it makes necessary, an aligned 2 MB, are met from 6 units; the demands are those of `AddressSpaceManager` and `TableCount` |
| ReserveRuns.NeverRunsDry | bootloader/memory/Reserve/MemoryReserveManager.h:15 | from more than minNumUnits units no run finds the reserve empty, nested allocations included, and more remain |
| ReserveRuns.MarkExact | bootloader/memory/Reserve/MemoryReserveManager.h:15 | renewing at `min` units, no run from more than that, within the demands, finds the reserve empty if and only if `min` is at least 5; minNumUnits is 8 |
| HeapTiling.SwappedCarve | bootloader/memory/Heap/Heap.cpp:126-130 | the swapped pair carves the block exactly when its start is not below its size |
| HeapTiling.SwapMatters | bootloader/memory/Heap/Heap.cpp:126-130 | a range at the bottom of memory for which it would not |
| HeapTiling.TileBlock | bootloader/memory/Heap/Heap.cpp:126-130 | cutting a block keeps the chunks exactly tiled by free ranges and live blocks |
| HeapTiling.TileChunk | bootloader/memory/Heap/Heap.cpp:132-137 | so does a new chunk with a block at its start |
| HeapTiling.TileFree | bootloader/memory/Heap/Heap.cpp:184-186 | so does freeing a block, even one that spans chunks |
| HeapTiling.TileRelease | bootloader/memory/Heap/Heap.cpp:187-193 | a released chunk is wholly owned and overlaps no live block, and the rest stays tiled |
| KeyedTrees.AddSame | bootloader/memory/Heap/Heap.cpp:25-54 | adding a record with a new key, with keys compared only, is adding the pair in the order of pairs |
| KeyedTrees.DelSame | bootloader/memory/Heap/Heap.cpp:25-54 | deleting a record, with keys compared only, is deleting the pair it is |
| KeyedTrees.FindSame | bootloader/memory/Heap/Heap.cpp:25-54 | searching for a key from below, with keys compared only, is searching for the pair (key, 0) |
| KeyedTrees.RecordFound | bootloader/memory/Heap/Heap.cpp:64-65 | the search followed by the equality test finds the record if and only if there is one |
| KeyedTrees.RecordTree.Insert | bootloader/memory/Heap/Heap.cpp:106 | the tree gains the record |
| KeyedTrees.RecordTree.Lookup | bootloader/memory/Heap/Heap.cpp:168-170 | finds the value recorded under a key if and only if there is one |
| KeyedTrees.RecordTree.Remove | bootloader/memory/Heap/Heap.cpp:171 | the tree loses the record and nothing else |
| HeapArrays.ArraySpace.AllocBlock | bootloader/memory/Heap/Heap.cpp:124-138 | a new block, from the best fit or a new chunk, on the real memory manager; the tiling is kept |
| HeapArrays.ArraySpace.FreeBlock | bootloader/memory/Heap/Heap.cpp:184-194 | exactly the block goes; the chunk of its first byte is given back exactly when all of it is free, and is then all that the memory manager loses |
| Heap.Slabs.GetPH | bootloader/memory/Heap/Heap.cpp:59-75 | the lookup through the five-entry cache and then in the tree finds the slab of that size if and only if there is one, and the cache stays right |
| Heap.Slabs.SlabFor | bootloader/memory/Heap/Heap.cpp:88-98 | the one slab of that size, made and recorded in tree and cache exactly when there was none; the slab is an abstract sub-allocator |
| Heap.SlabSizesLegal | bootloader/memory/Heap/Heap.cpp:93 | the arguments meet what the slab allocator's constructor asserts, for every size that gets there |
| Heap.RouteEnough | bootloader/memory/Heap/Heap.cpp:77-147 | a slab serves single objects up to 128 bytes, the array space objects up to half a chunk, the memory manager larger ones; each gets its size rounded up to 8 bytes, or to pages, and size 0 gets 8 bytes |
| Heap.Init | bootloader/memory/Heap/Heap.cpp:222-237 | a heap without records, made of new objects only |
| Heap.Heap.AllocSingle | bootloader/memory/Heap/Heap.cpp:103-108 | the size is recorded in the tree of objects under the address that the sub-allocator chosen by the size gave out |
| Heap.Heap.AllocArray | bootloader/memory/Heap/Heap.cpp:110-115 | the same for arrays |
| Heap.Heap.FreeSingle | bootloader/memory/Heap/Heap.cpp:166-173 | the assertions hold if and only if the object is recorded; then its record goes, and the sub-allocator that served it gets it back with the size it was asked for |
| Heap.Heap.FreeArray | bootloader/memory/Heap/Heap.cpp:203-210 | the same for arrays, size 0 included |
| HeapLayers.ObjectsApart | bootloader/memory/Heap/Heap.cpp:77-147 | no two objects share a byte, be they blocks of the memory manager, arrays or slots of slabs whose chunks are units of a slab |
| HeapLayers.StepLayered | bootloader/memory/Heap/Heap.cpp:77-220 | every step of every allocator keeps what that rests on, adds or removes at most the one object it is about, and moves none |
| HeapLayers.RunLayered | bootloader/memory/Heap/Heap.cpp:77-220 | in every run no two objects ever share a byte, and an object in use throughout stays where it is |
| HeapLayers.StartLayered | bootloader/memory/Heap/Heap.cpp:222-237 | a heap with nothing in it, over any consistent memory manager, is a start of such a run |
| HeapLayers.PartsFit | bootloader/memory/Heap/Heap.cpp:132-137 | the invariants of the memory manager and of the array space give what the layers require of them |
| HeapLayers.AllocIsNew | bootloader/memory/MemoryManager/MemoryManager.cpp:5-25 | an allocation of the memory manager is the step that adds a block |
| HeapLayers.SlabFits | bootloader/memory/PrimitiveHeap/PrimitiveHeap.cpp:74-82 | a valid slab allocator is a slab of the layers, with the same slots at the same addresses |
| HeapSteps.AllocBlock | bootloader/memory/Heap/Heap.cpp:124-138 | allocating a block of the array space is one step of the layers, the cut of a free range or a new chunk, that gains this array only |
| HeapSteps.FreeBlock | bootloader/memory/Heap/Heap.cpp:184-194 | freeing one is a run of steps: the first loses it, what follows, the return of its chunk when all of that is free, loses nothing, and the last state shows the array space as it is then |
| HeapSteps.SlabAlloc | bootloader/memory/PrimitiveHeap/PrimitiveHeap.cpp:134-174 | an allocation takes one slot that was free, after gaining a chunk exactly when the heap renews itself, and changes nothing else |
| HeapSteps.SlabFree | bootloader/memory/PrimitiveHeap/PrimitiveHeap.cpp:175-201 | a release gives that slot back, and then loses unused chunks or gains one, never both |
| HeapSteps.AllocRun | bootloader/memory/PrimitiveHeap/PrimitiveHeap.cpp:134-174 | in the layers that is a run whose last step gains the slot and whose other step moves no object |
| HeapSteps.FreeRun | bootloader/memory/PrimitiveHeap/PrimitiveHeap.cpp:175-201 | in the layers that is a run whose first step loses the slot and whose other steps, chunk by chunk, move no object |
| HeapSteps.TiledUnique | bootloader/memory/Heap/Heap.cpp:124-194 | what is free in the chunks is determined by the chunks and the live blocks |
| DiskLoad.LoadLow | bootsector/disk_load.asm:5-50 | a read fails exactly when the BIOS reports an error or has read less than it was asked for |
| DiskLoad.Load | bootsector/disk_load.asm:56-158 | it ends, and fails if and only if a BIOS call has, which is then the last; the other calls have read all they were asked for, in a chain over the sectors before that; each call goes on to the end of its track, its segment or the request |
| DiskLoad.ReadFits | bootsector/disk_load.asm:103-127 | the read decided on starts at the current sector and crosses neither track nor segment |
| DiskLoad.ChainSector | bootsector/disk_load.asm:97-149 | every sector of a chain is read exactly once, and lands at its place |

## Left out
- Device access (port I/O, PCI, IDE, AHCI, keyboard, display), partition tables, interrupt setup, CPU mode switches and stack moves: their behaviour lies outside these files.
- Pager.PageTreeNode: `phy` and `lin` are arrays inside the table; they are sequences held by the table's object, so bytes of tables that overlap in memory are not modelled. That tables have frames of their own is part of `Pager.Ready`.
- Pager.EmptyRoot: the source adopts the tree the processor already uses; any tree that is `Pager.Ready` will do, and the empty one shows that there is one.
- Pager.EnsureTable: the new table's physical address comes with the unit and is not looked up by the walk; `MemoryManager.MemoryManager.PhysicalOf` says that the walk finds it for blocks of the memory manager.
- Pager.SplitEntry: the new table is filled before it is linked, the source links it first; no one reads the tree in between, since the reserve is locked.
- Pager.Reserve: hands out fresh tables in frames that are no other unit's, not the root's and not in memory the managers hand out (its own set `foreign`), and never fails; that takes as many frames as any tree may have, among 2^40. The initial reserve is such memory; chunks that renewals take from the memory manager become blocks of it and are not part of the pool. That it never runs dry is `ReserveRuns.NeverRunsDry`.
- Pager.PageIn: renewals and trims of the reserve between two tables, which map or unmap other memory meanwhile, are not part of it or of `Pager.PageOut`; TLB flushes have no effect in the model.
- Pager.LinToPhy: does not model the shift by -1 for a 4 KB entry with bit 7 set; it requires the bit clear on the entry it ends at.
- AvlTree.AvlEntry: one class stands for the plain entry and the one with cached totals, and its key type is the range pair. Memory of entries is taken with `new`; what it costs the reserve is in `ReserveRuns`. `Destruct` of a whole tree is left out.
- AslrModel.Uniform: speaks of ideal draws below `among`; the generator's quality and the bias of the remainder are not modelled. The bytes drawn are equally likely (`Placement.EveryStartAlike`); aligned starts are as likely as there are such bytes that round up to them.
- SpaceManagers.LinearSpaceManager.AllocAslr: requires length + align not to exceed 2^64; beyond that the sum wraps and the source's assertion fails.
- MemoryManager.MemoryManager.Alloc: requires a length above 0 (for 0 the pager's last assertion fails) of which every aligned place in the linear space can be indexed (`MemoryManager.AlwaysIndexable`): below 2^31 - 511 pages, or below 2^31 with an alignment of 2 MB.
- Partition.PartitionExact: is proved of the recursion with the return after the hand-over, which the source lacks; what the source's own recursion does is `Partition.ReadsPastEndExactly`.
- Initializer.FreeLinear: has that return too.
- Initializer.FreePhysical: has that return too.
- Initializer.FreeUsable: requires that entries of the map that offer a page have aligned bases, end below 2^52, and share no byte that is allowed: without that a release finds its bytes free already, which the source does not check. What then becomes of the trees is not modelled. The page tables in use must lie in forbidden intervals or outside the map, as the source's own note says (bootloader/memory/Initializer/MemoryManagerInitializer.cpp:45-46).
- Initializer.Initialize: inherits that; the linear space it gives away must not be mapped, and bit 7 must be clear on the entry of the reserve's first page. The pager's start and the lock around it are left out.
- Startup.Start: the reserve exists before the managers do, as a pool of frames (see Pager.Reserve); the node heaps are left out, since entries are taken with `new`.
- PrimitiveHeap.PrimitiveHeap.Replenish: its source of chunks never returns null, which the code does not check either, and does not call the heap back; the move constructor and the destructor are left out.
- PrimitiveHeap.PrimitiveHeapChunk: the bitmap is a field; that it lies inside the chunk and clear of the slots is `ChunkLayout.SlotInside`.
- ReserveRuns.NeverRunsDry: operations enter through what they take at most, in any order: the constants of `AddressSpaceManager` and `TableCount` for a cut and for an aligned 2 MB; node sizes of 48 and 64 bytes are those of the AMD64 ABI.
- ReserveRuns.MarkExact: the run that finds the reserve empty with a mark below 5 is one within those demands: a table, and a renewal that takes its nodes and tables in the source's order from empty node heaps and cuts the linear range in the middle. That these accounts arise in a run of the whole system is not shown.
- HeapArrays.ArraySpace.AllocBlock: requires memory for a new chunk when no range fits, as the source asserts.
- Heap.Heap.AllocSingle: its sub-allocators are abstract and give out addresses not in use; that those of the source do is `HeapLayers.ObjectsApart`, over the states of `HeapArrays`, `MemoryManager` and `PrimitiveHeap`. Sizes that rounding would carry past 64 bits are excluded, and so is a null result for large arrays.
- Heap.Heap.AllocArray: the same as for single objects.
- HeapSteps.SlabAlloc: that a slab's new chunk is a unit of another slab that can be taken is required in `HeapSteps.AllocRun` (`HeapSteps.FreeRun`); that the chunks come from there is the choice of callbacks (bootloader/memory/Heap/Heap.cpp:93), which the abstract source of chunks of `PrimitiveHeap` does not fix.
- Heap.Slabs.SlabFor: the slab made is an abstract sub-allocator, with its place among the slabs for its address; the constructor's assertions are met by `Heap.SlabSizesLegal`.
- KeyedTrees.RecordTree: its entries are those of the range trees, with pairs in the order of pairs; the lemmas beside it say that comparing keys only comes to the same.
- Releasing slabs, and free chunks other than the one that holds the freed block's first byte: the source does neither.
- DiskLoad.Load: requires the request to stay below sector 65536, 256 cylinders and 1 MB, and an offset that is a multiple of 512, as the source assumes; reading the drive parameters is left out.
