# NovOS in Dafny

A model of the memory management, locking and devicetree code of NovOS, a RISC-V kernel
written in Rust, with machine-checked proofs of what that code promises. `dafny verify
dfyconfig.toml` checks the whole project.

| component | files |
|---|---|
| machine words, missing values | `Bits`, `Wrappers` |
| buddy allocator | `Blocks`, `BuddySpec`, `BuddyOps`, `BuddyLaws`, `BuddyRegion`, `BuddyRuns`, `FreeListMemory`, `BuddyAllocator` |
| range set, physical memory setup | `RangeSpec`, `RangeSet`, `Pmem` |
| page tables (Sv39, Sv48) | `PageEntry`, `PageWalk`, `PageTree`, `PageSpec`, `PageBudget`, `PageTables`, `HardwareWalk` |
| frames behind pages, direct map | `FrameMapping`, `DirectMap` |
| ticket mutex, reader-writer lock | `TicketMutex`, `ReaderWriterLock` |
| flattened devicetree | `FdtTokens`, `FdtTree`, `FdtSearch`, `FdtReader` |

Objects that the kernel updates in place are classes (`Allocator`, `RangeSet`, `PageTable`,
the devicetree iterators); each method is proved against a function on values, and the
theorems are about these functions. Right shifts, AND, OR and XOR are defined bit by bit, left
shifts as products and complements as differences, and what they mean together is proved. A
Rust panic is an outcome of its own. `AllocStats.allocated` is called `used`, because
`allocated` is a Dafny keyword.

## What the proofs show about the code

- **Allocator.** Over every permitted run, free and live blocks are naturally aligned, pairwise
  disjoint and cover exactly the bytes added, and the three counters are the byte counts of the
  free, the live and all blocks. Freeing what was just allocated restores the allocator if and
  only if the block that was taken had no free buddy.
- **Misaligned blocks.** `allocate` is modelled with the XOR it uses, for all lists as values. It keeps the
  tiling if and only if the block it splits has no bit set between the two orders; otherwise it
  puts memory in front of the block on a free list (`AllocateKeepsExactly`).
- **`add_region` tests one bit too high.** It compares the start with its buddy of the *next*
  order, so bit 12 of the start is never looked at. Blocks are aligned if and only if the
  first page number is not 1 modulo 4 or fewer than two pages remain. Otherwise some sequence of
  allocations puts the page in front of the region on a free list (`MisalignedStartEscapes`).
- **`merge_blocks` reads unused slots.** Its loop bound is fixed on entry, so after a merge it
  reads past the ranges in use, and a slot there that touches the merged range makes `unwrap`
  panic. `insert` is correct whenever it returns. Ranges in ascending order, or ranges that do not
  touch, never meet such a slot: their inserts return if and only if eight slots are enough
  (`AscendingInsertsReturn`, `ApartInsertsReturn`).
- **Page tables.** `map` and `unmap` update a partial map from virtual addresses to answers, and
  the tables stay a tree. `map` runs out of memory if and only if too little is free for the tables
  it lacks. From tables that the kernel and the processor read alike, it leads to tables that they
  read alike at every address if and only if the page is accessible.
- **A Terapage can be mapped under Sv48 but not looked up:** `translate` and `unmap` stop at
  `unreachable!`. The model answers `Panics` there.
- **Empty flags make a branch.** `map` does what it promises if and only if there is a flag: a leaf
  written without one reads back as a branch into the data page (`MapsIffFlagged`).
- **The upper half.** `map` accepts addresses up to the end of the address space, but the processor
  wants the bits above it to repeat its top bit (`AccessAgrees`). The kernel's own mappings lie in
  the lower half.
- **One region is mapped, all are handed out.** `boot.rs` maps only the first memory region, and
  `pmem::init` adds all of them. For a block elsewhere `deallocate` passes the virtual address on
  (`LeadsBackIff`).
- **`InvalidRegion` is never returned** by `add_region`: a reversed range is already
  `RegionTooSmall`. The comment on `MAX_ORDER` calls it inclusive; the orders are 0 to 11.
- **A null buddy is only possible below 16 MiB.** `deallocate` then keeps the merged block live,
  and `allocate` loses the block it was splitting while it reports `NullPointer` or
  `NoMemoryAvailable`. The kernel's memory starts at 2 GiB.
- **One small range stops `init`:** a range without a whole page makes `add_region` fail, and `init`
  with it (`AddRange`).

## Model

| member | source | states |
|---|---|---|
| `Bits.XorBit` | crates/kernel/src/allocator/buddy.rs:29-32 | XOR with a power of two adds it when that bit is clear and subtracts it when it is set |
| `Bits.AlignUpIsLeast` | crates/kernel/src/allocator.rs:21-24 | `align_up` is the least multiple of the alignment not below the address |
| `Blocks.AlignUpPage` | crates/kernel/src/allocator/buddy.rs:66-68 | the start is moved up to a page boundary by less than a page |
| `Blocks.OrderForSizeIsLeast` | crates/kernel/src/allocator/buddy.rs:15-26 | `order_for_size(s) <= o` iff `s <= size_for_order(o)`, for all sizes and orders |
| `Blocks.BuddyIsOtherHalf` | crates/kernel/src/allocator/buddy.rs:29-32 | for an aligned block the XOR is the other half of the enclosing block |
| `Blocks.BuddyPair` | crates/kernel/src/allocator/buddy.rs:165-169 | buddies are each other's buddies, differ, and the lower one starts the aligned block of both |
| `Blocks.NullBuddy` | crates/kernel/src/allocator/buddy.rs:29-32 | `buddy_of` is null iff the block starts at the size of its order |
| `Blocks.ClearBits` | crates/kernel/src/allocator/buddy.rs:165-169 | with the bits from the order up to `k` clear, every buddy in between lies one size above |
| `Blocks.SetBit` | crates/kernel/src/allocator/buddy.rs:165-169 | with one of them set, some buddy lies below the block |
| `BuddySpec.CountersAddUp` | crates/kernel/src/allocator/buddy.rs:284-292 | free and allocated bytes add up to the total, fit a word, and no counter can underflow |
| `BuddySpec.TakeKeeps` | crates/kernel/src/allocator/buddy.rs:149-155 | taking a block off its list keeps the tiling and the counts |
| `BuddySpec.PushKeeps` | crates/kernel/src/allocator/buddy.rs:211-219 | pushing a live block keeps the tiling and the counts |
| `BuddySpec.SplitLiveKeeps` | crates/kernel/src/allocator/buddy.rs:165-172 | a block and its two halves tile the same bytes, aligned |
| `BuddySpec.MergeLiveKeeps` | crates/kernel/src/allocator/buddy.rs:198-209 | two buddies and the block they form tile the same bytes |
| `BuddyOps.FirstNonEmpty` | crates/kernel/src/allocator/buddy.rs:147-163 | the least order from the requested one whose list is not empty |
| `BuddyOps.SplitOnce` | crates/kernel/src/allocator/buddy.rs:165-178 | pushing the XOR buddy and counting it free turns the split to one order into the split to the next |
| `BuddyOps.AllocateSplits` | crates/kernel/src/allocator/buddy.rs:141-179 | on lists as values, aligned or not: the recursion takes the head of the smallest non-empty order and leaves its XOR buddies behind; a null buddy stops it above that order, with the error that the outer calls make of it. In memory this holds until a split leaves its block and pushes an address that is already a node, whose `next` it overwrites |
| `BuddyOps.AllocateKeeps` | crates/kernel/src/allocator/buddy.rs:141-179 | an allocation that splits inside its block keeps tiling and counters, and alignment where there is some; a null buddy loses exactly one block |
| `BuddyOps.AllocateKeepsExactly` | crates/kernel/src/allocator/buddy.rs:165-172 | a successful allocation keeps the tiling iff the block it splits has no bit set between the two orders |
| `BuddyOps.SplitEscapes` | crates/kernel/src/allocator/buddy.rs:165-172 | otherwise a block in front of the one split is put on a list, outside the region or on top of another block |
| `BuddyOps.AllocateFailsExactly` | crates/kernel/src/allocator/buddy.rs:141-169 | failure iff every list from the order on is empty or the block to split starts at the size of an order it passes; only the first leaves the state unchanged |
| `BuddyOps.AlignedAllocates` | crates/kernel/src/allocator/buddy.rs:141-179 | on aligned blocks: failure iff every list from the order on is empty, with the state unchanged; otherwise the head of the smallest non-empty order |
| `BuddyOps.MergeStep` | crates/kernel/src/allocator/buddy.rs:189-209 | removing the free buddy and merging keeps tiling, counters and alignment |
| `BuddyOps.TopStep` | crates/kernel/src/allocator/buddy.rs:201-207 | at the top order both buddies go back and nothing is lost |
| `BuddyOps.DeallocateKeeps` | crates/kernel/src/allocator/buddy.rs:187-222 | deallocation keeps the tiling and frees exactly the block; the null error keeps the merged block live |
| `BuddyOps.DeallocateFailsExactly` | crates/kernel/src/allocator/buddy.rs:187-222 | failure iff the buddies of all enclosing blocks are free up to one that starts at its own size |
| `BuddyOps.HighBlocksNeverLeak` | crates/kernel/src/allocator/buddy.rs:29-32 | no block at or above 16 MiB meets the null buddy |
| `BuddyLaws.AllocateMakesNoPair` | crates/kernel/src/allocator/buddy.rs:141-179 | on lists as values, with every outcome, allocation creates no new pair of free buddies; in memory as long as no split overwrites the `next` of a listed node |
| `BuddyLaws.DeallocateMakesNoPair` | crates/kernel/src/allocator/buddy.rs:187-222 | below the top order deallocation creates no new pair of free buddies |
| `BuddyLaws.DeallocateLeavesLower` | crates/kernel/src/allocator/buddy.rs:187-222 | lists below the freed order are untouched |
| `BuddyLaws.UnsplitToSource` | crates/kernel/src/allocator/buddy.rs:141-222 | every split made by an allocation is undone by one merge |
| `BuddyLaws.AllocateThenDeallocate` | crates/kernel/src/allocator/buddy.rs:141-222 | allocate then free restores all free blocks and counters iff the source block had no free buddy and is not at its own size; below the top order also the list order |
| `BuddyRegion.RegionOrderFits` | crates/kernel/src/allocator/buddy.rs:98-125 | the chosen block fits the range; the only error is the null buddy, for a start at or below 8 MiB |
| `BuddyRegion.RegionOrderIsMaximal` | crates/kernel/src/allocator/buddy.rs:98-125 | the order is the largest that fits with the tested bits clear |
| `BuddyRegion.AddBlockKeeps` | crates/kernel/src/allocator/buddy.rs:127-133 | a fresh block extends the tiling and the counters by its bytes |
| `BuddyRegion.AddFromKeeps` | crates/kernel/src/allocator/buddy.rs:82-93 | the blocks tile exactly the whole pages of the range, and their byte count is returned |
| `BuddyRegion.AddFromFails` | crates/kernel/src/allocator/buddy.rs:82-120 | from above page 1, the loop meets a null buddy iff the range holds a whole block that starts at its own size |
| `BuddyRegion.AddRegionFailsExactly` | crates/kernel/src/allocator/buddy.rs:65-120 | each error of `add_region` iff its condition on the aligned start and the end |
| `BuddyRegion.BlockAlignedIff` | crates/kernel/src/allocator/buddy.rs:98-136 | one block is aligned iff its start is good, and a good start is followed by a good start |
| `BuddyRegion.AddFromAlignedIff` | crates/kernel/src/allocator/buddy.rs:82-93 | all blocks stay aligned iff the start is good |
| `BuddyRegion.AddRegionAlignedIff` | crates/kernel/src/allocator/buddy.rs:65-93 | the same in terms of the first page number modulo 4 |
| `BuddyRuns.StepKeeps` | crates/kernel/src/allocator/buddy.rs:65-222 | every permitted operation keeps tiling, counters and alignment |
| `BuddyRuns.EveryRunTiles` | crates/kernel/src/allocator/buddy.rs:65-222 | after every permitted run from empty: aligned, disjoint, covering exactly the memory added, counters exact |
| `BuddyRuns.FreeSucceeds` | crates/kernel/src/allocator/buddy.rs:187-222 | in memory above 8 MiB a permitted free never fails |
| `BuddyRuns.MisalignedStartEscapes` | crates/kernel/src/allocator/buddy.rs:116-172 | whenever a region with a bad start was added, some sequence of allocations puts the page in front of it on a free list, and no tiling without that page exists from then on |
| `FreeListMemory.ThreadsPush` | crates/kernel/src/allocator/buddy.rs:229-239 | writing a node and the head prepends to one list and leaves the other eleven |
| `FreeListMemory.ThreadsUnlink` | crates/kernel/src/allocator/buddy.rs:253-282 | redirecting the cell before a node removes it from one list and leaves the other eleven |
| `BuddyAllocator.Allocator.constructor` | crates/kernel/src/allocator/buddy.rs:46-52 | an empty allocator tiles nothing |
| `BuddyAllocator.Allocator.OrderPush` | crates/kernel/src/allocator/buddy.rs:229-239 | the list gains the block at its head, in shared memory |
| `BuddyAllocator.Allocator.OrderPop` | crates/kernel/src/allocator/buddy.rs:241-251 | the list loses its head, or is empty |
| `BuddyAllocator.Allocator.Unlink` | crates/kernel/src/allocator/buddy.rs:266-273 | the cell before the node skips it, be it the head or a `next` field |
| `BuddyAllocator.Allocator.OrderRemove` | crates/kernel/src/allocator/buddy.rs:253-282 | the walk ends; it reports membership and removes that one node |
| `BuddyAllocator.Allocator.CountAlloc` | crates/kernel/src/allocator/buddy.rs:284-287 | bytes move from free to allocated inside the word |
| `BuddyAllocator.Allocator.CountFree` | crates/kernel/src/allocator/buddy.rs:289-292 | bytes move from allocated to free inside the word |
| `BuddyAllocator.Allocator.Allocate` | crates/kernel/src/allocator/buddy.rs:138-179 | the recursive in-place code equals the function, null buddy included, wherever the split stays inside its block |
| `BuddyAllocator.Allocator.Deallocate` | crates/kernel/src/allocator/buddy.rs:181-222 | the recursive in-place code equals the merge function and keeps the invariant; exactly when it fails |
| `BuddyAllocator.FindOrder` | crates/kernel/src/allocator/buddy.rs:98-125 | the loop computes the order of the next block |
| `BuddyAllocator.Allocator.AddSingleRegion` | crates/kernel/src/allocator/buddy.rs:95-136 | one block is pushed and counted, without overflow |
| `BuddyAllocator.Allocator.AddRegion` | crates/kernel/src/allocator/buddy.rs:54-93 | exactly the whole pages are added; each error iff its condition |
| `RangeSpec.SaturatingMeans` | crates/kernel/src/allocator/rangeset.rs:136-155 | the saturating operations stop at the largest word and at zero |
| `RangeSpec.TouchesMeans` | crates/kernel/src/allocator/rangeset.rs:194-198 | the merge test, saturation included, means overlapping or adjacent |
| `RangeSpec.KeptApart` | crates/kernel/src/allocator/rangeset.rs:188-207 | what is kept touches neither itself nor the merged range |
| `RangeSpec.MergedUnion` | crates/kernel/src/allocator/rangeset.rs:188-207 | kept ranges and the merged one denote exactly the union |
| `RangeSpec.DropStep` | crates/kernel/src/allocator/rangeset.rs:120-124 | dropping a contained range loses only removed addresses, and excludes a split |
| `RangeSpec.TrimStep` | crates/kernel/src/allocator/rangeset.rs:126-147 | trimming keeps every other address and never saturates |
| `RangeSpec.SplitStep` | crates/kernel/src/allocator/rangeset.rs:148-166 | splitting loses nothing outside the range and leaves one trim to do |
| `RangeSpec.RangesAreRuns` | crates/kernel/src/allocator/rangeset.rs:101-207 | the ranges of a canonical set are exactly the maximal runs of its addresses |
| `RangeSpec.CanonicalUnique` | crates/kernel/src/allocator/rangeset.rs:101-207 | two canonical sets of the same addresses hold the same ranges, each once |
| `RangeSet.RangeSet.constructor` | crates/kernel/src/allocator/rangeset.rs:48-54 | an empty set with zeroed slots |
| `RangeSet.RangeSet.Remove` | crates/kernel/src/allocator/rangeset.rs:65-99 | the range rotates to the last slot, the others close up; out of bounds is an error |
| `RangeSet.RangeSet.RemoveInner` | crates/kernel/src/allocator/rangeset.rs:110-169 | the set loses exactly the range and stays canonical; panics iff a split needs a ninth slot; the recursion ends |
| `RangeSet.RangeSet.RemoveRange` | crates/kernel/src/allocator/rangeset.rs:101-108 | the same, with the invalid range refused |
| `RangeSet.RangeSet.MergeBlocks` | crates/kernel/src/allocator/rangeset.rs:188-207 | returns iff no unused slot it reads touches the merged range; then the slots are kept, unused, merged in that order |
| `RangeSet.RangeSet.MergeAt` | crates/kernel/src/allocator/rangeset.rs:200-206 | the same from the first range that touches |
| `RangeSet.RangeSet.ScanRest` | crates/kernel/src/allocator/rangeset.rs:191-203 | the rest of the loop returns iff no remaining slot touches |
| `RangeSet.RangeSet.Insert` | crates/kernel/src/allocator/rangeset.rs:171-186 | on success exactly the union, canonical, with every slot described, used or not; exactly when it panics |
| `RangeSet.FreshInsertReturnsExactly` | crates/kernel/src/allocator/rangeset.rs:175-207 | when `insert` returns on a set whose unused slots are zero |
| `RangeSet.InsertAtLast` | crates/kernel/src/allocator/rangeset.rs:175-207 | a range that touches only the last one always goes in |
| `RangeSet.ApartInsertsReturn` | crates/kernel/src/allocator/rangeset.rs:175-207 | inserting ranges that do not touch, in any order: all return iff there is a slot for each, and the set lists them |
| `RangeSet.AscendingInsertsReturn` | crates/kernel/src/allocator/rangeset.rs:175-207 | inserting ranges in ascending order, overlapping or not: all return iff at most eight remain once joined, and these are the set |
| `RangeSet.InsertPanicsOnZeroedSlot` | crates/kernel/src/allocator/rangeset.rs:190-206 | a concrete insert that panics on a zeroed slot |
| `Pmem.CollectsIff` | crates/kernel/src/pmem.rs:36-45 | collecting succeeds iff every region is sound and all inserts return |
| `Pmem.AscendingCollects` | crates/kernel/src/pmem.rs:36-45 | for ascending regions: iff at most eight ranges remain once joined |
| `Pmem.ApartCollects` | crates/kernel/src/pmem.rs:36-45 | for regions that do not touch: iff there are at most eight |
| `Pmem.CollectRegions` | crates/kernel/src/pmem.rs:34-45 | ends as the inserts decide; the set denotes exactly the memory regions |
| `Pmem.AddRange` | crates/kernel/src/pmem.rs:59-67 | each outcome iff its condition; exactly the whole pages of the range are added; aligned iff it starts well |
| `Pmem.AddReadyIff` | crates/kernel/src/pmem.rs:58-67 | all ranges go in iff each of them does |
| `Pmem.AddRanges` | crates/kernel/src/pmem.rs:58-67 | the first range that does not go in decides; otherwise exactly the whole pages of all of them, aligned iff all start well |
| `Pmem.CrowdedIff` | crates/kernel/src/pmem.rs:48-54 | whether the removal of the kernel range needs a ninth slot depends on the regions and the kernel range alone |
| `Pmem.DecidedByRuns` | crates/kernel/src/pmem.rs:58-67 | outcome, pages and alignment as conditions on the maximal runs of usable addresses |
| `Pmem.Init` | crates/kernel/src/pmem.rs:31-83 | every outcome as a condition on the regions and the kernel range; on success exactly the whole pages of the maximal runs of usable addresses, every free byte in a memory region and outside firmware and kernel, and aligned iff every run starts well |
| `PageEntry.KindMeans` | crates/kernel/src/page.rs:415-426 | the kind of an entry in terms of its bits |
| `PageEntry.FlagsMeans` | crates/kernel/src/page.rs:428-433 | the flags are the low byte without the valid bit |
| `PageEntry.LeafRoundTrip` | crates/kernel/src/page.rs:195-201 | a leaf reads back as its address and flags; with empty flags as a branch |
| `PageEntry.BranchRoundTrip` | crates/kernel/src/page.rs:170-171 | a branch reads back as its table |
| `PageWalk.VpnIsDigit` | crates/kernel/src/page.rs:372-374 | virtual page numbers are base-512 digits of the page number |
| `PageWalk.WalkStays` | crates/kernel/src/page.rs:319-370 | in a tree a walk never dangles and ends at level 0 at the latest |
| `PageWalk.WriteFrame` | crates/kernel/src/page.rs:319-370 | writing one entry changes no walk that does not pass through it |
| `PageWalk.WriteFound` | crates/kernel/src/page.rs:319-357 | every walk through an entry finds what was written there |
| `PageTree.HangKeepsTree` | crates/kernel/src/page.rs:161-182 | hanging in a zeroed table keeps the tables a tree |
| `PageTree.HangKeepsWalks` | crates/kernel/src/page.rs:161-182 | hanging in a zeroed table changes no walk |
| `PageTree.WriteKeepsTree` | crates/kernel/src/page.rs:186-201 | writing a leaf or nothing, over a whole subtree too, keeps a tree |
| `PageTree.OneIncomingBranch` | crates/kernel/src/page.rs:147-184 | every table is the target of one branch, one level down, never the root |
| `PageSpec.SamePathIsSamePage` | crates/kernel/src/page.rs:148-151 | sharing the indices down to a level means lying in the same page |
| `PageSpec.OffsetMeans` | crates/kernel/src/page.rs:285-292 | the masks give the offset in the page |
| `PageSpec.AnswerDoesNotWrap` | crates/kernel/src/page.rs:294-297 | the address of a byte in an aligned page never wraps |
| `PageSpec.LeafUpdatesTranslation` | crates/kernel/src/page.rs:186-201 | a leaf makes exactly its page translate to it |
| `PageSpec.ClearUpdatesTranslation` | crates/kernel/src/page.rs:301-317 | clearing a leaf unmaps exactly its page |
| `PageSpec.EmptyFlagsNeverAnswer` | crates/kernel/src/page.rs:195-201 | for every page size, an entry written without flags never answers with the mapping asked for |
| `PageSpec.MapsIffFlagged` | crates/kernel/src/page.rs:186-201 | writing the entry updates exactly the page iff there is a flag |
| `PageSpec.EmptyFlagsMapNothing` | crates/kernel/src/page.rs:415-426 | at the last level, a page mapped without flags translates to nothing |
| `PageBudget.OnePage` | crates/kernel/src/allocator/buddy.rs:141-179 | on an aligned tiling one page can be had iff a byte is free, and then 4096 fewer are |
| `PageBudget.MissingIsCounted` | crates/kernel/src/page.rs:146-184 | the tables that a descent lacks are the paths that the tree lacks |
| `PageBudget.CanMapIff` | crates/kernel/src/page.rs:123-207 | mapping page after page succeeds iff every page is free and there is memory for the sum of the tables |
| `PageBudget.CanBackIff` | crates/kernel/src/page.rs:228-239 | the same with a frame for every page, on the state of the allocator |
| `PageBudget.PagesFeasibleIff` | crates/kernel/src/page.rs:228-239 | with frames of one page, frames and tables are available iff enough bytes are free |
| `PageTables.PageTable.constructor` | crates/kernel/src/page.rs:75-82 | an empty table maps nothing |
| `PageTables.PageTable.Grow` | crates/kernel/src/page.rs:161-174 | a page from the allocator becomes a table, owned once; it fails iff no byte is free |
| `PageTables.PageTable.StepDown` | crates/kernel/src/page.rs:148-183 | one level down without changing a walk; a leaf stops it before any write; out of memory only when nothing is free and a table is missing |
| `PageTables.PageTable.Descend` | crates/kernel/src/page.rs:146-184 | the loop reaches the table for the level and changes no walk; it takes exactly the missing tables, and runs out of memory iff there is too little for them |
| `PageTables.PageTable.Map` | crates/kernel/src/page.rs:123-207 | success updates exactly the page iff there is a flag, and the processor goes on to read every address as the kernel does iff the page is accessible; each error iff its condition, out of memory included; on error no translation changes; already mapped leaves all as it was |
| `PageTables.PageTable.Place` | crates/kernel/src/page.rs:146-206 | the same once the arguments have been checked |
| `PageTables.BadAddressMeans` | crates/kernel/src/page.rs:136-139 | both address tests together refuse exactly the addresses from the maximum on |
| `PageTables.PageTable.Traverse` | crates/kernel/src/page.rs:319-370 | the loop computes the walk and never dangles |
| `PageTables.PageTable.TranslateAddress` | crates/kernel/src/page.rs:278-299 | computes the translation |
| `PageTables.PageTable.Unmap` | crates/kernel/src/page.rs:301-317 | exactly the page with the address becomes unmapped; each outcome iff its condition |
| `PageTables.PageTable.GiveBack` | crates/kernel/src/page.rs:393 | one page goes back; an ignored error leaves a merged block live |
| `PageTables.PageTable.Drop` | crates/kernel/src/page.rs:390-396 | every subtable goes back to the allocator, once, and nothing else does, but for merged blocks below 16 MiB whose error is ignored |
| `HardwareWalk.WalksAgree` | crates/kernel/src/page.rs:278-370 | on conforming tables the kernel's walk and that of section 4.3.2 of the RISC-V Privileged Architecture reach the same byte with the same flags |
| `HardwareWalk.TranslateAgrees` | crates/kernel/src/page.rs:278-299 | so what `translate` answers is what the processor reaches |
| `HardwareWalk.AccessAgrees` | crates/kernel/src/page.rs:278-299 | a load, store or fetch succeeds iff the address is sign-extended, mapped, and the flags that `translate` reports allow it |
| `HardwareWalk.LeafConforms` | crates/kernel/src/page.rs:199-201 | a leaf conforms iff its page is accessible: readable or executable, not writable without being readable, below 2^56 |
| `HardwareWalk.WriteConforms` | crates/kernel/src/page.rs:186-201 | after a write the tables conform iff the new entry does |
| `HardwareWalk.HwArrives` | crates/kernel/src/page.rs:186-201 | the walk of the processor comes to the entry that was written |
| `HardwareWalk.InaccessibleDiffers` | crates/kernel/src/page.rs:186-201 | on every address of a page mapped without being accessible, the two walks differ |
| `HardwareWalk.ReadAlikeIffAccessible` | crates/kernel/src/page.rs:186-201 | after a write the two walks agree on every address iff the page is accessible |
| `HardwareWalk.HangConforms` | crates/kernel/src/page.rs:161-182 | a new table keeps the tables conforming |
| `FrameMapping.FrameFitsPage` | crates/kernel/src/page.rs:221-226 | a frame is as large as its page |
| `FrameMapping.FrameAligned` | crates/kernel/src/page.rs:141-144 | a frame always passes the physical alignment check |
| `FrameMapping.FramesAreDisjoint` | crates/kernel/src/page.rs:228-239 | frames share no byte with each other or with a page table |
| `FrameMapping.PageDecided` | crates/kernel/src/page.rs:228-239 | what is wrong with a page, in the order in which the code finds out |
| `FrameMapping.MapFrame` | crates/kernel/src/page.rs:229-239 | one iteration: a new frame is held and its page mapped; nothing is taken but that frame and new tables; which error, or none, from the state before |
| `FrameMapping.MapNext` | crates/kernel/src/page.rs:229-239 | behind any number of pages: what it maps, its error, and the error that the rest of the loop would end with |
| `FrameMapping.FitsIffNoError` | crates/kernel/src/page.rs:209-242 | no page has an error iff the range is aligned, in the address space and free, with frames and memory for its tables |
| `FrameMapping.MapAlloc` | crates/kernel/src/page.rs:209-242 | exactly the pages backed by the reported frames are mapped; frames are new, distinct and no tables; nothing else is taken but new tables and, on failure, at most one frame; success iff every page fits, otherwise the error of the first page that does not; exactly when it panics |
| `FrameMapping.FreeFrame` | crates/kernel/src/page.rs:260-273 | one iteration: the page is unmapped, its frame goes back; exactly when that fails |
| `FrameMapping.Free` | crates/kernel/src/page.rs:244-276 | each refusal iff its condition, with nothing changed; otherwise the range becomes unmapped, nothing else changes, exactly its frames go back once each; an unmapped page panics, a null buddy fails |
| `FrameMapping.MapAllocBacks` | crates/kernel/src/page.rs:209-276 | what `map_alloc` leaves is what a matching `free` needs |
| `FrameMapping.MapAllocThenFree` | crates/kernel/src/page.rs:209-276 | the two calls together: every other address translates as before, and the live blocks grew by exactly the new tables; when the first succeeds and which error it has; the second succeeds where all memory is above 16 MiB |
| `DirectMap.MapMegapage` | crates/kernel/src/boot.rs:93-102 | one iteration: the page is mapped, or the rest of the loop cannot be done |
| `DirectMap.MapPhysical` | crates/kernel/src/boot.rs:92-103 | the loop returns iff the region starts at a 2 MiB boundary, its pages are in the address space and free, and there is memory for the tables; then `phys2virt` of every byte of the region translates back to it, a load and a store of the kernel there reach it, and nothing outside its pages changes |
| `DirectMap.DirectAccess` | crates/kernel/src/boot.rs:96-101 | on conforming tables the processor lets the kernel load and store at every direct-mapped address of the lower half |
| `DirectMap.AllocateLayout` | crates/kernel/src/pmem.rs:94-126 | a new live block of the least sufficient order, at its direct-mapped address, or a panic where that leaves the word; exactly when there is none |
| `DirectMap.DeallocateLayout` | crates/kernel/src/pmem.rs:128-148 | frees the block at the translation of the pointer, or at the pointer where there is none; exactly when that fails or panics |
| `DirectMap.LeadsBackIff` | crates/kernel/src/pmem.rs:131-134 | the pointer of a physical address leads back to it iff the loop, or an earlier mapping, covers it; elsewhere the buddy allocator receives the virtual address |
| `DirectMap.AllocateThenDeallocateLayout` | crates/kernel/src/pmem.rs:94-148 | inside the direct map, allocation and return restore the live blocks |
| `DirectMap.BootThenRoundTrip` | crates/kernel/src/boot.rs:92-103 | boot, allocation and return: only the tables of the direct map remain live; exactly when the mapping succeeds |
| `TicketMutex.StepKeeps` | crates/riscv/src/sync.rs:30-42 | every atomic step keeps: tickets distinct, filling `[now_serving, next_ticket)`, only the served one holding |
| `TicketMutex.UnlockKeeps` | crates/riscv/src/sync.rs:69-73 | dropping the guard serves exactly the next ticket |
| `TicketMutex.RunKeeps` | crates/riscv/src/sync.rs:27-73 | over every interleaving; each unlock serves one more ticket |
| `TicketMutex.MutualExclusionAndFifo` | crates/riscv/src/sync.rs:27-73 | over every run: outstanding tickets distinct and filling `[now_serving, next_ticket)`, at most one holder and with the ticket served, entry in ticket order, never stuck while a ticket is outstanding |
| `TicketMutex.EntersAfterItsPredecessors` | crates/riscv/src/sync.rs:30-42 | a waiter may enter iff exactly its predecessors have left |
| `TicketMutex.PollEnters` | crates/riscv/src/sync.rs:33-35 | a poll takes the lock iff the ticket is being served, and does nothing otherwise |
| `TicketMutex.EveryThreadCanEnter` | crates/riscv/src/sync.rs:27-73 | after every run, every thread has a continuation in which it holds the lock |
| `ReaderWriterLock.BitOperations` | crates/riscv/src/sync.rs:121-126 | testing and clearing the writer bit, on the word |
| `ReaderWriterLock.StepKeeps` | crates/riscv/src/sync.rs:119-193 | every atomic step, wrapping included, keeps the count in the word |
| `ReaderWriterLock.WriterExcludesAll` | crates/riscv/src/sync.rs:115-193 | over every interleaving: the word is the count, a writer excludes everyone, and zero means idle |
| `ReaderWriterLock.StepEnters` | crates/riscv/src/sync.rs:119-193 | a reader gets in iff no writer holds the lock and steps back otherwise; a writer iff the lock is idle; whoever leaves is out |
| `ReaderWriterLock.EveryThreadCanEnter` | crates/riscv/src/sync.rs:115-193 | after every run, every thread has a continuation in which it reads, and one in which it writes |
| `FdtTokens.AlignUp4Means` | crates/devicetree/src/lib.rs:437-440 | alignment to four adds exactly the padding |
| `FdtTokens.NulPosition` | crates/devicetree/src/lib.rs:432-434 | the first NUL |
| `FdtTokens.NextOfToken` | crates/devicetree/src/parse.rs:72-107 | an encoded token is read back and the reader stands behind its padding |
| `FdtTokens.TokenizerInvertsEncoding` | crates/devicetree/src/parse.rs:69-108 | any stream, with any NOPs and padding, yields exactly its tokens, then stops |
| `FdtTree.NodesArePreOrder` | crates/devicetree/src/lib.rs:350-376 | `Nodes` reports the nodes in pre-order with true depths, and goes on behind them |
| `FdtTree.TreeNodes` | crates/devicetree/src/lib.rs:350-376 | on a whole tree up to 255 levels: all its nodes, then the end, no overflow |
| `FdtTree.NodesOverflow` | crates/devicetree/src/lib.rs:356-370 | a deeper tree makes the level overflow |
| `FdtTree.ChildrenAreDirect` | crates/devicetree/src/node.rs:140-179 | `Children` reports exactly the direct children, in order, then ends without overflow |
| `FdtTree.ChildrenOverflow` | crates/devicetree/src/node.rs:146-170 | below a node that goes deeper than level 255 it overflows |
| `FdtTree.PropsAreOwn` | crates/devicetree/src/node.rs:187-213 | `Properties` reports exactly the node's own properties, with their names, up to the first name that is missing |
| `FdtTree.NamedProps` | crates/devicetree/src/node.rs:193-206 | the properties before the first one whose name cannot be looked up, each with its name and data |
| `FdtTree.StringAtMeans` | crates/devicetree/src/lib.rs:281-285 | a name is the bytes from its offset to the next NUL; it is missing iff there is none |
| `FdtSearch.FindNodeIsGreedy` | crates/devicetree/src/lib.rs:212-273 | for every tree, `find_node` is greedy descent by name prefix, without backtracking, unless the search comes past or into a level that overflows |
| `FdtSearch.ShallowNeverOverflows` | crates/devicetree/src/lib.rs:141-273 | below 255 levels neither search overflows |
| `FdtSearch.StartsWithMeans` | crates/devicetree/src/lib.rs:174 | the prefix test, byte by byte |
| `FdtSearch.SplitTerminatorMeans` | crates/devicetree/src/lib.rs:146 | no part has a slash, and the parts with slashes between them are the path again, but for one slash at its end |
| `FdtSearch.PartsUnique` | crates/devicetree/src/lib.rs:146 | no other parts have these properties |
| `FdtSearch.SlashFindsRoot` | crates/devicetree/src/lib.rs:95-98 | the path of one slash finds the root of every tree |
| `FdtSearch.FindNodesIsSearchAll` | crates/devicetree/src/lib.rs:141-210 | for every tree, `find_nodes` is the search of the tree with levels that overflow |
| `FdtSearch.FindNodesAreSiblings` | crates/devicetree/src/lib.rs:141-210 | `find_nodes` reports exactly the matching siblings under the greedy parent, in order; it overflows iff a visited node goes too deep, and has then reported the first of them |
| `FdtSearch.FindNodeIsFirstOfFindNodes` | crates/devicetree/src/lib.rs:141-273 | for every tree, the first of `find_nodes` is the result of `find_node`; it ends or overflows at once iff `find_node` does |
| `FdtReader.TokenIter.NextU32` | crates/devicetree/src/parse.rs:58-66 | reads four big-endian bytes and advances, or leaves the buffer |
| `FdtReader.TokenIter.Next` | crates/devicetree/src/parse.rs:72-107 | computes the next token, the stop or the out-of-bounds panic, and advances |
| `FdtReader.Nodes.Next` | crates/devicetree/src/lib.rs:353-375 | takes the first node off those still to be reported; end and overflow told apart |
| `FdtReader.Children.Next` | crates/devicetree/src/node.rs:143-178 | takes the first child off those still to be reported; end and overflow told apart |
| `FdtReader.Properties.Next` | crates/devicetree/src/node.rs:190-212 | takes the first property off those still to be reported, with its name from the strings block |
| `FdtReader.FindNodes.Next` | crates/devicetree/src/lib.rs:156-209 | takes the first match off those still to be reported; end and overflow told apart |
| `FdtReader.FindNode` | crates/devicetree/src/lib.rs:212-273 | the loop over bytes computes the search over tokens, level overflow included |
| `FdtReader.FindInTree` | crates/devicetree/src/lib.rs:212-273 | on the bytes of any tree: greedy descent, and a panic iff the search comes past or into a level that overflows |
| `FdtReader.NodesOfTree` | crates/devicetree/src/lib.rs:123-130 | on the bytes of any tree: all its nodes in pre-order, and a panic iff it has more than 255 levels |
| `FdtReader.ChildrenOfNode` | crates/devicetree/src/node.rs:36-45 | from the bytes behind a node: its direct children, and a panic iff the levels below overflow |
| `FdtReader.FindProp` | crates/devicetree/src/node.rs:47-50 | the first property of that name, before the first name that is missing |
| `FdtReader.FindAllInTree` | crates/devicetree/src/lib.rs:141-210 | on the bytes of any tree: exactly the matching siblings, and a panic iff a visited node goes too deep |

## Left out

- Memory contents: list nodes, page tables and frames are separate maps keyed by physical address. That a page is used for one of them at a time is what the block ownership proves.
- `phys2virt` inside the allocator and the page walk is the identity; `DirectMap` proves the round trip through the fixed offset.
- BuddyAllocator.Allocator.AddRegion: its first argument must leave room for the alignment addition, which panics otherwise, and the region must be disjoint from the memory already added.
- BuddyAllocator.Allocator.Allocate: not stated in place for a split that leaves its block, because the write then lands outside the managed memory or in another list; `BuddyOps.AllocateSplits` covers the values.
- PageTables.PageTable.Drop: the root table and the growth of the subtable vector are not modelled.
- FrameMapping.MapFrame: requires a flag, because without one the tables are no tree any more.
- FrameMapping.MapNext: requires a flag, for the same reason.
- FrameMapping.MapAlloc: requires a flag, for the same reason.
- FrameMapping.MapAllocThenFree: requires a flag, for the same reason, and at least one page.
- FrameMapping.Free: the mapped pages must be backed by live frames and be of one size, as its callers promise.
- DirectMap.DeallocateLayout: the block named must be live and no page table, as its callers promise.
- TicketMutex.MutualExclusionAndFifo: counters are unbounded; the wrap-around after 2^64 tickets is not modelled.
- Weak memory orderings: the locks are sequentially consistent interleavings of their atomic steps.
- HardwareWalk.AccessAgrees: a processor that sets the accessed and dirty bits itself is not modelled, nor are the physical memory checks.
- Devicetree header, memory reservations, `Strings` and `Regions`: they would only add easy members. Names are NUL-free byte sequences; UTF-8 is not modelled.
- Assembly, CSR access, TLB fences, traps, hart start, SBI calls, drivers, logging and kernel relocation: hardware effects and output.
- `debug` of page tables and `set_vpn`, satp packing, `alloc_kernel_stack`: they would only add easy members.
