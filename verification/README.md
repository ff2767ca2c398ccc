# Verified model of the eira kernel core

`eira` is a small x86_64 microkernel written in Rust. This project models its memory stack and its
scheduler in Dafny and proves what they keep over every run:

- the kernel heap (`mm/heap.rs`), an intrusive address-ordered free list, at the level of the words
  the headers occupy;
- the virtual-range allocator (`mm/vm/region.rs`), a sorted array of 64 slots;
- the physical frame allocator (`mm/allocator/bitmap.rs`), a bitmap plus a free list threaded through
  the free frames themselves, and its boot initialisation (`mm/init.rs`);
- the four-level page tables (`arch/x86_64/paging`): the bit layout of an entry, the walk, `map`,
  `unmap`, `remap` and `translate`, on frames of 512 words;
- address spaces (`mm/address_space.rs`), which tie the three together, with rollback and TLB state;
- the priority scheduler (`task/scheduler.rs`) and the stack-level context switch
  (`arch/x86_64/context.rs`).

## How it is organised

| file | contents |
|---|---|
| `Bits`, `Addr`, `Results` | bit operations on naturals with their laws, 64-bit words, alignment |
| `FreeRuns`, `Pools` | the specification both byte allocators meet: free runs, lowest fit, every-run laws |
| `Region` | the slot array |
| `HeapList`, `Heap` | the list in memory and the heap |
| `PhysMem`, `Frames`, `Boot` | frames, the frame allocator, boot |
| `Steps`, `Moves` | the smallest changes to tables and free list, and what they do to ownership |
| `Entry`, `PageTables`, `Mapper` | entries, the tree invariant, the mapper |
| `Hardware` | the processor's own walk and the permissions it grants |
| `Refinement` | what `translate` says before and after each mapper step |
| `Ownership`, `Batch`, `Demand`, `AddressSpaces` | who holds a frame, page loops, frames needed, address spaces |
| `Kernel` | runs of smallest changes over several address spaces and frames held by clients |
| `Machine` | objects: several address spaces on one allocator, any sequence of commands, from boot |
| `Witnesses` | inputs on which documented promises fail |
| `Scheduler`, `RoundRobin` | the scheduler and its fairness |
| `ContextSwitch` | a machine with stacks and the switch |

The main results:

1. *Both byte allocators are the same function of the live set.* A sorted list of maximal runs is
   determined by the bytes it covers, so after any history the free list depends only on which blocks
   are live; bytes are conserved; allocation finds the lowest address that can serve the request and
   fails only if there is none; freeing what was just allocated restores the list.
2. *The heap's list lives in the memory it manages.* The methods write headers into free memory word
   by word; the list stays linked, no client write to a live block disturbs it, and no remainder is
   too small to hold a header.
3. *The frame allocator is a stack.* Any interleaving of allocations, releases (also invalid ones)
   and writes by owners refines a LIFO stack and a set of outstanding frames.
4. *The page tables are a tree, and `translate` reads a flat map from pages to frames.* The hardware
   walk equals the tree lookup; each operation changes the translation of one page only. The processor,
   by its own rules on the raw words, grants exactly the permissions of the leaf.
5. *The outcome of `alloc_and_map` is a function of the state before it*: success, each error and
   each panic. It succeeds exactly when no page of the lowest fit is mapped and the free frames cover
   the pages and the missing tables; on an error everything but new tables is as before.
6. *Over every kernel run each donated frame is in exactly one place*: the free list, one table node,
   one leaf, or one client's hand. A run is made of the smallest changes, each given by its effect on
   a state in which it is possible, so this holds inside the page loops too. The methods on several
   address spaces that share an allocator are proved to make such runs, for any sequence of commands
   from boot. Two translations that reach the same frame are the same page of the same space, and
   memory that was never donated is not written.
7. *Scheduling*: over every run each live task is in exactly one place with the priority it was given,
   exited tasks never return, a task that blocks is not run before it is unblocked; under yields the
   tasks of the top priority run in rotation, each once per round.
8. *Context switching*: a task resumes with the registers it was suspended with, whatever ran
   between, and a new task starts at its entry with an aligned stack; the word-level machine is proved
   to behave so for any legal sequence of events.

Classes model the objects the source updates in place. Ghost fields (`live`, `blocks`, `stack`,
`out`, `space`, `tlb`) hold the abstract state that the real fields are tied to by `Valid()`. Panics
and failed `expect`s are outcomes with their conditions.

## Where the code and its documentation differ

The model follows the code.

- `MapError::FrameAllocationFailed` is documented for exhausted memory; `walk_or_create` calls
  `mm::allocate`, which panics instead. `Mapper.PageTableMapper.Map` states exactly when, and that
  the error is never returned; `Witnesses.MapPanicsOnEmptyList` is an input.
- The region tracker tests its capacity before merging, so a full tracker rejects a region whose
  insertion would have freed a slot (`Region.MergeableYetRejected`). The documented condition is met
  exactly unless the tracker is full and the region touches a free address
  (`Region.FullMeansUntouched` and the last clause of `Region.RegionAllocator.AddRegion`).
- `RegionAllocator::alloc` expects a slot to be available after the removal. That fails exactly when
  all 64 slots are in use and the request is served from the middle of one
  (`Region.SplitAtFullCapacity`, and the `Panic` clause of `Region.RegionAllocator.Alloc`).
- `pick_next` starts from priority 0 with a strict comparison: a ready task of priority 0 is never
  picked (`RoundRobin.ReadyButNeverPicked`; the exact condition is `RoundRobin.PickedWhenEligible`).
- `rollback_range` ignores its TLB flushes and `alloc_and_map` does not flush on the failure path:
  after a failed mapping cached translations are stale exactly if there was a free frame and the
  first page of the range was not mapped (`AddressSpaces.StaleWhenRolledBack`, with an input in
  `Witnesses.RollbackLeavesStale`).
- `align_up` in the heap overflows on a block within one alignment of the top of memory. On wrapping
  words the block is skipped, which is right; with overflow checks a request that cannot be served
  panics instead of returning `None` (`Heap.HeapAllocator.Alloc`).
- The free list of frames ends in the all-ones word, not in zero.
- A bitmap bit of zero means "not outstanding", also for frames that were never donated.
- The idle task is created through the same counter as the others and so gets id 1.

## Model

| member | source | states |
|---|---|---|
| Addr.MaskUpIsAlignUp | eira/src/mm/heap.rs:388-390 | The add-and-mask expression is the least multiple of the alignment that is not below the address |
| Addr.IsAlignedIsDivisible | eira/src/mm/addr.rs:236-239 | The mask test for alignment is divisibility |
| Addr.PowerOfTwoIff | eira/src/mm/vm/region.rs:188-190 | The power-of-two test accepts exactly the powers of two |
| Addr.OverflowMeansNoAlignedAddress | eira/src/mm/vm/region.rs:192-207 | When rounding up overflows 64 bits no aligned address of the slot is left, so skipping the slot loses nothing |
| Addr.WrapUpIs | eira/src/mm/heap.rs:388-390 | On wrapping words the mask expression is the aligned address, or 0 exactly where the addition overflows |
| FreeRuns.FreeListIsCanonical | eira/src/mm/heap.rs:297-355 | Two sorted lists of maximal runs that cover the same bytes are equal |
| FreeRuns.TotalIsCardinality | eira/src/mm/vm/region.rs:246-248 | The sum of the sizes of disjoint runs is the number of bytes they cover |
| FreeRuns.SpanInOneRun | eira/src/mm/heap.rs:297-355 | A free interval lies in a single run of a maximal list |
| FreeRuns.FirstFitIsLowest | eira/src/mm/vm/region.rs:192-209 | The first run that serves a request gives the lowest aligned address whose whole block is free |
| FreeRuns.NoRunServesNoFit | eira/src/mm/vm/region.rs:192-209 | If no run serves a request no aligned free block of that size exists anywhere |
| FreeRuns.CarveIsRemoval | eira/src/mm/vm/region.rs:211-227 | Replacing a run by the fragments left and right of a block removes exactly the block and keeps the list maximal |
| FreeRuns.CoalesceIsUnion | eira/src/mm/heap.rs:297-355 | Inserting a run with merging on both sides adds exactly its bytes and keeps the list maximal |
| FreeRuns.RunCount | eira/src/mm/vm/region.rs:100-118 | The maximal list of a set has one entry per address of the set whose predecessor is outside it |
| Pools.AllocKeepsPool | eira/src/mm/heap.rs:191-272 | Allocation keeps free and live disjoint and together equal to the pool |
| Pools.FreeKeepsPool | eira/src/mm/heap.rs:286-295 | Release of a live block keeps the same, and the block was not free before |
| Pools.BytesAreConserved | eira/src/mm/heap.rs:62-85 | Free bytes plus live bytes are the bytes of the pool |
| Pools.FreeListFollowsLiveSet | eira/src/mm/heap.rs:297-355 | The free list is determined by the pool and the multiset of live blocks |
| Pools.AllocThenFreeRestores | eira/src/mm/vm/region.rs:183-243 | Freeing what was just allocated gives back the identical free list |
| Pools.GapsNeedLiveBlocks | eira/src/mm/vm/region.rs:100-118 | In a one-range pool the k-th free run has at least k live blocks before it |
| Pools.FreeRunsAtMostLivePlusOne | eira/src/mm/vm/region.rs:100-118 | A one-range pool has at most one free run more than live blocks |
| Pools.EveryRunKeepsPool | eira/src/mm/heap.rs:191-295 | Every run of allocations and releases keeps the pool invariant |
| Pools.RunConservesBytes | eira/src/mm/heap.rs:62-85 | Every run conserves free plus live bytes |
| Pools.RunsAgreeOnFreeList | eira/src/mm/heap.rs:297-355 | Two runs, in any order of operations, that end with the same live blocks end with the same free list |
| Pools.StepIsDeterministic | eira/src/mm/heap.rs:191-272 | The address handed out and the next state are determined by the state, size and alignment |
| Region.RegionAllocator.constructor | eira/src/mm/vm/region.rs:126-138 | An empty tracker |
| Region.RegionAllocator.InsertAt | eira/src/mm/vm/region.rs:262-270 | Inserts at a position shifting the rest up; fails exactly when all 64 slots are in use, changing nothing |
| Region.RegionAllocator.RemoveAt | eira/src/mm/vm/region.rs:278-284 | Removes a position shifting the rest down |
| Region.RegionAllocator.TryMergeAt | eira/src/mm/vm/region.rs:290-308 | Merges the slot with its right and left neighbour where they touch |
| Region.InsertThenMergeIsCoalesce | eira/src/mm/vm/region.rs:150-162 | Insertion followed by the two merges is the coalescing insertion of the specification |
| Region.RegionAllocator.PartitionPoint | eira/src/mm/vm/region.rs:150-162 | Binary search finds the insertion point of an address |
| Region.RegionAllocator.AddRegion | eira/src/mm/vm/region.rs:150-162 | Adds exactly the bytes of the region, or fails with `TrackerFull` exactly at 64 slots; the documented "full after merging" is met exactly unless the tracker is full and the region touches a free address |
| Region.RegionAllocator.FindFit | eira/src/mm/vm/region.rs:192-209 | The scan finds the first slot that serves the request, or none does |
| Region.RegionAllocator.SplitSlot | eira/src/mm/vm/region.rs:211-227 | Removes the slot and reinserts its non-empty fragments; fails exactly when there are two and all slots were in use |
| Region.RegionAllocator.Alloc | eira/src/mm/vm/region.rs:183-230 | Lowest fit taken exactly; each error, the bad request spelled out, and the failed `expect` if and only if its condition holds |
| Region.RegionAllocator.Free | eira/src/mm/vm/region.rs:241-243 | A live region goes back to the free set; `TrackerFull` exactly at 64 slots |
| Region.RegionAllocator.FreeBytes | eira/src/mm/vm/region.rs:246-248 | The number of free bytes |
| Region.SlotFitsIsRunServes | eira/src/mm/vm/region.rs:192-207 | The scan's checked arithmetic accepts a slot exactly when the slot contains an aligned block |
| Region.CarveKeepsSlots | eira/src/mm/vm/region.rs:211-227 | Fragments are page-aligned non-empty regions inside the address space |
| Region.CoalesceKeepsSlots | eira/src/mm/vm/region.rs:150-162 | So is a merged region, unless it would be the whole 64-bit space |
| Region.SplitIsAtTheFit | eira/src/mm/vm/region.rs:211-227 | Two fragments remain exactly when both neighbours of the lowest fit are free |
| Region.SlotsAfterTake | eira/src/mm/vm/region.rs:211-227 | The number of slots after an allocation, told from the free set before it |
| Region.SlotsAreRuns | eira/src/mm/vm/region.rs:211-227 | The slots an allocation needs are the runs of the free set it leaves |
| Region.SeededAllocator | eira/src/mm/vm/mod.rs:47-66 | A tracker seeded with one range has that range as its pool and nothing live |
| Region.RoomWhileFewLive | eira/src/mm/vm/region.rs:183-243 | With at most 62 live regions a one-range tracker is never full, so no `expect` fails |
| Region.MergeableYetRejected | eira/src/mm/vm/region.rs:150-162 | A full tracker and a region that fills a gap: the merged free set fits, yet the code rejects the region |
| Region.FullMeansUntouched | eira/src/mm/vm/region.rs:141-162 | The free set with the region added is too large for the tracker exactly when the tracker is full and the region touches no free address |
| Region.SplitAtFullCapacity | eira/src/mm/vm/region.rs:211-227 | A full tracker and a request whose split needs a 65th slot |
| HeapList.AppendBlock | eira/src/mm/heap.rs:315-324 | Linking a header after a block extends the list in memory by that block |
| HeapList.ReplaceBlock | eira/src/mm/heap.rs:237-242 | Rewriting a header in place replaces that block only |
| HeapList.UnlinkBlock | eira/src/mm/heap.rs:243-245 | Redirecting the previous link removes that block only |
| HeapList.Splice | eira/src/mm/heap.rs:326-354 | Rewriting one header so that it spans and skips its neighbours replaces those blocks by the merged one |
| Heap.HeapAllocator.constructor | eira/src/mm/heap.rs:104-114 | An empty heap |
| Heap.HeapAllocator.FindBlock | eira/src/mm/heap.rs:201-233 | The walk over the links stops at the first block that serves the request; with overflow checks it panics exactly if none serves and a free block starts within one alignment of the top of memory |
| Heap.HeapAllocator.TakeBlock | eira/src/mm/heap.rs:235-270 | The word writes turn the list into the list with the block carved out, and the bytes consumed are exactly the size |
| Heap.HeapAllocator.Alloc | eira/src/mm/heap.rs:191-272 | Served exactly if the least multiple of 16 that is at least 16 and at least the size has a free place at a multiple of both alignments; then the lowest such place becomes a live block of that size, holding all requested bytes, and leaves the free set; otherwise a panic instead of `None` exactly under overflow checks with a block near the top |
| Heap.BlockSizeIsLeast | eira/src/mm/heap.rs:198-199 | The rounded size is the least block that holds the request |
| Heap.BlockAlignIsBoth | eira/src/mm/heap.rs:198-199 | A multiple of the raised alignment is a multiple of the requested one and of 16 |
| Heap.HeapAllocator.FindPosition | eira/src/mm/heap.rs:298-315 | The walk finds the insertion point and the predecessor |
| Heap.HeapAllocator.MergeNext | eira/src/mm/heap.rs:326-339 | Absorbing the following block when it touches |
| Heap.HeapAllocator.MergePrevious | eira/src/mm/heap.rs:341-354 | Being absorbed by the preceding block when it touches |
| Heap.HeapAllocator.InsertAndCoalesce | eira/src/mm/heap.rs:297-355 | The list in memory becomes the coalesced list |
| Heap.HeapAllocator.Dealloc | eira/src/mm/heap.rs:286-295 | The live block of the least size for the request, with all its bytes, joins the free set; counters move, everything else stays |
| Heap.HeapAllocator.AddMemory | eira/src/mm/heap.rs:141-164 | Donates the range trimmed to 16 bytes, or rejects it exactly when null, misaligned or too small |
| Heap.HeapAllocator.ClientWrite | eira/src/mm/heap.rs:191-272 | A write into live memory keeps the whole heap invariant |
| Heap.HeapAllocator.FreeListLen | eira/src/mm/heap.rs:358-366 | Walking the links counts the blocks |
| Heap.HeapAllocator.IsBalanced | eira/src/mm/heap.rs:73-84 | Balanced exactly when nothing is live, and then all donated memory is free |
| Heap.CarveKeepsBlocks | eira/src/mm/heap.rs:235-267 | Each remainder is empty or large enough for a header: no sliver is lost |
| Heap.CoalesceKeepsBlocks | eira/src/mm/heap.rs:297-355 | Merged blocks keep size and alignment, and the result is the release step |
| Heap.TestIsRunServes | eira/src/mm/heap.rs:211-233 | The tests of the loop, on wrapping words, accept a block exactly when it contains an aligned block of the size |
| Heap.OverflowComesLast | eira/src/mm/heap.rs:201-233 | A block on which `align_up` overflows comes after every block that serves the request |
| PhysMem.PhysicalMemory.Store | eira/src/arch/x86_64/paging/table.rs:113-115 | One word of one frame changes |
| PhysMem.PhysicalMemory.Zero | eira/src/arch/x86_64/paging/table.rs:91-95 | One frame becomes zero |
| Frames.BitmapAllocator.constructor | eira/src/mm/allocator/bitmap.rs:83-102 | No frame is free or outstanding |
| Frames.BitmapAllocator.IsAllocated | eira/src/mm/allocator/bitmap.rs:168-178 | The bit says outstanding; frames beyond the bitmap count as allocated |
| Frames.BitmapAllocator.FreeFrame | eira/src/mm/allocator/bitmap.rs:226-240 | The frame becomes the head of the list threaded through the frames |
| Frames.BitmapAllocator.Allocate | eira/src/mm/allocator/bitmap.rs:245-281 | Hands out the most recently freed frame; `None` exactly when the list is empty |
| Frames.BitmapAllocator.Deallocate | eira/src/mm/allocator/bitmap.rs:283-291 | Accepts a frame exactly when it is outstanding, so a double free is refused and changes nothing |
| Frames.BitmapAllocator.AddRegion | eira/src/mm/allocator/bitmap.rs:116-140 | Adds exactly the whole frames inside the range; its `expect` fails exactly for a base in the last page |
| Frames.BitmapAllocator.OwnerWrite | eira/src/mm/allocator/bitmap.rs:226-240 | An owner's write to an outstanding frame keeps list and bitmap intact |
| Frames.MarksAfterAlloc | eira/src/mm/allocator/bitmap.rs:182-193 | Or-ing the mask sets this frame's bit and no other |
| Frames.MarksAfterFree | eira/src/mm/allocator/bitmap.rs:197-208 | And-ing the complement clears this frame's bit and no other |
| Frames.InvariantIgnoresOwnedFrames | eira/src/mm/allocator/bitmap.rs:245-268 | The allocator state does not depend on the contents of outstanding frames |
| Frames.Execute | eira/src/mm/allocator/bitmap.rs:271-291 | Any sequence of allocations, releases and owner writes behaves as a stack and a set |
| Frames.LifoConserves | eira/src/mm/allocator/bitmap.rs:271-291 | Every run keeps each frame once, free or outstanding, and conserves the union |
| Boot.MaxPhys | eira/src/mm/init.rs:57-63 | The highest end of a usable entry, or none exactly if no entry is usable |
| Boot.BitmapCovers | eira/src/mm/init.rs:65-68 | The rounded bitmap has a bit for every frame below the highest end |
| Boot.BitmapIsLeast | eira/src/mm/init.rs:65-68 | No smaller whole number of pages has a bit per frame |
| Boot.FindHome | eira/src/mm/init.rs:78-83 | The first usable entry long enough for the bitmap |
| Boot.PartsOutsideBitmap | eira/src/mm/init.rs:109-133 | The parts below and above the bitmap hold disjoint frames, exactly the whole frames of the entry that share no byte with the bitmap |
| Boot.DonateEntry | eira/src/mm/init.rs:109-133 | One entry contributes its whole frames that share no byte with the bitmap |
| Boot.Init | eira/src/mm/init.rs:50-144 | The donated frames are the whole frames of usable entries that share no byte with the bitmap, each covered by it; fails exactly when no usable entry can hold it |
| Entry.EntryFlagsAre | eira/src/arch/x86_64/paging/entry.rs:100-120 | The hardware bits are a sum of one bit per portable flag, execute inverted |
| Entry.FlagsRoundTrip | eira/src/arch/x86_64/paging/entry.rs:100-144 | To hardware flags and back adds READ and changes nothing else |
| Entry.PackRoundTrip | eira/src/arch/x86_64/paging/entry.rs:180-194 | Frame and flags come back from a packed entry |
| Entry.TableEntry | eira/src/arch/x86_64/paging/mapper.rs:145-153 | A table entry is present, writable, for users and nothing else, not huge, and names its frame |
| Entry.LeafEntry | eira/src/arch/x86_64/paging/mapper.rs:197-197 | A leaf entry is present, not huge, and gives back frame and flags for every flag set |
| Entry.TableBits | eira/src/arch/x86_64/paging/mapper.rs:145-148 | Bits 0, 1 and 2 of a table entry are set, bits 7 and 63 clear, bits 12 to 51 the frame |
| Entry.LeafBits | eira/src/arch/x86_64/paging/entry.rs:100-120 | Each flag of a page stands at its own bit of the entry, execution inverted at bit 63 |
| PageTables.IndexIsField | eira/src/arch/x86_64/paging/table.rs:54-62 | The shift and mask select the nine-bit field of the level |
| PageTables.CanonicalIsRange | eira/src/mm/addr.rs:215-222 | The sign-extension test is membership in the lower or the upper half |
| PageTables.PageNodeIsInjective | eira/src/arch/x86_64/paging/table.rs:54-62 | Two canonical addresses with the same four indices are in the same page |
| PageTables.WalkIsTree | eira/src/arch/x86_64/paging/mapper.rs:90-114 | The walk over raw words reaches exactly the leaf the tree has for the page |
| PageTables.TranslateIsFlat | eira/src/arch/x86_64/paging/mapper.rs:256-266 | `translate` is a lookup in the flat map from pages to frames and flags, plus the offset |
| Hardware.ProcessorSeesLeaves | eira/src/arch/x86_64/paging/mapper.rs:121-200 | The processor, walking the raw words by its own rules, reaches a page exactly when it has a leaf, and grants write, user access and execution exactly as the flags of the leaf say |
| Hardware.ProcessorAfterMap | eira/src/arch/x86_64/paging/mapper.rs:173-200 | After `map` it reaches the frame with the permissions asked for, and its view of every other page is unchanged |
| PageTables.SetLeafKeepsTree | eira/src/arch/x86_64/paging/mapper.rs:173-200 | Writing a leaf word is adding the leaf to the tree |
| PageTables.ClearLeafKeepsTree | eira/src/arch/x86_64/paging/mapper.rs:202-254 | Clearing the word is removing it |
| PageTables.AddTableKeepsTree | eira/src/arch/x86_64/paging/mapper.rs:130-149 | Linking a cleared frame adds an empty table |
| PageTables.TreeIgnoresOtherFrames | eira/src/arch/x86_64/paging/mapper.rs:90-114 | The tree depends on the frames of its tables only |
| Mapper.PageTableMapper.constructor | eira/src/arch/x86_64/imp.rs:63-75 | A cleared root is an empty tree |
| Mapper.PageTableMapper.CreateTable | eira/src/arch/x86_64/paging/mapper.rs:130-149 | A frame from the free list becomes an empty table behind an entry that forbids nothing; fails exactly on an empty list |
| Mapper.PageTableMapper.WalkOrCreate | eira/src/arch/x86_64/paging/mapper.rs:121-169 | Creates exactly the missing tables of the path; panics exactly when they outnumber the free frames |
| Mapper.PageTableMapper.Map | eira/src/arch/x86_64/paging/mapper.rs:173-200 | Adds one leaf; each error and the panic if and only if its condition holds; an error changes nothing and returns the frame |
| Mapper.PageTableMapper.Unmap | eira/src/arch/x86_64/paging/mapper.rs:202-254 | Removes one leaf and returns its frame; `NotMapped` and `UnalignedAddress` exactly |
| Mapper.PageTableMapper.Remap | eira/src/arch/x86_64/paging/mapper.rs:268-288 | Replaces the flags of one leaf, keeping its frame |
| Witnesses.MapPanicsOnEmptyList | eira/src/arch/x86_64/paging/mapper.rs:130-149 | A fresh space and an empty free list: `map` panics instead of returning `FrameAllocationFailed` |
| Refinement.MapChangesOnePage | eira/src/arch/x86_64/paging/mapper.rs:173-200 | After `map`, `translate` gives the frame and flags on that page and is unchanged on every other address |
| Refinement.UnmapChangesOnePage | eira/src/arch/x86_64/paging/mapper.rs:202-254 | After `unmap`, nothing on that page and unchanged elsewhere |
| Refinement.RemapChangesOnePage | eira/src/arch/x86_64/paging/mapper.rs:268-288 | After `remap`, the same address with the new flags on that page and unchanged elsewhere |
| Refinement.MapThenUnmapRestores | eira/src/arch/x86_64/paging/mapper.rs:173-254 | `unmap` undoes `map` for every address and returns the mapped frame |
| Refinement.RolledBackChangesNothing | eira/src/mm/address_space.rs:263-309 | After a rolled-back `alloc_and_map` every translation is what it was |
| Refinement.BatchMapsRange | eira/src/mm/address_space.rs:263-309 | After success every address of the range translates with the flags, none did before, all others are unchanged |
| Refinement.ShrunkUnmapsRange | eira/src/mm/address_space.rs:321-357 | After `unmap_and_dealloc` nothing in the range translates and all other addresses are unchanged |
| Ownership.MapMovesFrame | eira/src/arch/x86_64/paging/mapper.rs:173-200 | `map` moves one frame from its holder to the space and tables from the free list to the space |
| Ownership.UnmapMovesFrame | eira/src/arch/x86_64/paging/mapper.rs:202-254 | `unmap` moves one frame from the space to the caller |
| Ownership.TakeMovesFrame | eira/src/mm/init.rs:156-163 | An allocation moves one frame from the free list to the caller |
| Ownership.GiveMovesFrame | eira/src/mm/init.rs:175-180 | A release moves it back and disturbs no table |
| Moves.PrimMoves | eira/src/arch/x86_64/paging/mapper.rs:121-288 | Each smallest change (pop or push a free frame, add a table, set, clear or reflag a page) keeps the space sound, trades frames only with the free list and the operation, and writes no frame of others and none outside the allocator |
| Moves.RunMoves | eira/src/mm/address_space.rs:263-357 | So does every sequence of them |
| Moves.WorkedMoves | eira/src/mm/address_space.rs:263-357 | A whole operation on a space, a failed one too, leaves other holders' frames and all memory that was never donated unchanged |
| Batch.MapNextPage | eira/src/mm/address_space.rs:274-303 | One turn of the mapping loop extends the mapped prefix by a page with a fresh frame |
| Batch.UnmapFirstPage | eira/src/mm/address_space.rs:489-504 | One turn of the rollback shortens it by a page and returns the frame |
| Batch.OnlyTablesKept | eira/src/mm/address_space.rs:489-504 | After a full rollback the only new outstanding frames are tables of the space |
| Batch.ShrinkNextPage | eira/src/mm/address_space.rs:330-346 | One turn of the unmapping loop removes a page and frees its frame |
| Batch.SkipNextPage | eira/src/mm/address_space.rs:341-345 | A page that is not mapped is passed over |
| Demand.MissingIsPath | eira/src/arch/x86_64/paging/mapper.rs:121-169 | The tables a walk creates are the tables of the path that do not exist |
| Demand.NeedNext | eira/src/mm/address_space.rs:274-303 | Each page takes one frame plus the tables still missing for it |
| Demand.Turn | eira/src/mm/address_space.rs:274-303 | What the loop finds at page i, the free list, the page and the missing tables, is told by the state before the loop |
| Demand.FateIsBackable | eira/src/mm/address_space.rs:274-303 | The predicted outcome is success exactly when no page is mapped and the free frames cover pages and missing tables |
| Demand.WhenLoopStops | eira/src/mm/address_space.rs:274-303 | The panic occurs exactly when the frames give out between the own frame of an unmapped page and its last table, with the pages before it backed |
| Demand.WhenNoFrame | eira/src/mm/address_space.rs:277-286 | The error for exhausted frames occurs exactly when the pages before some page take all free frames |
| Demand.WhenRejected | eira/src/mm/address_space.rs:288-302 | The error for a mapped page occurs exactly when some page is mapped and the pages before it leave a frame |
| Demand.OneOutcome | eira/src/mm/address_space.rs:274-303 | Exactly one of the four outcomes of the loop happens |
| Demand.FailsAtOnce | eira/src/mm/address_space.rs:274-303 | The loop fails before mapping a page exactly when there was no free frame or the first page was mapped |
| AddressSpaces.AddressSpace.constructor | eira/src/mm/address_space.rs:128-142 | An empty tree, both pools whole, nothing cached |
| AddressSpaces.NewKernel | eira/src/mm/address_space.rs:128-142 | Takes the root from the free list; panics exactly on an empty list |
| AddressSpaces.AddressSpace.MapPages | eira/src/mm/address_space.rs:274-303 | Outcome and number of pages mapped are those predicted from the state before; the prefix is mapped with fresh frames, as a sequence of smallest changes |
| AddressSpaces.AddressSpace.RollbackRange | eira/src/mm/address_space.rs:489-504 | Every unmap succeeds and the prefix is gone |
| AddressSpaces.AddressSpace.FlushRange | eira/src/mm/address_space.rs:475-481 | No stale translation of the range remains cached |
| AddressSpaces.AddressSpace.UnmapPages | eira/src/mm/address_space.rs:330-346 | Removes what is mapped of the range; an error exactly if some page was not mapped |
| AddressSpaces.AddressSpace.AllocVirt | eira/src/mm/address_space.rs:423-432 | The lowest fit of the pool; each error and the failed `expect` exactly under its condition on the pool; room up to 62 live regions |
| AddressSpaces.AddressSpace.FreeVirt | eira/src/mm/address_space.rs:442-446 | A live region returns to its pool; fails exactly at 64 slots, never up to 62 live regions |
| AddressSpaces.AddressSpace.LiveRegionsApart | eira/src/mm/vm/mod.rs:13-26 | Live regions lie in the range of their kind and never overlap, whatever their kinds |
| AddressSpaces.AddressSpace.AllocAndMap | eira/src/mm/address_space.rs:263-309 | Success, each error and each stop if and only if its condition on the state before holds; on an error the slots, live regions and leaves are those of the start and only tables were kept; a region lies in the range of its kind; the TLB stays coherent after a failed mapping exactly if there was no free frame or the first page was mapped |
| AddressSpaces.AddressSpace.Back | eira/src/mm/address_space.rs:274-308 | The part after the reservation: each outcome if and only if its condition holds |
| AddressSpaces.AddressSpace.Undo | eira/src/mm/address_space.rs:279-302 | The failure path restores slots, live regions and leaves; its `expect` fails exactly at 64 slots, never up to 61 live regions |
| AddressSpaces.AddressSpace.UnmapAndDealloc | eira/src/mm/address_space.rs:321-357 | All pages gone, frames and range returned, TLB coherent; stops exactly at 64 slots; an error exactly if some page was not mapped, with the work done all the same |
| AddressSpaces.StaleWhenRolledBack | eira/src/mm/address_space.rs:489-504 | After a failed mapping the TLB stays coherent exactly when, before the call, there was no free frame or the first page was mapped |
| Witnesses.RollbackLeavesStale | eira/src/mm/address_space.rs:288-302 | A two-page request whose second page is mapped, with frames to spare: it fails and leaves a stale translation |
| AddressSpaces.FlushedIsCoherent | eira/src/mm/address_space.rs:348-352 | The batched flush after the unmaps leaves nothing stale |
| Kernel.StepKeeps | eira/src/mm/address_space.rs:209-357 | Every event, given by its effect on a state in which it is possible, keeps the partition of the frames, the donated set and all memory outside it |
| Kernel.EveryRunKeepsPartition | eira/src/mm/address_space.rs:209-357 | So does every run from boot with any number of address spaces; memory never donated, the bitmap included, is untouched |
| Kernel.Lift | eira/src/mm/address_space.rs:209-357 | A sequence of smallest changes made for one space with some of the frames in hand is a run of the whole kernel |
| Kernel.FollowsKeeps | eira/src/mm/address_space.rs:209-357 | Whatever a run reaches from a state with the partition has the partition |
| Kernel.AtMostOnePlace | eira/src/mm/allocator/bitmap.rs:271-291 | No frame is in two places among free list, hand, table nodes and leaves of all spaces |
| Kernel.SomePlace | eira/src/mm/allocator/bitmap.rs:271-291 | Every donated frame is in one of them: none is lost |
| Kernel.EachFrameInOnePlace | eira/src/mm/address_space.rs:209-357 | At every point of every run, also inside the page loops, each donated frame has exactly one place |
| Kernel.NoFrameIsShared | eira/src/arch/x86_64/paging/mapper.rs:256-266 | Two translations that reach one frame are the same page of the same space, and the frame is no page table of any space |
| Machine.KernelMachine.EverySpaceValid | eira/src/mm/address_space.rs:100-142 | With one allocator shared, every address space is valid after work on any of them |
| Machine.KernelMachine.Map | eira/src/mm/address_space.rs:209-225 | `map` on one of several spaces is a run of the kernel; maps exactly under its conditions, and every space stays valid |
| Machine.KernelMachine.Unmap | eira/src/mm/address_space.rs:227-240 | The same for `unmap` |
| Machine.KernelMachine.Remap | eira/src/mm/address_space.rs:242-253 | The same for `remap` |
| Machine.KernelMachine.AllocRange | eira/src/mm/address_space.rs:263-309 | The same for `alloc_and_map`: the lowest fit among the live regions is backed exactly if it can be, else no page changes; panics exactly under its condition |
| Machine.KernelMachine.FreeRange | eira/src/mm/address_space.rs:321-357 | The same for `unmap_and_dealloc`: exactly the pages of the named region and the right to it are gone; panics exactly with 64 free runs |
| Machine.KernelMachine.Create | eira/src/mm/address_space.rs:128-142 | The same for a new address space; panics exactly on an empty free list |
| Machine.KernelMachine.Store | eira/src/arch/x86_64/paging/mapper.rs:256-266 | A store through a mapped address changes that word of its frame; the table walk decides which addresses fault |
| Machine.KernelMachine.Perform | eira/src/mm/address_space.rs:128-357 | Every command panics exactly under its condition on kernel and rights, and otherwise does what it says to them, by a run of the kernel; a command for something its client does not have changes nothing |
| Machine.KernelMachine.Execute | eira/src/mm/address_space.rs:128-357 | So does every sequence of commands up to the first that panics |
| Machine.BootAndExecute | eira/src/mm/init.rs:50-144 | From any memory map and any commands: boot fails exactly when no entry can hold the bitmap; the frames donated at boot stay partitioned, none is lost, and memory outside them is untouched |
| Scheduler.BestIsUnique | eira/src/task/scheduler.rs:89-101 | The specification of the choice, highest positive priority and then oldest, determines the task |
| Scheduler.TaskScheduler.PickNext | eira/src/task/scheduler.rs:89-101 | The scan removes exactly that task; a task is picked exactly when some ready task has a positive priority |
| Scheduler.TaskScheduler.Schedule | eira/src/task/scheduler.rs:260-296 | The current task is requeued ready or blocked, the dead list is emptied, the choice is made, and the two context slots are those of the old and the new task |
| Scheduler.TaskScheduler.Spawn | eira/src/task/scheduler.rs:157-174 | A ready task with a fresh id and the requested priority at the end of the queue |
| Scheduler.TaskScheduler.Yield | eira/src/task/scheduler.rs:183-202 | The waiting tasks and the chosen one are the tasks before, the one that ran ready again or blocked for its reason; the choice is best; a task that blocks waits and does not run |
| Scheduler.TaskScheduler.Unblock | eira/src/task/scheduler.rs:212-229 | Makes the queued task with that id ready and changes nothing else; reports whether there is one |
| Scheduler.TaskScheduler.Exit | eira/src/task/scheduler.rs:239-254 | The current task leaves for good, all others stay, and the choice is best |
| Scheduler.ScheduledKeeps | eira/src/task/scheduler.rs:260-296 | Current is running, queued tasks are ready or blocked, ids are distinct and below the counter |
| Scheduler.ScheduleEffect | eira/src/task/scheduler.rs:260-296 | Rescheduling loses and invents no task and its choice is best; with none eligible the idle task runs |
| Scheduler.BlockEffect | eira/src/task/scheduler.rs:200-202 | A task that blocks is on the queue, blocked for its reason, and not current |
| Scheduler.EveryRunKeepsInvariant | eira/src/task/scheduler.rs:157-296 | The same at every point of every run |
| Scheduler.KnownAfterStep | eira/src/task/scheduler.rs:157-296 | A step adds the task it spawns, removes the one that exits, and keeps all others |
| Scheduler.KnownUntilExit | eira/src/task/scheduler.rs:157-296 | In every run a task that has not exited is never lost |
| Scheduler.LiveTaskInOnePlace | eira/src/task/scheduler.rs:157-296 | From spawn to exit a task is in exactly one place, running or at one queue position, at every point of every run |
| Scheduler.ExitedNeverReturns | eira/src/task/scheduler.rs:239-254 | An id that has left never comes back in the rest of the run |
| Scheduler.BlockedUntilUnblocked | eira/src/task/scheduler.rs:200-229 | A blocked task stays blocked, and is not current, until it is unblocked |
| Scheduler.BlocksUntilUnblocked | eira/src/task/scheduler.rs:200-229 | In every run a task that blocks is not current until it is unblocked |
| Scheduler.PriorityIsKept | eira/src/task/scheduler.rs:157-296 | In every run a task has the priority it was spawned with until it exits |
| RoundRobin.BestIsFirstTop | eira/src/task/scheduler.rs:89-101 | The choice is the first of the tasks of the top priority |
| RoundRobin.YieldRotates | eira/src/task/scheduler.rs:183-189 | A yield rotates the ring of top-priority tasks by one |
| RoundRobin.PicksFollowRing | eira/src/task/scheduler.rs:183-189 | n yields run the next n tasks of the ring |
| RoundRobin.EachTopTaskRunsOnce | eira/src/task/scheduler.rs:183-189 | k consecutive schedules with k tasks at the top positive priority run each exactly once |
| RoundRobin.TopTasksAre | eira/src/task/scheduler.rs:89-101 | The ring holds exactly the ready tasks of that priority |
| RoundRobin.ReadyButNeverPicked | eira/src/task/scheduler.rs:89-101 | A ready task of priority 0 alone in the queue is not picked |
| RoundRobin.PickedWhenEligible | eira/src/task/scheduler.rs:89-101 | A task is picked exactly when some ready task has a positive priority |
| ContextSwitch.Cpu.SwitchTo | eira/src/arch/x86_64/context.rs:116-142 | The registers become those of the next task and the switching task is suspended with its own, word by word through the two stacks |
| ContextSwitch.Cpu.NewTask | eira/src/arch/x86_64/context.rs:43-97 | The stored words suspend the new task with zero registers, its entry point and the rounded stack top less one word |
| ContextSwitch.Cpu.Run | eira/src/arch/x86_64/context.rs:116-142 | Whatever the running task does outside the other stacks and the slots leaves every suspended task as it is |
| ContextSwitch.Cpu.Execute | eira/src/arch/x86_64/context.rs:43-142 | Any legal sequence of computing, creating and switching, carried out on registers and memory, is a run of the machine of contexts |
| ContextSwitch.ContextIsKept | eira/src/arch/x86_64/context.rs:116-142 | In every run a suspended context does not change until someone switches to it |
| ContextSwitch.ResumedWithOwnContext | eira/src/arch/x86_64/context.rs:116-142 | In every run a task resumes with exactly the registers and return address it was suspended with |
| ContextSwitch.FirstEntryIsAligned | eira/src/arch/x86_64/context.rs:43-97 | In every run a new task is first entered at its entry point with cleared registers and the highest stack pointer of its stack that is 8 modulo 16 with a word above it |

## Left out

- Locks, atomics and interrupts: operations are atomic steps of one core.
- AddressSpaces.AddressSpace.AllocAndMap: the lock of the frame allocator is not modelled. At eira/src/mm/address_space.rs:277 the guard is alive in the arm for exhausted frames while `rollback_range` takes the same lock for each mapped page, so the contract says what that arm computes, not that it finishes when pages had been mapped.
- AddressSpaces.AddressSpace.UnmapAndDealloc: takes a region that is live in its pool, as its documentation asks.
- Machine.KernelMachine.Execute: ends at the first panic; the changes made by the command that panics are not part of the run. Commands name frames, spaces and regions their client has, as the ownership types of the source enforce; others are refused.
- AddressSpaces.AddressSpace.FlushRange: the TLB is the set of translations one core may have cached; there is no shootdown of other cores in the source either.
- Heap.HeapAllocator.Alloc: takes a size of at most 2^64 - 16, so that rounding it up cannot wrap; the only callers pass a `Layout`, whose size is below 2^63.
- Heap.HeapAllocator.Dealloc: takes a live block with the size it was requested with, as the safety comment asks.
- Heap.HeapAllocator.AddMemory: takes memory that is not already part of the heap, as the safety comment asks.
- Region.RegionAllocator.AddRegion: takes a non-empty region apart from the free ones that does not make all 2^64 bytes free, since a merged size would not fit a word; the source asserts or assumes the same.
- Frames.BitmapAllocator.AddRegion: takes a range covered by the bitmap and not donated before, as the safety comment asks of its caller.
- Region.RegionAllocator.Free: takes a live region, as the documentation asks.
- Boot.Init: takes a memory map whose usable entries are disjoint, as the boot protocol guarantees, and lie below the last page of the 52-bit physical address space; the bytes of the bitmap are a separate array, and no frame that shares a byte with them is donated.
- The direct-map offset: frames are addressed by number.
- Huge pages and tables built by the boot loader (`from_active`): the trees start from a cleared root. The huge-page tests of the walk are in the model.
- `map_physical_range`: the same loop and rollback as `alloc_and_map` with frames given by the caller.
- The `TlbFlush` tokens of `map`, `unmap` and `remap`: their callers decide on the flush.
- `VirtAddr` and `PhysAddr` conversions, `FrameRange` and the linear ownership type of frames: easy members.
- Scheduler: tasks are values moved between queue and current; the search of the dead list in `unblock` is left out because every public operation leaves that list empty; the wrap-around of the 64-bit id counter; the lifetime of the stack of an exited task; what happens when the idle task is resumed.
- ContextSwitch.Cpu.SwitchTo: takes stacks with room for the seven words it pushes; flags, segment and floating-point registers are not saved by the source and not modelled.
- Boot assembly, GDT, IDT, PIC, UART, interrupt handling, aarch64, logging, formatting and the build tool.
