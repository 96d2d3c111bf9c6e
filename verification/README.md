# Verified model of the kernel's memory subsystem, scheduler, FAT32 reads and writes, and C runtime arithmetic and formatting

The project models the parts of the kernel whose correctness is hardest to see by reading one function at a
time, and proves what each is for. Imperative code is modelled imperatively: classes whose methods loop over
arrays or update maps in place, each proved against a specification function whose properties are lemmas.

1. **Page allocator** (`RoundUp`, `BuddyTree`, `PageAllocator`). The bitmap is a function of the set of live tree nodes
   alone (a local equation at every node, `Canonical`; its solution is `Longest`). Allocation, release,
   reference counting and initialisation keep that, and the counts are positive exactly at the heads of live blocks.
2. **Sv39 page tables** (`Sv39`, `PageTree`, `PageTables`, `HardwareWalk`). Tables are frames taken from the page
   allocator. A ghost map says which place of which tree owns each table frame, so no table is shared. The ragged triple
   loops of `create_mapping`, `remove_mapping` and `copy_mapping` are proved against the walk `Word(mem, root, vpn)`,
   and that walk against the hardware's, taken from sections 4.3.2 and 4.4 of the RISC-V Privileged Architecture.
3. **Memory areas** (`VmaList`, `SlotCounts`, `SlotList`, `MemoryAreas`). A doubly linked list and a free list in one arena of slots;
   the list's meaning is a sorted sequence of areas, and `do_munmap` is range subtraction on it.
4. **Copy-on-write** (`CowState`, `CowEntries`, `CowPages`, `CowSteps`, `CowRefinement`, `CowKernel`, `UserMappings`, `UserAccess`,
   `TreeKernel`).
   Fork, page fault, load, store, mmap, munmap, the unmapping of exec and exit, and the choice of the running
   process are steps on one state of many processes. The methods of `CowKernel` are proved equal to the steps.
   `UserMappings` relates the state of the steps to the page-table trees and the allocator's counts, and proves that
   allocation, references, `create_mapping`, in-place entry stores, `remove_mapping` and `copy_mapping` keep the relation.
   `UserAccess` says which accesses the hardware then lets pass.
   `TreeKernel` puts the layers together: the fault handler, mmap, munmap, the unmap loop of exec and exit and fork's
   memory, run on the slot list, the trees and the allocator at once, each make exactly the step of that state.
5. **Scheduler** (`CounterScheduler`), **division and multiplication** without the M extension (`SoftArith`, `Words`),
   **FAT32** (`Fat32Files`), **printf and scanf** (`Digits`, `Printf`, `PrintfText`,
   `PrintfFormat`, `Scanf`).

What stands for the outside world: a frame's former contents, the bytes read from a file into a new page, the
variable arguments of printf and the keyboard input are parameters. Running out of pages shuts the machine down in
the code; the methods report it as `ok == false`, and promise that no page was then free.

## Results that differ from what one might expect

- A forked child cannot map memory: `copy_mm` leaves the child's free list unset, so `do_mmap` takes its slot from
  whatever the new page held. `ForkThenMmap` is the shortest run, `ForkedChildMmapIff` the exact condition (the
  parent had no areas). Where that word is the address of a slot in use, the child loses the area in it and its list
  runs in a circle, whatever it maps (`StaleHeadBreaksList`, `ForkThenMmapBreaksList`). A munmap or exec in the child
  gives it slots again. `Enabled` therefore asks for a slot.
- An area that is writable but not readable keeps faulting after the handler has served the fault, because W
  without R is a reserved encoding; and so does every area outside the canonical addresses, which the hardware
  refuses whatever the entry says. `FaultSufficesIff` gives the exact condition for every genuine fault,
  `WriteOnlyAreaFaultsAgain` and `NonCanonicalAreaFaultsAgain` (mmap at `USER_END`) concrete states.
- The fault handler takes its page before it knows whether it needs one. On a resident page it needs one only to copy
  for a store while there are other sharers (`FaultWastesPageIff`); in every other case, the last sharer's store
  included, the page is lost for good (`LostForever`).
- In a write-only area that fork has shared, the handler cannot even copy the page: its own load is refused for ever
  (`CopyReadableIff`).
- mmap takes any address. Pages 2^27 apart share one leaf entry (`WalkDropsHighBits`), the upper half holds the
  kernel's entries, and an area whose end wraps around covers nothing (`MmapCoversIff`). `Enabled` therefore asks mmap
  to stay below `USER_END`, as the kernel's own calls do; user entries then stay there too (`EntryInUser`).
- munmap's checks are right exactly when the range's end does not wrap around 2^64 or they fail for another reason
  (`MunmapPassesIff`); on a wrap they pass for any aligned length if only the first address is mapped (`MunmapWraps`).
  Then nothing is unmapped, unless the range ends at 2^64 exactly, where everything behind it is, kernel entries
  included (`WrappedRange`); and the area's start moves down to the wrapped end (`CutWrapped`).
- fork does not look whether it found a place in the task table: `GetAvailTaskId` gives the exact condition.
- `next_cluster` reads the right entry of the allocation table exactly for the first 32 clusters of each 128 (`NextIs`).
- `fat32_read` from beyond the recorded size wraps its remaining length to almost 2^64, and a length that wraps the sum
  in its test is not clipped: `ClipInBounds` gives the exact condition, `ClipWraps` an input of each kind.
- `fat32_write` changes the size field only in its sector buffer, so the recorded size never grows (`Fat32.Write`), and
  a write past the end leaves the position where reads wrap (`WritePastEnd`).
- `buddy_free` on a page that is already free overwrites the root cell with twice the tree's size (`Buddy.Free`).
- `%p` without a precision prints no leading zeros although the code asks for 16 digits: the precision -1,
  taken as a `size_t`, is the larger number (`PointerPrecisionIs`).
- A precision past INT_MAX makes every number conversion fail but `%#o` (`NumberFailsIff`).
- scanf takes a sign behind digits that make 0 so far: `00-5` is -5 (`ScanMeans`).
- `remove_mapping` creates the tables that are missing in its range, and may take for them frames that it has
  released on the way; a frame counted more often than the range maps it is safe from that (`FallIsExact`).

## Model

| member | source | states |
|---|---|---|
| RoundUp.FixSize | arch/riscv/kernel/mm.c:34-43 | for requests 1 to 2^63 the least power of two at or above the request; 0 exactly for 0 and above 2^63, where the register wraps |
| RoundUp.SmearedIsAllOnes | arch/riscv/kernel/mm.c:35-41 | the doubling shift-and-or cascade turns any number of len bits into len ones |
| Words.PowerOfTwoTest | arch/riscv/kernel/mm.c:18 | x & (x - 1) is zero exactly for powers of two among positive words |
| BuddyTree.LiveBlocksSafe | arch/riscv/kernel/mm.c:89-126 | live blocks are in range, power-of-two sized, aligned to their size and pairwise disjoint |
| BuddyTree.HeadIsUnique | arch/riscv/kernel/mm.c:45-63 | two live blocks that start at one page are the same tree node, so a page number identifies the block to free |
| BuddyTree.CanonicalIsLongest | arch/riscv/kernel/mm.c:29 | the bitmap is a function of the set of live blocks alone |
| BuddyTree.FullIffUntouched | arch/riscv/kernel/mm.c:72-75 | no cell exceeds its node's size, and it equals it exactly when nothing below is live |
| BuddyTree.CellIsLargestFree | arch/riscv/kernel/mm.c:98-113 | outside live blocks a cell is exactly the size of the largest free aligned block below it, and 0 if there is none |
| BuddyTree.DescendFindsLowest | arch/riscv/kernel/mm.c:106-113 | the descent from a cell promising n pages ends at a free block of exactly n pages, the lowest one below that cell |
| BuddyTree.FreeBlockExistsIff | arch/riscv/kernel/mm.c:98 | the out-of-memory test passes exactly when a free block of the size exists |
| BuddyTree.FreeNodeMeansFreePages | arch/riscv/kernel/mm.c:29 | a node counts as free exactly when no page of its block lies in a live block |
| BuddyTree.EmptyIsInitial | arch/riscv/kernel/mm.c:143-149 | with nothing live the canonical bitmap holds every node's size, the state initialisation writes |
| PageAllocator.RoundPagesIsLeast | arch/riscv/kernel/mm.c:92-96 | the rounded request is the least power of two at or above it |
| PageAllocator.PageOwner | arch/riscv/kernel/mm.c:89-126 | every page is free or inside exactly one live block |
| PageAllocator.StopsAtLiveNode | arch/riscv/kernel/mm.c:57-61 | a zero cell at or above a live block is the block's own node, although descendants keep stale full values |
| PageAllocator.Buddy.ClimbToZero | arch/riscv/kernel/mm.c:54-61 | from any page inside a live block the climb returns exactly that block's node and size; from a free page it runs past the root |
| PageAllocator.Buddy.MergeAbove | arch/riscv/kernel/mm.c:65-76 | recomputing the ancestors makes the whole bitmap canonical again |
| PageAllocator.Buddy.Free | arch/riscv/kernel/mm.c:45-77 | on every page: nothing while its count is non-zero; otherwise exactly the block holding it stops being live, and on a free page the root cell is overwritten with twice the tree's size, which breaks the tree |
| PageAllocator.Buddy.FindBlock | arch/riscv/kernel/mm.c:106-113 | the lowest free block of the requested size |
| PageAllocator.Buddy.Alloc | arch/riscv/kernel/mm.c:89-126 | makes live the lowest free block of the rounded size and sets its head's count, and only that one, to 1 |
| PageAllocator.Buddy.AllocPage | arch/riscv/kernel/mm.c:164-166 | fails exactly when no page is free, otherwise returns the lowest free page with count 1 |
| PageAllocator.Buddy.RefPage | arch/riscv/kernel/mm.c:172-180 | -1 and no effect except on the head of a live block, whose count grows by one |
| PageAllocator.Buddy.DerefPage | arch/riscv/kernel/mm.c:182-190 | takes one reference off; the block is released exactly when its last one goes |
| PageAllocator.Buddy.FillFree | arch/riscv/kernel/mm.c:143-149 | the linear fill yields the canonical bitmap of the empty live set |
| PageAllocator.Buddy.ReserveFirst | arch/riscv/kernel/mm.c:151-153 | k one-page allocations reserve exactly pages 0 to k - 1 |
| PageAllocator.Buddy.constructor | arch/riscv/kernel/mm.c:128-157 | the tree size is the least power of two covering memory, and exactly the first pages are reserved |
| PageAllocator.AllocThenDeref | arch/riscv/kernel/mm.c:79-126 | allocating and dropping the reference restores bitmap, counts and live set exactly |
| PageAllocator.ReleaseAll | arch/riscv/kernel/mm.c:45-87 | dropping the last reference of every block, in any order, restores the initial tree |
| Sv39.PackIsArithmetic | arch/riscv/include/vm.h:23-24 | the packing macro on 64-bit registers is 1024 * (ppn mod 2^44) + perm |
| Sv39.UnpackIsArithmetic | arch/riscv/include/vm.h:22-26 | the unpacking macros are the quotient and remainder by 1024 |
| Sv39.PteRoundTrip | arch/riscv/include/vm.h:22-26 | packing then unpacking gives the fields back, and unpacking then packing the entry |
| Sv39.PermRoundTrip | arch/riscv/include/vm.h:7-15 | the ten permission bits and their names determine each other |
| Sv39.NamesAreMasks | arch/riscv/include/vm.h:7-15 | each of the nine names against its mask as a number: V 0x1, R 0x2, W 0x4, X 0x8, U 0x10, G 0x20, A 0x40, D 0x80, S 0x100 |
| Sv39.PermBitsAre | arch/riscv/include/vm.h:7-15 | the bits of a set of permissions are the sum of those masks |
| Sv39.DecodeEncode | arch/riscv/include/vm.h:22-26 | an entry of named fields survives encoding and decoding |
| Sv39.SetBits | arch/riscv/kernel/proc.c:454 | or-ing S or W into an entry sets that permission and leaves frame and all other bits |
| Sv39.ClearBits | arch/riscv/kernel/proc.c:455 | and-ing S or W away clears that permission and leaves frame and all other bits |
| PageTree.TablesAreUnshared | arch/riscv/kernel/vm.c:117-136 | distinct places, in one tree or in two, have distinct table frames |
| PageTree.StoreLeaf | arch/riscv/kernel/vm.c:141 | writing a leaf entry changes exactly one page's translation, in one tree |
| PageTree.LinkIsPointer | arch/riscv/kernel/vm.c:121 | a valid entry of an upper table has only V set in its ten low bits, so the hardware takes it for a pointer |
| PageTree.LinkTable | arch/riscv/kernel/vm.c:117-122 | linking a zeroed fresh table under an invalid entry changes no translation anywhere |
| PageTree.HangTable | arch/riscv/kernel/vm.c:211-226 | linking a table with contents, by an entry with only V: only pages reached through the new entry change, to those contents |
| PageTables.Consecutive | arch/riscv/kernel/vm.c:112-144 | the ragged bounds visit the range's pages consecutively, from the first to the last |
| PageTables.ExtractBits | arch/riscv/kernel/vm.c:33-37 | the low bits as remainder, the rest as quotient by a power of two |
| PageTables.VirtualMemory.constructor | arch/riscv/kernel/vm.c:58-59 | one zeroed root table: nothing is mapped |
| PageTables.VirtualMemory.AllocFrame | arch/riscv/kernel/vm.c:118 | a frame that no tree uses, its count now 1 and no other changed; it fails only when no page is free |
| PageTables.VirtualMemory.CreateMapping | arch/riscv/kernel/vm.c:83-148 | each page of the range walks to its own frame with the requested permissions plus V, A and (with W) D; every other page of every tree walks as before; no table is shared and every table is reached by a pointer with V alone; new tables were free pages |
| PageTables.VirtualMemory.RemoveMapping | arch/riscv/kernel/vm.c:150-207 | every page of the range becomes invalid, every other translation stays, and each frame's count falls by exactly the entries removed for it, even where tables are created on the way |
| PageTables.FallIsExact | arch/riscv/kernel/vm.c:195-202 | a frame counted more often than the range maps it falls by exactly that number and is not reused as a table |
| PageTables.VirtualMemory.CopyMapping | arch/riscv/kernel/vm.c:209-230 | given clean frames, source and copy agree on every page, every old tree walks as before, no table is shared, and each new table was a free page whose count is now 1 while every other count stays |
| PageTables.CopyThenMap | arch/riscv/kernel/vm.c:209-230 | after a copy, mapping a range in either tree leaves all of the other's translations, and its own outside the range |
| PageTables.CopyThenUnmap | arch/riscv/kernel/vm.c:209-230 | after a copy, what could be unmapped in the source can be unmapped in either tree, and leaves all of the other's translations |
| PageTables.VirtualMemory.WalkPageTablePte | arch/riscv/kernel/vm.c:268-287 | finds the leaf entry exactly when both upper levels are valid, and it is the entry that translates the page |
| PageTables.VirtualMemory.WalkPageTable | arch/riscv/kernel/vm.c:289-301 | the physical address when the page is mapped, and none otherwise |
| PageTables.WalkDropsHighBits | arch/riscv/kernel/vm.c:268-287 | page numbers that agree in their low 27 bits share one leaf entry |
| PageTables.MappedEntry | arch/riscv/kernel/vm.c:106-109 | a mapped entry decodes to its frame and the requested permissions with V, A and D as required |
| HardwareWalk.WalkGivesWord | arch/riscv/kernel/vm.c:112-144 | in every forest of tables the hardware's walk passes both upper levels as pointers and ends at level 0 with the entry that Word gives, or faults if that is no leaf |
| HardwareWalk.NamesAreBits | arch/riscv/include/vm.h:7-15 | each name stands for the bit number that the architecture gives it |
| HardwareWalk.RangeIsTranslated | arch/riscv/kernel/vm.c:83-148 | after create_mapping the hardware translates every address of the range's pages to its place behind pa, and to pa plus its distance from va exactly when va and pa agree in their page offset |
| VmaList.InsertSorted | arch/riscv/kernel/proc.c:270-292 | inserting a disjoint area where do_mmap links it keeps the list sorted and disjoint |
| VmaList.InsertArea | arch/riscv/kernel/proc.c:251-306 | exactly the new addresses get the new attributes |
| VmaList.SubtractMeaning | arch/riscv/kernel/proc.c:350-364 | addresses in the range lose their area, every other address keeps its flags and attributes |
| VmaList.SubtractSorted | arch/riscv/kernel/proc.c:350-364 | what remains is sorted and disjoint |
| VmaList.AreaAtIs | arch/riscv/kernel/proc.c:238-249 | in a sorted list the area that covers an address is unique |
| VmaList.MmapCoversIff | arch/riscv/kernel/proc.c:296-297 | an area covers the address asked for exactly when its 64-bit end does not wrap; one that wraps covers nothing and changes no address's area |
| VmaList.MunmapPassesIff | arch/riscv/kernel/proc.c:321-346 | do_munmap's checks agree with aligned and fully covered exactly when the end does not wrap, or the range is misaligned, or its first address unmapped |
| VmaList.MunmapWraps | arch/riscv/kernel/proc.c:334 | one page at 0x10000 and a length of 2^64 - 0x1000: the checks pass although the range is not covered |
| SlotList.UnlinkUsed | arch/riscv/kernel/proc.c:308-318 | relinking the two neighbours leaves a list consistent in both directions, without the area |
| SlotList.UnlinkFree | arch/riscv/kernel/proc.c:314-316 | the slot goes to the front of the free list; no slot is in both lists or twice in one |
| SlotList.LinkInUsed | arch/riscv/kernel/proc.c:280-292 | linking between two neighbours leaves a list consistent in both directions, with the area in place |
| SlotList.LinkInFree | arch/riscv/kernel/proc.c:266-268 | taking the free list's first slot keeps the two lists apart |
| SlotList.StaleHeadBreaksList | arch/riscv/kernel/proc.c:266-292 | if the free list's head is the slot of an area, mapping overwrites that area and leaves pointers that form no list, wherever the new area belongs |
| SlotCounts.SubtractLength | arch/riscv/kernel/proc.c:350-364 | munmap leaves at most one area more than there were, and only where it splits one |
| SlotCounts.MunmapKeepsArena | arch/riscv/kernel/proc.c:350-364 | areas and free slots together never exceed the arena |
| MemoryAreas.MmStruct.constructor | arch/riscv/kernel/proc.c:147-151 | a descriptor without areas, whatever the page holds |
| MemoryAreas.MmStruct.FindVma | arch/riscv/kernel/proc.c:238-249 | the area that holds the address, or NULL exactly when none does, despite the early exit |
| MemoryAreas.MmStruct.ThreadArena | arch/riscv/kernel/proc.c:254-259 | every slot points to the next one, the last to none |
| MemoryAreas.MmStruct.FindPlace | arch/riscv/kernel/proc.c:270-278 | the neighbours between which the new area belongs |
| MemoryAreas.MmStruct.DoMmap | arch/riscv/kernel/proc.c:251-306 | given disjointness, an end that does not wrap, and a free slot or an empty list, inserts the area; list, free list and count stay right, used plus free slots being the arena once it has been threaded |
| MemoryAreas.MmStruct.RemoveVma | arch/riscv/kernel/proc.c:308-318 | removes exactly that area and puts its slot first on the free list, also where the free list was never set up |
| MemoryAreas.MmStruct.LastOfRun | arch/riscv/kernel/proc.c:333-346 | the area where a gapless run reaches the end of the range, or NULL together with an uncovered address |
| MemoryAreas.MmStruct.FindRun | arch/riscv/kernel/proc.c:321-346 | for every address and length, the end computed modulo 2^64: the checks pass exactly as MunmapPasses says, which is page alignment and full cover unless the end wraps |
| MemoryAreas.MmStruct.CutRun | arch/riscv/kernel/proc.c:350-364 | cutting the areas one by one, splitting and re-inserting, is range subtraction |
| MemoryAreas.MmStruct.DoMunmap | arch/riscv/kernel/proc.c:320-367 | 1 exactly when the checks pass: then, for an end that does not wrap, exactly the range's addresses and entries go, and the free slots are known; -1 changes nothing; a forked child's descriptor is included |
| MemoryAreas.MmStruct.CutWrapped | arch/riscv/kernel/proc.c:350-364 | where the end has wrapped below the area, removing and mapping it again moves its start down to that end, and its first address stays mapped |
| MemoryAreas.MmStruct.MapStale | arch/riscv/kernel/proc.c:265-305 | the search in the list cut off at the stale slot and the stores in their order: the slot's area is lost and no order of slots makes a list |
| MemoryAreas.MmStruct.CopyMm | arch/riscv/kernel/proc.c:369-392 | the same areas in the same slots of the new page, linked in both directions within that page, and a free list that starts with whatever word the page held |
| MemoryAreas.ForkThenMmapBreaksList | arch/riscv/kernel/proc.c:266-268 | copy_mm into a page whose former word is such an address, then mmap: the child's list is none |
| CowSteps.ForkStep | arch/riscv/kernel/proc.c:441-460 | fork keeps the invariant and the reference balance, and the child sees exactly the parent's pages |
| CowSteps.CopyFaultStep | arch/riscv/kernel/trap.c:222-233 | copying a shared page on a store moves one reference and changes nobody's view |
| CowSteps.TakeOverStep | arch/riscv/kernel/trap.c:235-241 | the last sharer gets its write permission back without a copy |
| CowSteps.DemandFaultStep | arch/riscv/kernel/trap.c:204-219 | the first touch of a page maps the new frame for that process only |
| CowEntries.DropPageInv | arch/riscv/kernel/vm.c:195-202 | removing one entry drops one reference and keeps every count exact |
| CowRefinement.FaultStep | arch/riscv/kernel/trap.c:158-242 | each path of the fault handler, including those that leave the new frame unused, keeps the invariant and makes the eager model's step |
| CowRefinement.StoreStep | arch/riscv/kernel/trap.c:217-242 | a store through a writable entry is seen by the storing process alone |
| CowRefinement.StoreThenLoad | arch/riscv/kernel/trap.c:222-241 | a load after a store gives the byte stored, and every other byte that any process sees stays |
| CowRefinement.MunmapStep | arch/riscv/kernel/proc.c:348-364 | munmap, where a split finds its slot, removes the pages of the range from that process's view and nothing else |
| CowRefinement.UnmapAllStep | arch/riscv/kernel/proc.c:506-512 | the unmap loop leaves no page resident and no area |
| CowRefinement.StepRefines | arch/riscv/kernel/proc.c:441-460 | every step keeps the invariant and is a step of the model in which fork copies every resident page at once |
| CowRefinement.RunRefines | arch/riscv/kernel/trap.c:204-242 | over every run by any number of processes, what each process sees, and each byte it loads, is what the eager-copy model gives |
| CowRefinement.StartOk | arch/riscv/kernel/proc.c:138-151 | processes whose user part is still unmapped satisfy the invariant, however other pages are counted |
| CowRefinement.WritableIsExclusive | arch/riscv/kernel/proc.c:453-456 | an entry with W is its frame's only one; a frame mapped twice has S set and W clear everywhere; no entry grants what its area lacks |
| CowRefinement.EntryInUser | arch/riscv/include/private_kdefs.h:30 | in every reachable state all user entries are for pages below USER_END |
| CowRefinement.SharingCountIsExact | arch/riscv/kernel/proc.c:445-457 | the count of a mapped frame is the number of user entries that map it |
| CowRefinement.FreedWithLastMapping | arch/riscv/kernel/mm.c:79-87 | a mapped frame's count reaches 0 in a step exactly when that step removes its last mapping |
| CowRefinement.FaultWastesPageIff | arch/riscv/kernel/trap.c:199-242 | the page that the handler takes is mapped exactly if the entry was missing or the access is a store to a page with further sharers; else it stays counted with no entry for it |
| CowRefinement.LostForever | arch/riscv/kernel/trap.c:199 | over every run such a page stays counted and unmapped |
| CowRefinement.OneFaultIsEnough | arch/riscv/kernel/trap.c:171-242 | if write implies read in the area, one fault makes the retried access succeed; a resident page keeps its bytes |
| CowRefinement.FaultSufficesIff | arch/riscv/kernel/trap.c:145-156 | for every genuine fault, on an absent or a resident page, one run of the handler suffices exactly when the address is canonical and write implies read in the area |
| CowRefinement.FaultsAreReady | arch/riscv/kernel/trap.c:158-242 | in every reachable state each fault that its area allows is such a genuine fault, at a canonical address |
| CowRefinement.NonCanonicalAreaFaultsAgain | arch/riscv/kernel/ksyscalls.c:139-141 | a readable and writable area at USER_END: a load faults, is served, and faults again |
| CowRefinement.WriteOnlyAreaFaultsAgain | arch/riscv/kernel/trap.c:145-156 | a concrete write-only area whose store faults again |
| CowRefinement.CopyReadableIff | arch/riscv/kernel/trap.c:222-225 | the handler's copy of a shared page can read it exactly when the area is readable; otherwise its own load faults, is refused, and nothing changes |
| CowRefinement.ForkedChildMmapIff | arch/riscv/kernel/proc.c:369-392 | a forked child has no slot to hand, so the slot that its mmap needs is there exactly if the parent had no areas |
| CowRefinement.ForkThenMmap | arch/riscv/kernel/proc.c:266-267 | the run map, fork, switch, after which the child's next mmap lacks a slot while the parent's does not |
| CowRefinement.ArenaBound | arch/riscv/kernel/proc.c:255-258 | in every reachable state areas and free slots together fit the arena |
| CowKernel.Kernel.ShareOnePage | arch/riscv/kernel/proc.c:446-457 | the loop body is the fork step for one page |
| CowKernel.Kernel.DoFork | arch/riscv/kernel/proc.c:441-460 | the nested loops over areas and pages make the fork step |
| CowKernel.Kernel.DoPageFault | arch/riscv/kernel/trap.c:158-242 | the handler makes the fault step |
| CowKernel.Kernel.RemovePages | arch/riscv/kernel/vm.c:195-202 | the page loop drops the range's entries in order |
| CowKernel.Kernel.UnmapAllAreas | arch/riscv/kernel/proc.c:554-560 | the area loop of exec and exit makes the unmap-everything step |
| CowPages.PageInIff | arch/riscv/kernel/proc.c:441-443 | a page is one of an area's, first to last, exactly when it holds an address of the area |
| CowPages.InPagesIff | arch/riscv/kernel/proc.c:348 | a page is one that munmap removes exactly when it starts in the range, which is aligned |
| UserMappings.AllocAgrees | arch/riscv/kernel/trap.c:199 | handing out a page keeps the flat state in agreement with trees and counts |
| UserMappings.RefAgrees | arch/riscv/kernel/mm.c:172-180 | so does taking a reference to a frame in use |
| UserMappings.DerefAgrees | arch/riscv/kernel/mm.c:182-190 | so does dropping one, unless it is the last under a user entry |
| UserMappings.MapAgrees | arch/riscv/kernel/trap.c:217 | so does create_mapping of one page, which sets that page's user entry, no other entry of any process, and no user frame's count |
| UserMappings.MappedFormOk | arch/riscv/kernel/vm.c:106-109 | create_mapping adds no permission to the entries that a demand fault or fork maps |
| UserMappings.StoreAgrees | arch/riscv/kernel/trap.c:228 | so does a store through the walk's pointer, which sets one user entry of one process |
| UserMappings.SharedWord | arch/riscv/kernel/proc.c:454-455 | setting S and clearing W in the word gives the shared permissions |
| UserMappings.RemoveIsDrop | arch/riscv/kernel/vm.c:150-207 | remove_mapping on the tree is the drop step on the map, counts of all frames that are not tables included |
| UserMappings.RemoveAgrees | arch/riscv/kernel/vm.c:150-207 | and keeps the agreement for all processes: a frame that is still mapped was counted beyond the range, so it has neither been released nor become a table |
| UserMappings.UsesAreMappers | arch/riscv/kernel/vm.c:195-202 | the tree's valid entries in a range that map a frame are as many as the map's |
| UserMappings.UserRangeRemovable | arch/riscv/kernel/proc.c:506-512 | in every reachable state whatever a process has in a user range can be unmapped: RAM frames, no tables, and counts that cover the entries |
| UserMappings.MunmapRangeRemovable | arch/riscv/kernel/proc.c:348 | so can every range that munmap's checks let through |
| UserMappings.WrappedRange | arch/riscv/kernel/vm.c:150-172 | where munmap's end wraps, the loop bounds leave remove_mapping no page, unless the end is 2^64 exactly: then all pages from the first on, the kernel's included |
| UserMappings.CopyAgrees | arch/riscv/kernel/proc.c:439-440 | fork's new root, copied from a table without user entries, adds a process with the empty map and leaves all others |
| UserAccess.UserPermWord | arch/riscv/kernel/trap.c:145-156 | the word that vma_flags_to_perm computes: 0x51, plus 0x2 for reading, 0x84 for writing and 0x8 for execution |
| UserAccess.AccessIff | arch/riscv/kernel/trap.c:202-242 | for every user address and access the hardware's whole check on the process's tree passes exactly when the flat state has an entry that allows it |
| UserAccess.ServedAccessPasses | arch/riscv/kernel/trap.c:158-242 | after one run of the handler for an access that its area allows, the hardware lets it pass |
| UserAccess.AccessStaysInArea | arch/riscv/kernel/trap.c:145-156 | in every reachable state the hardware lets no process do on its pages what the area does not allow |
| UserAccess.StoresAreIsolated | arch/riscv/kernel/proc.c:453-456 | where the hardware lets a process store, no other process, nor this one through another page, reaches the same physical page |
| TreeKernel.DoPageFault | arch/riscv/kernel/trap.c:158-242 | the handler over slot list, trees and allocator makes the fault step, with a frame that was free; if the area allows the access, and reading where it allows writing, the hardware then lets the retried access pass on the tree |
| TreeKernel.MapArea | arch/riscv/kernel/proc.c:251-306 | do_mmap makes the mmap step, trees and counts untouched |
| TreeKernel.UnmapRange | arch/riscv/kernel/proc.c:320-367 | do_munmap makes the munmap step on areas, free slots, entries and counts, and returns 1 exactly when aligned and covered |
| TreeKernel.GiveUpAreas | arch/riscv/kernel/proc.c:504-512 | the loop of exec and exit, area by area, makes the unmap-everything step |
| TreeKernel.SharePageOf | arch/riscv/kernel/proc.c:446-457 | the body of fork's page loop, on the words of both trees, makes the share step |
| TreeKernel.ForkMemory | arch/riscv/kernel/proc.c:436-460 | descriptor, root table, area loop and page loop of fork together make the fork step |
| CounterScheduler.Scheduler.GetMaxCntPid | arch/riscv/kernel/proc.c:41-55 | the lowest-numbered running task with the largest counter, or idle when no running task beats idle |
| CounterScheduler.Scheduler.GetAvailTaskId | arch/riscv/kernel/proc.c:57-64 | the lowest free number or the next one; it lies in the task table exactly when a lower number is unused or the table has room |
| CounterScheduler.Scheduler.DoSchedule | arch/riscv/kernel/proc.c:217-236 | switches to that task, refilling every task but idle first when it is idle |
| CounterScheduler.Scheduler.DoTimer | arch/riscv/kernel/proc.c:206-215 | a tick charges the current task one unit and reschedules when none is left; with two units or more the current task stays |
| CounterScheduler.PickIsUnique | arch/riscv/kernel/proc.c:41-55 | the description determines the choice |
| CounterScheduler.TickSteps | arch/riscv/kernel/proc.c:206-236 | a tick takes one unit off the running tasks' total, and refills exactly when nothing is left; a current task with two units or more stays current |
| CounterScheduler.TickMeans | arch/riscv/kernel/proc.c:206-236 | a tick, task by task: the current task keeps the processor while units are left; then it goes to the running task with most left, and only if none has any does every task but idle, waiting ones too, first get its priority as its counter |
| CounterScheduler.RunsItsCounter | arch/riscv/kernel/proc.c:206-215 | the current task stays current for as many ticks as it has units, and no other counter moves meanwhile |
| CounterScheduler.EveryRunningTaskRuns | arch/riscv/kernel/proc.c:206-236 | bounded waiting: every running task becomes current within 1 + running counters + running priorities ticks |
| CounterScheduler.FairShare | arch/riscv/kernel/proc.c:219-226 | between two consecutive refills each running task is charged exactly its priority |
| CounterScheduler.RoundLasts | arch/riscv/kernel/proc.c:206-236 | a refill comes exactly when the round's work is used up |
| CounterScheduler.NextRefill | arch/riscv/kernel/proc.c:219-226 | refills come exactly as many ticks apart as the running priorities add up to |
| SoftArith.Udivdi3 | lib/div.S:73-96 | exact quotient and remainder for all words; all ones and the dividend for divisor 0 |
| SoftArith.AlignDivisor | lib/div.S:77-84 | the first loop ends with the divisor shifted within the register, its double exceeding the dividend, and the matching power of two |
| SoftArith.Umoddi3 | lib/div.S:100-105 | the unsigned remainder, the dividend for divisor 0 |
| SoftArith.Divdi3 | lib/div.S:68-122 | truncating signed quotient; -1 for divisor 0 and -2^63 for -2^63 by -1 |
| SoftArith.Moddi3 | lib/div.S:125-140 | signed remainder with the dividend's sign; the dividend for divisor 0 |
| SoftArith.TruncationIsUnique | lib/div.S:68-140 | rounding toward zero, stated by the division identity, determines quotient and remainder |
| SoftArith.Udivsi3 | lib/div.S:38-45 | the unsigned 32-bit quotient, sign-extended; all ones for divisor 0 |
| SoftArith.Umodsi3 | lib/div.S:48-57 | the unsigned 32-bit remainder, sign-extended |
| SoftArith.Divsi3 | lib/div.S:62-66 | the signed 32-bit quotient; -1 for divisor 0 and -2^31 for -2^31 by -1 |
| SoftArith.Modsi3 | lib/div.S:60 | the signed 32-bit remainder |
| SoftArith.Muldi3 | lib/muldi3.S:36-47 | the product modulo 2^64, whether the operands are read as signed or unsigned |
| Fat32Files.Fat32.NextCluster | fs/fat32.c:24-30 | the little-endian word at the offset the code computes (modulo 128 bytes) in the cluster's table sector |
| Fat32Files.NextIs | fs/fat32.c:24-30 | next_cluster reads the table entry of the cluster with the same remainder by 32 among the first 32 of each 128: its own exactly if it is one of these |
| Fat32Files.Le32Bytes | fs/fat32.c:29 | the byte order of a 32-bit word on the disk |
| Fat32Files.ClustersInOrder | fs/fat32.c:16-18 | cluster 2 starts the data region, and the clusters follow one another without a gap |
| Fat32Files.ClusterOfIff | fs/fat32.c:20-22 | sector_to_cluster gives, for every data sector, the one cluster whose sectors include it |
| Fat32Files.TablesBelowData | fs/fat32.c:32-40 | the allocation table's sectors for its clusters lie in front of the data |
| Fat32Files.SizesInOrder | include/fat32.h:46-60 | where the recorded size stands in each of a sector's 16 directory entries |
| Fat32Files.Fat32.StoreSize | fs/fat32.c:417-421 | the four bytes stored read back as the size modulo 2^32, every other byte of the buffer stays |
| Fat32Files.FileByte | fs/fat32.c:16-18 | byte k * 512 + i of the file is byte i of the chain's k-th cluster |
| Fat32Files.ChunkWritten | fs/fat32.c:404-409 | writing part of one cluster overwrites that part of the byte string, leaves the chain and every sector outside it |
| Fat32Files.ClipInBounds | fs/fat32.c:285-287 | for all words: the read ends within the recorded size exactly when it starts within it and the sum does not wrap; what the length becomes in each case |
| Fat32Files.ClipWraps | fs/fat32.c:285-287 | one byte past the end a read of 16 bytes becomes one of 2^64 - 1, and at position 1 a read of 2^64 - 1 is not clipped |
| Fat32Files.WritePastEnd | fs/fat32.c:417-421 | a write past the recorded size leaves the position where every read is clipped to such a length |
| Fat32Files.Fat32.SkipClusters | fs/fat32.c:291-295 | the cluster and offset that hold the file position |
| Fat32Files.Fat32.Read | fs/fat32.c:277-312 | the slice of the file's bytes from cfo, cut at the recorded size; cfo advances by its length; the rest of the buffer is untouched |
| Fat32Files.Fat32.Write | fs/fat32.c:387-423 | exactly the bytes from cfo on are replaced, no other sector, the chain and the recorded size stay, cfo advances, the result is 0 |
| Fat32Files.WriteThenRead | fs/fat32.c:277-423 | what is written within the recorded size is read back |
| Digits.FmtX | lib/vfprintf.c:291-295 | the hexadecimal digits end at z inside the 24-byte buffer, nothing else is touched |
| Digits.FmtO | lib/vfprintf.c:297-301 | the same for octal |
| Digits.FmtU | lib/vfprintf.c:303-310 | the same for decimal |
| Digits.TextDenotes | lib/vfprintf.c:291-310 | the digits evaluate back to the number |
| Digits.NoLeadingZero | lib/vfprintf.c:291-310 | the first digit of a non-zero number is not zero |
| Digits.WordFits | lib/vfprintf.c:333 | a 64-bit number needs at most 22 digits in base 8 or above |
| Printf.Stream.Pad | lib/vfprintf.c:278-287 | writes exactly the missing characters, in pieces of 256, unless a flag suppresses it |
| Printf.Stream.PutField | lib/vfprintf.c:589-605 | the six writes are blanks, sign or prefix, zeros and body in the right order, as wide as asked; overflow writes nothing |
| Printf.GetInt | lib/vfprintf.c:312-321 | reads the whole run of digits at the position: its decimal value, or -1 past INT_MAX |
| Printf.ReadDirective | lib/vfprintf.c:373-451 | flags, width, precision, modifier, letter and arguments of a directive, as DirectiveAt gives them |
| Printf.DirectiveRecognised | lib/vfprintf.c:373-451 | reading a written directive gives back its set of flags, its width (number or argument, negative meaning left), its precision, its modifier and its letter, and fails for a width past INT_MAX |
| Printf.ConvertNumber | lib/vfprintf.c:492-532 | sign or base prefix, digits and precision of the number conversions |
| Printf.NumberDenotes | lib/vfprintf.c:492-532 | every number conversion prints digits that evaluate to its argument, a minus sign exactly for negative ones, at least the precision's digits (for %p with a precision, 16), and nothing only for zero at precision 0 |
| Printf.StringDenotes | lib/vfprintf.c:542-549 | %s prints the longest prefix within the precision, all of the string without one, and fails only past INT_MAX |
| Printf.CharDenotes | lib/vfprintf.c:534-537 | %c prints the argument's low byte |
| Printf.Convert | lib/vfprintf.c:466-549 | what each conversion prints before padding |
| Printf.PointerPrecisionIs | lib/vfprintf.c:493 | %p's precision: at least 16 digits, except that none given stays none |
| Printf.Stream.PrintfCore | lib/vfprintf.c:324-627 | writes what the format means (FormatMeans) and returns its result; a non-negative result is the number of bytes written |
| Printf.ResultCountsBytes | lib/vfprintf.c:339-347 | for every format and arguments a non-negative result is the number of bytes written (section 7.21.6.1 of C11), and at most INT_MAX |
| PrintfText.PoppedWord | lib/vfprintf.c:216-273 | for every modifier and letter the number taken from an argument is congruent to the raw word modulo 2 to the size that the modifier names, and in the range of its type |
| PrintfText.PoppedByte | lib/vfprintf.c:534-537 | %c's argument keeps its low byte |
| PrintfText.ArgumentIsUnique | lib/vfprintf.c:216-273 | no other number is such |
| PrintfText.NumberField | lib/vfprintf.c:492-605 | a number conversion writes blanks, sign or prefix, zeros, digits and blanks: the digits in the letter's base and case and without leading zero evaluate to the number; zeros fill the precision, and the width with `0`; blanks fill the width otherwise, on the right with `-` |
| PrintfText.DigitsAreUnique | lib/vfprintf.c:289-310 | digits without a leading zero are determined by base, case and value |
| PrintfText.NumberTextIsUnique | lib/vfprintf.c:492-605 | number, flags, width and precision determine that text |
| PrintfText.NumberFailsIff | lib/vfprintf.c:506-532 | a number conversion fails exactly for a precision past INT_MAX (but not in %#o), or if the bytes written would pass INT_MAX |
| PrintfText.TextField | lib/vfprintf.c:534-605 | %c and %s write their characters and blanks up to the width, on the right with `-`, and never zeros |
| PrintfText.CountStored | lib/vfprintf.c:466-491 | %n stores the count modulo the size of the type that the modifier names |
| PrintfFormat.NumberPiece | lib/vfprintf.c:373-605 | a written number directive prints the text of the one number that its argument stands for, with the written flags, of which `-` and a precision cancel `0`, and the written width and precision, and moves on by its arguments |
| PrintfFormat.TextPiece | lib/vfprintf.c:373-605 | a written %c or %s prints its argument's low byte, or its argument's string up to the precision, within the width |
| PrintfFormat.TextFailsIff | lib/vfprintf.c:534-605 | it fails exactly if the bytes written would pass INT_MAX |
| PrintfFormat.CountPiece | lib/vfprintf.c:466-491 | a written %n prints nothing and stores the bytes written before it at its argument |
| PrintfFormat.FormatMeans | lib/vfprintf.c:324-627 | for every format made of text and directives: printf writes the texts, `%%` as `%`, and the directives' pieces in order, takes the arguments in order, and fails exactly where a piece cannot be printed |
| Scanf.Console.ScanInt | lib/vfscanf.c:40-77 | the value, the characters consumed and the echo of the %d branch |
| Scanf.PrintsDecimal | lib/vfprintf.c:508-521 | %d writes a minus sign for negative numbers, then the digits, and returns their number |
| Scanf.ScanMeans | lib/vfscanf.c:40-77 | for every input: digits that make 0 and a sign may come first, then the digits whose number, as an int, counts; white space, backspace, delete or a zero byte ends it, anything else and the end of input are refused; and what is consumed and echoed in each case |
| Scanf.ScansDecimal | lib/vfscanf.c:44-76 | the decimal form of v and a terminator scan as v, for every v from -INT_MAX to INT_MAX, and are consumed and echoed entirely |
| Scanf.PrintThenScan | lib/vfscanf.c:40-77 | printing v by %d and scanning the text plus any terminator gives v back |

## Left out

- PageTables.VirtualMemory.CopyMapping: requires the destination and all free frames to hold no valid stale entry, because the code zeroes neither (arch/riscv/kernel/vm.c:214, arch/riscv/kernel/vm.c:222); third-level tables are overwritten whole, but which free frame becomes a second-level table is the allocator's choice.
- PageTables.VirtualMemory.RemoveMapping: requires that removed entries map RAM frames that are not tables and whose counts cover them; what a process has in a user range satisfies it in every reachable state (UserRangeRemovable), device mappings are never removed.
- PageTables.VirtualMemory.CreateMapping: ranges are non-empty and do not wrap the 27-bit page number, as at every call; the order in which C evaluates the three extract_bits initialisers is taken to be left to right.
- PageAllocator.Buddy.Alloc: requests above 2^63 pages, which fixsize wraps to 0, are excluded; out of memory is a precondition here and a result in AllocPage.
- MemoryAreas.MmStruct.DoMmap: overlap, slot exhaustion and an end that wraps are the caller's obligation, since the code checks none of them; a wrapped end is MmapCoversIff, a head that is a slot in use MapStale, any other stray head is not modelled.
- MemoryAreas.MmStruct.DoMunmap: what a success on a wrapped end does is stated for the range (WrappedRange) and for the list, where the range starts an area and the wrapped end meets no other (CutWrapped); areas are kept with their file offset when cut, as the code does; only anonymous areas mean anything after a cut.
- CowRefinement.RunRefines: covers runs in which every mmap stays in the user's half, disjoint from other areas' pages, and finds a slot, as does every splitting munmap, no munmap's end wraps, and fork finds a task number, as the code needs; where it does not, the results above say what happens.
- CowRefinement.FaultStep: a store fault on a shared page requires the faulting process's entry to be readable, since the handler copies the page by reading it at its user address; CopyReadableIff says when it is, and that the copy otherwise faults without end.
- CowKernel.Kernel.DoFork: page tables appear as maps from page to valid user entry; `TreeKernel` has the same operations on the trees, with the out-of-memory exit.
- TreeKernel.ForkMemory: requires what copy_mapping does, free frames without stale entries; the pages that fork takes for the task, its files and signals appear as single allocations (AllocAgrees).
- TreeKernel.DoPageFault: the bytes of the pages appear in the flat state only, where the copy is made.
- SoftArith.Udivdi3: return addresses and jumps between the routines are calls.
- Fat32Files.Fat32.Read: the file position is within the recorded size and the chain covers that size; chains are what next_cluster walks, which need not be the true FAT slot.
- Fat32Files.Fat32.NextCluster: sectors are exactly 512 bytes and clusters one sector long; device errors do not occur.
- Printf.Stream.PrintfCore: stops with its own result at the first positional directive; the preliminary pass without a stream, which only serves positional arguments, is not modelled.
- Printf.GetInt: after INT_MAX is passed the code relies on signed overflow wrapping, and so does the model.
- Scanf.Console.ScanInt: the %c and %s branches and the scanning of the format itself; a number past INT_MAX wraps in the model.
- delete_mapping and free_pages as release paths: free_pages does nothing to a page in use.
- Interrupt and trap entry, context switch, control registers, TLB fences, SBI calls, virtio and console devices.
- ELF loading, task creation and the rest of fork, exec, exit and wait; signals and the wait queue.
- FAT32 path lookup, directory reading, seeking and initialisation; the master boot record.
- User malloc, the shell, the system call table and the string helpers.
