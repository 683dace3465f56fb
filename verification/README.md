# rix: a verified model of its sort, page allocator, boot tables and boot map

This project models the parts of the rix x86-64 kernel that carry algorithms, and proves what they are for.

* **The three-way quicksort** (`qsort.c`), on bytes, in place, with both swap representations, both pivot
  representations and all three pivot rules; and the init-hook runner (`init.c`) that is built on it.
  Modules `Blocks`, `Order`, `QuickSort`, `InitHooks`.
* **The physical page allocator** (`pmm.c`, `list.h`, `balloc.c`), at two levels. `Pmm` and `Lists` are classes
  over node objects whose `prev` and `next` fields the methods rewrite as the source does. `PmmModel`, `PmmOps`,
  `PmmRange`, `PmmRuns` and `PmmLimits` are the sequences and maps they refine, with one invariant (`PmmModel.Inv`,
  written out in `PmmModel.Laws`), what each call means, what holds over every run, and what goes wrong and when.
  Every method of `Pmm.Allocator` states its new state as the model's function of the old.
* **The boot page tables** (`start.S`): the register-counted loops that fill them from 32-bit halves, and what the
  result maps under 4-level paging (Intel SDM Vol. 3A, section 4.5), together with `paddr_to_kvaddr` and the kernel
  addresses that the allocator's pages get. Modules `Paging`, `BootTables`, `BootMap`, `Kpages`.
* **The kernel's own walk** (`mmu.c`, `ptable.h`): where it agrees with the processor's and where it does not.
  Modules `Mmu`, `MmuLimits`.
* **The boot-information parser** (`platform.c`, `multiboot2.h`; Multiboot2 Specification, sections 3.6.2 and 3.6.8)
  over bytes in memory, as the inverse of laying the block out, and the zones the allocator gets from it.
  Modules `Bytes`, `BootInfo`, `BootBlock`, `BootZones`, `Platform`.
* The mask arithmetic all of them rest on (`stdlib.h`). Modules `Bits`, `Rounding`, `Sequences`.

`dafny verify dfyconfig.toml` checks everything.

## How the model stands to the source

* The sort's cursors count elements; `Blocks.At` turns one into the address the source holds. The array is a slice
  of a byte array whose index is the address. A comparator is any total function on element values that is a total
  preorder; distinct elements may be equivalent.
* List nodes are objects with an owner (a head, or the page at an index of a zone) in place of `container_of`.
  The zone list itself is a sequence: it is only appended to and walked. The caller's `pmm_zone_t` is an object made by `AddZone`.
* The pages are 24 bytes apart (`sizeof(vm_page_t)`). `PAGE_BELONGS_TO_ZONE` bounds the page array by the number of
  frames, in bytes, as the code does. So only a page with `24 * index` below the number of frames is taken back by
  `pmm_free_pages`; the others leave the caller's list and are never free again (`Place.Lost`, `PmmLimits.LostForEver`).
  Of a zone of n frames at most (n + 23) / 24 can ever come back (`PmmLimits.FewAreTakenBack`).
* `paddr_to_vm_page` applies that same test to a physical address (`pmm.c:324`). `PmmOps.PaddrToVmPageFindsIff` says
  when it undoes `vm_page_to_paddr` all the same; with the page arrays above memory, where the kernel has them, it never
  does, and they stay there over every run (`PmmLimits.ArraysStayAbove`).
* `pmm_alloc_pages` with a count of 1 links a page pointer that `pmm_alloc_page` leaves unset when no page is free.
  The outcome `Stray` stands for that; the model says exactly when it happens and stops there. `PmmLimits.StrayIsReached`
  is a run that comes to it.
* A run is any sequence of the calls and of what callers do with pages that are out: putting one in hand on a list, and
  taking one off a list.
* `pmm_alloc_range` is modelled for a real list. An address in the last, partial page of a zone has no entry in its
  page array, but the code indexes the array for it. `PmmRange.OutOfArray` says when a request comes to such an
  address; the outcome `stray` stands for that, and the model stops there. `PmmRange.OutOfArrayIff` states it in terms of the
  state before the call, `PmmLimits.HalfPageIsReached` is a run that ends so, and no zone of the boot path has a partial
  page (`BootZones.BootZonesAreWhole`).
* `pmm_alloc_range` walks the zones once, so it agrees with the longest free run exactly when the
  owners come in list order (`PmmRange.RangeIsLongestIff`); ascending zones do (`PmmRange.AscendingRange`), and
  `PmmLimits.HighFirstIsReached` is a run to a layout where they do not.
* `init.h:53-54` says that hooks of higher priority run earlier. The comparator sorts by ascending priority
  (`init.c:22-28`). The model follows the code; `InitHooks.HigherFirstOnlyWithoutChoice` says exactly when the two agree.
* `x86_mmu_get_mapping` indexes through an entry without masking off its flags. `Mmu.GetMapping` has both behaviours:
  `masked == false` is the code as written, `masked == true` takes table addresses under `X86_4KB_PAGE_FRAME`.
  `MmuLimits.RightExactlyThroughAbsent` says that the code as written can be relied on exactly when the PML4 entry is
  absent, and `MmuLimits.UnmaskedOnBootTables` that on the boot tables it reports every kernel address unmapped.
  `mmu.h:61` promises the flags of the last valid entry; the code sets them for a 4 KiB leaf only
  (`Mmu.FlagsAreTheLeafsIff`, `Mmu.FlagsOfFailureIff`), so for no address of the boot tables (`MmuLimits.FlagsOnBootTables`).
* All of physical memory is taken to be visible through the window at `KERNEL_ASPACE_BASE`. `Paging.Memory` gives the
  8-byte value at every address; where overlapping reads matter (`MmuLimits`, `BootBlock`) memory is bytes.
* `platform.c` starts again at the first place of the table with every memory-map tag but keeps counting
  (`platform.c:60-74`). `BootInfo.RecordedExactlyIff` says that the table is right exactly when at most one map has
  available memory from 1 MiB up; `BootInfo.SecondMapOverwrites` is a block where it is not. Past its ten places the
  source writes on, and at a tag of size 0 it stays for ever; the outcomes `Overrun` and `Endless` stand for that, with
  the exact condition of each, and the model stops there. Addresses in the block are offsets from its start; it does
  not wrap the address space.
* `platform.c:89-90` rounds the base of a region up and its size down, each by itself, so a zone can end beyond its
  region. `BootZones.Fits` is the condition on a region's base and size under which it does not; `Platform.PlatformInit`
  carries it to the frames of the allocator that boot builds.
* Long predicates are kept shut behind `Bits.Open` and gates like it, which are always true: a proof that only passes them on
  does not look inside.

## Model

| member | source | states |
|---|---|---|
| Rounding.RoundUpIsArithmetic | stdlib.h:3-4 | for every power of two the mask form is the least multiple not below the address, and 0 when that is beyond 64 bits |
| Rounding.CeilingIsLeast | stdlib.h:3-4 | that rounded value is a multiple, less than one step above, and no multiple lies between |
| Rounding.RoundDownIsArithmetic | stdlib.h:6 | rounding down by mask subtracts the remainder, for every power of two |
| Rounding.IsAlignedIsDivisible | stdlib.h:9-10 | the mask test is divisibility |
| Blocks.SwapFunc | qsort.c:29-44 | word by word or byte by byte, the result is the same exchange of two blocks that are disjoint or identical |
| Blocks.SwapBlocksPermutes | qsort.c:29-44 | an exchange of blocks keeps the multiset of items |
| Blocks.SwapBlocksTwice | qsort.c:21-44 | exchanging twice restores every item |
| Blocks.ElementIsSlice | qsort.c:79-130 | in the source's arithmetic: the array ends at `base + n * es`, and element i is the `es` bytes from `base + i * es` on |
| Blocks.ViewOfSwap | qsort.c:26-44 | exchanging the bytes of whole elements exchanges exactly those elements and breaks no other |
| QuickSort.SwapTypeMeans | qsort.c:10-13 | which alignments and sizes give swap types 0, 1 and 2 |
| QuickSort.VecSwap | qsort.c:26-27 | exchanges runs of elements and touches no byte outside the array |
| QuickSort.Exchange | qsort.c:22-24 | one exchange of two elements, under every swap type, bytes outside the array unchanged |
| Order.Med3IsMedian | qsort.c:46-55 | the chosen element is a median of the three under the comparator |
| QuickSort.ChoosePivot | qsort.c:88-100 | the pivot rule stays inside the array, and above seven elements its choice is no strict extreme |
| QuickSort.InitPivot | qsort.c:15-19 | the pivot's value is kept in the first element or in a copy, and the array is only rearranged |
| QuickSort.ScanUp | qsort.c:106-112 | the first inner loop keeps the four zones and the pivot in place, and stops at an element above the pivot |
| QuickSort.ScanDown | qsort.c:113-119 | the second inner loop keeps them too, and stops at an element below the pivot, never where the first one stopped |
| QuickSort.Partition | qsort.c:103-128 | the loop ends with `pb` one past `pc` and every element in one of the four zones; a pivot read in place has not moved |
| QuickSort.GatherIsThreeWay | qsort.c:130-135 | the two block exchanges act on disjoint blocks and leave less, equal, greater contiguous |
| QuickSort.Gather | qsort.c:130-135 | the bytes end in three-way order, rearranged, with nothing outside changed |
| QuickSort.PivotLeavesGroups | qsort.c:137-144 | the two groups left have together fewer elements than the array, because the pivot is in neither |
| QuickSort.InsertionSort | qsort.c:78-86 | the short-array branch sorts and rearranges |
| QuickSort.ThreeWaySorted | qsort.c:138-144 | sorting the outer groups, each among itself, sorts the whole |
| QuickSort.PartRearranged | qsort.c:138-144 | rearranging a part of the array rearranges the whole and leaves the other elements where they were |
| QuickSort.QSort | qsort.c:68-145 | terminates with the array sorted, its elements kept whole and the same up to order, for every length, element size, alignment and total preorder |
| InitHooks.HookCmpIsPreorder | init.c:17-29 | the hook comparator orders all hooks totally, as the sort demands |
| InitHooks.HookCmpIsOrder | init.c:17-29 | "not greater" is: lower stage, or same stage and priority not higher |
| InitHooks.HooksOfPermutes | init.c:34-45 | rearranging the table's elements rearranges the hooks |
| InitHooks.DecodesIff | init.h:30-36 | the decoded table is the one whose entries, laid out field by field in 32 bytes each, are the bytes in memory; every table of bytes is such a layout |
| InitHooks.InitSystem.InitHooksInit | init.c:34-45 | memory laid out from any hooks ends as the layout of the same hooks, each as often, in (stage, priority) order, and nothing outside the table changes |
| InitHooks.InitSystem.KernelInitUpto | init.c:47-67 | calls exactly the hooks from the cursor to the first of a later stage, once each, in order, with the 32-bit stage one below the hook's own meanwhile, and then sets the stage |
| InitHooks.InitSystem.Boot | init.c:34-67 | sorting and then any sequence of calls: the calls made are those of the sorted table's first entries, one by one, up to the last of stage at most the largest asked for |
| InitHooks.ReachStands | init.c:47-67 | after a call the cursor parts the hooks of stage at most the largest asked for from the rest |
| InitHooks.RunsExactlyReached | init.c:47-67 | over every sequence of calls, the hooks run are exactly those of stage at most the largest asked for, each once, in order |
| InitHooks.TwoCallsAreOne | init.c:47-67 | asking for two stages in turn is asking for the larger |
| InitHooks.HigherFirstOnlyWithoutChoice | init.c:22-28 | the order that the header promises holds if and only if hooks of one stage share one priority |
| InitHooks.HigherFirstFails | init.c:22-28 | a table in which it does not |
| Lists.Rings.Init | list.h:34-37 | a new list is empty |
| Lists.Rings.Add | list.h:67-74 | the entry goes first, the other rings of the heap are unchanged |
| Lists.Rings.AddTail | list.h:79-86 | the entry goes last |
| Lists.Rings.Replace | list.h:91-98 | the new entry takes the place of the old one |
| Lists.Rings.Delete | list.h:103-109 | the entry leaves its list, the others keep their order, and its pointers are null |
| Lists.Rings.IsEmpty | list.h:48-51 | true exactly for the empty sequence |
| Lists.Rings.RemoveHead | list.h:114-124 | takes the first entry, or null when there is none |
| Lists.Rings.RemoveTail | list.h:140-150 | takes the last entry, or null when there is none |
| Lists.Rings.PeekHead | list.h:166-174 | the first entry, nothing changed |
| Lists.Rings.PeekTail | list.h:190-198 | the last entry, nothing changed |
| Lists.Rings.Length | list.h:234-242 | terminates with the number of entries |
| Lists.Rings.SplitAfter | list.h:248-263 | the list keeps what is up to the position, the other list gets the rest, both rings closed |
| Lists.Rings.SpliceAfter | list.h:268-280 | the entries go in right after the position, in order, and their list is left empty |
| Lists.Rings.Move | list.h:286-290 | the new list has the entries of the old one, which is left empty |
| Lists.Rings.SplitAndSplice | list.h:248-280 | splitting anywhere and splicing back at the same place restores every list |
| Lists.RingIsUnique | list.h:15-18 | the next and prev fields determine the sequence that a list holds |
| Lists.Rings.IsList | list.h:56-62 | true for every node of a ring, false exactly for a node whose pointers are both null |
| Lists.SpliceLap | list.h:268-280 | the lap around the spliced ring is the two laps joined |
| PmmOps.BallocIsApart | balloc.c:12-19 | an allocation is 8-aligned, begins at or above the end of the one before and ends at or below the new end |
| PmmOps.BallocIsApartIff | balloc.c:12-19 | it does so if and only if the old end and the length, both rounded up, add up to less than 2^64; else it overlaps what came before or what comes next |
| PmmOps.CounterArrivesIff | pmm.c:48-53 | the 32-bit counter of the loop over a new zone's pages gets to their number if and only if that is below 2^32 |
| Pmm.BootAllocator.Balloc | balloc.c:12-19 | while the address space lasts, what it hands out is 8-aligned, begins at or above what was handed out before and lies below what will be handed out next; past that, 64-bit arithmetic |
| PmmOps.AddZoneInv | pmm.c:28-56 | adding a zone keeps the invariant: rings, flags, counts, owners and disjoint page arrays |
| PmmOps.AddedZoneIs | pmm.c:40-53 | the new zone, in any state: last, with one page for each whole frame, all unmarked and free, the ring in the order of the array, the array where the boot allocator puts it |
| PmmModel.PagesArePartitioned | pmm.c:28-206 | each page is in its own zone's ring, on one caller's list, in a caller's hand or given up, and in one of them only: it is in a ring or on a list exactly if its place says so; its flag is clear exactly in the ring |
| PmmModel.TakeInv | pmm.c:79-127 | taking any free page for any destination keeps the invariant |
| PmmModel.FreeFirstInv | pmm.c:177-193 | re-homing the first page of a list keeps the invariant, whether or not a zone takes it |
| PmmModel.HomeIsOwnZone | pmm.c:14-17 | no other zone's page window holds a page, so the search finds its own zone or, beyond the byte bound, none |
| PmmOps.AllocPageMeaning | pmm.c:108-130 | the page returned is the head of the first free ring that is not empty, and none exactly when all are empty; the sum of the free counts drops by one exactly then |
| PmmOps.AllocPagesMeaning | pmm.c:58-106 | exactly min(count, total free) pages, the first of the zones' rings in zone order, appended in that order; the stray case exactly for count 1 with no free page; the sum of the free counts drops by the count |
| PmmOps.FreeAllSound | pmm.c:174-196 | freeing a list keeps the invariant, empties the list and changes the place of its pages only |
| PmmOps.FreeAllMeaning | pmm.c:174-196 | each zone's ring gains exactly the accepted pages of its own from the list, in reverse order, at the front |
| PmmOps.FreeAllCounts | pmm.c:174-196 | the returned count is the growth of the total of free pages |
| PmmOps.FreePageIs | pmm.c:198-206 | freeing one page through the temporary list returns it to its zone's front, or counts 0 |
| PmmOps.FreeThenAllocReturnsIt | pmm.c:108-130 | an accepted free followed by an allocation gives the same page when no earlier zone has free pages |
| PmmOps.HandInv | list.h:79-86 | a caller that puts a page in hand last on a list keeps the invariant |
| PmmOps.UnhandInv | list.h:103-109 | so does one that takes any page off a list |
| PmmOps.PaddrOfPage | pmm.c:308-318 | an accepted page's address is inside its zone and gives back its index; any other page gives -1 |
| PmmOps.PaddrIsInjective | pmm.c:308-318 | two accepted pages have one address only if they are one page, when zones do not overlap |
| PmmOps.PaddrToVmPageFindsIff | pmm.c:308-331 | for an accepted page the reverse lookup undoes the lookup if and only if some zone's window holds the physical address, the first such zone does not begin above it, and that zone's array at that distance is the page |
| PmmOps.ArraysAboveLeadNowhere | pmm.c:320-331 | with all page arrays above all zones no accepted page meets that condition |
| PmmOps.PaddrToVmPageFindsNothing | pmm.c:320-331 | with all page arrays above all zones the reverse lookup finds no page for any address of any zone |
| PmmOps.OneZoneIsNotFound | pmm.c:308-331 | a sound allocator with one page, whose page has an address and is not found again |
| PmmOps.FoundThroughAnother | pmm.c:320-331 | a sound layout in which a page is found again, through a zone that is not its own |
| PmmRange.AllocRangeMeaning | pmm.c:132-172 | the pages appended are exactly those of the climb, in address order, the count is theirs, and no other page changes |
| PmmRange.AllocRangeCounts | pmm.c:132-172 | whatever the zones, overlapping or not: the list grows by the returned count, the sum of the free counts drops by it, and the invariant stays |
| PmmRange.FreeOwnerIff | pmm.c:10-12 | an address is on offer if and only if it lies in the 4096 bytes of the frame of a free page |
| PmmRange.LongestFreeIsLongest | pmm.c:132-172 | the reference: frames free up to the length, and not at it unless all are granted |
| PmmRange.ClimbIsLongestIff | pmm.c:145-168 | one pass over the zones grants that length if and only if the owners of the frames come in list order, and never more |
| PmmRange.AscendingClimbs | pmm.c:145-168 | in ascending zones the owners always do |
| PmmRange.AscendingRange | pmm.c:132-172 | so with ascending, disjoint zones of whole pages the range is exactly the longest free prefix, across adjacent zones |
| PmmRange.RangeIsLongestIff | pmm.c:132-172 | the same condition for the call as a whole, both directions |
| PmmRange.HighFirstIsCutShort | pmm.c:145-168 | two adjacent zones listed high first: a request for two free frames gets one |
| PmmRange.ZoneIsPagedIff | pmm.c:145-155 | every address of a zone has an entry in its page array if and only if the zone's size is a whole number of pages |
| PmmRange.OutOfArrayIff | pmm.c:145-168 | a request comes to an array entry past the end if and only if the frame where the climb ends, wanting more, begins past the last whole page of a zone still to come |
| PmmRange.WholePagesAreSafe | pmm.c:145-168 | so with zones of whole pages no request does |
| PmmRuns.EveryStateIsSound | pmm.c:28-206 | the invariant holds in every state of every run of the calls |
| PmmRuns.ReceivedWasFree | pmm.c:58-172 | pages a call hands out were free before it, are not after it, and are distinct |
| PmmRuns.OutUntilTakenBack | pmm.c:28-206 | a page that is out stays out until a call takes it back |
| PmmRuns.NoPageHandedOutTwice | pmm.c:28-206 | between two calls that hand out the same page some call took it back |
| PmmRuns.StepPlaces | pmm.c:28-206 | all that can become of a page: one that is out comes back if the call takes it back, and is given up if the call gives it up; else it stays out, in hand or on some list; a free one may go out; one given up stays so |
| PmmRuns.StepSays | pmm.c:28-206 | a page is handed out if and only if it was free and is no longer, taken back if and only if it was not free and is, given up if and only if it was not lost and is |
| PmmRuns.StepCounts | pmm.c:28-206 | conservation: every call changes the sum of the free counts by the pages it hands out and those it adds, and by nothing else |
| PmmRuns.PagesNeverVanish | pmm.c:28-206 | pages once added have a place in every later state |
| PmmLimits.LostForEver | pmm.c:174-196 | over every run, a page once given up is never free, listed or handed out again |
| PmmLimits.FreedIsLostIff | pmm.c:174-196 | freeing a list gives up exactly those of its pages that have index (n + 23) / 24 or more in their zone of n frames |
| PmmLimits.FewAreTakenBack | pmm.c:28-206 | over every run, at most (n + 23) / 24 different pages of a zone of n frames are ever taken back |
| PmmLimits.OneOfTwoIsLost | pmm.c:28-196 | a run on a zone of two pages in which both are handed out and freed, the count is 1, and the second is lost |
| PmmLimits.ZonesStay | pmm.c:28-206 | over every run zones are only added at the end; those there keep base, size, page array and length |
| PmmLimits.LayoutStays | pmm.c:28-206 | so zones that rise once all are there rise ever after |
| PmmLimits.RangesStayLongest | pmm.c:132-172 | over every run, once zones of whole pages rise and no more are added, a range call can always be made and grants exactly the longest free prefix, frame after frame from the one asked for |
| PmmLimits.RangeGrantsFrames | pmm.c:145-168 | whatever the zones, the j-th page granted is that of the frame at the requested page plus 4096 j, modulo 2^64 |
| PmmLimits.RangeDoesNotWrap | pmm.c:145-168 | where no zone at the top of the address space is listed before one at its bottom, that sum does not wrap |
| PmmLimits.RangeAddresses | pmm.c:308-318 | in a zone that begins at a page, a granted page that its window accepts has that very address |
| PmmLimits.ArraysStayAbove | pmm.c:28-56 | over every run that begins with the boot allocations above all zones to be added, the page arrays are above all zones in every state |
| PmmLimits.HalfPageIsReached | pmm.c:28-168 | a run on a zone of a page and a half after which a request for two frames reads past the page array |
| PmmLimits.StrayIsReached | pmm.c:58-79 | a run without zones after which asking for one page comes to use the unset pointer |
| PmmLimits.TwoPagesAreReached | pmm.c:28-56 | two zones of one page each, at any bases and in either order, are reached by a run |
| PmmLimits.HighFirstIsReached | pmm.c:145-168 | a run after which a range request for two free frames gets one |
| PmmLimits.FoundThroughAnotherIsReached | pmm.c:320-331 | a run after which a page is found by its address through a zone that is not its own |
| Pmm.Allocator.AddZone | pmm.c:28-56 | the objects after the call are those of the model with the zone added; an empty zone is refused and changes nothing |
| Pmm.Allocator.AllocPage | pmm.c:108-130 | refines the model's `AllocPage`; the pointer is null exactly when the source leaves it unset |
| Pmm.Allocator.AllocPages | pmm.c:58-106 | refines the model's `AllocPages`, count and all, or reports the stray case and changes nothing |
| Pmm.Allocator.AllocRange | pmm.c:132-172 | refines the model's `RangeFrom`, same state and same count, and puts on the list the pages of consecutive frames from the requested one on, unless the request comes to an entry past a page array, which it reports exactly then |
| Pmm.Allocator.FreePages | pmm.c:174-196 | refines the model's `FreeAll`: same state, same count |
| Pmm.Allocator.FreePage | pmm.c:198-206 | refines the model's `FreePage` through a temporary list |
| Pmm.Allocator.PageToPaddr | pmm.c:308-318 | refines the model's `VmPageToPaddr` |
| Kpages.AllocKpage | pmm.c:274-286 | one page: its kernel address is that of its frame for an accepted page below 64 GiB, else null with the page handed out all the same; the unset pointer exactly when no page is free |
| Kpages.KernelPageIsMapped | pmm.c:274-286 | at that address the boot tables, walked, lead to the page's own frame, byte by byte, as far as the window goes |
| Kpages.KernelPageIsWhole | pmm.c:274-286 | for a zone that begins at a page the window goes to the end of the frame |
| BootTables.HalvesRecombine | start.S:104-127 | the low half after `shll 21` and the high half after `shrl 11` make up the whole 64-bit entry |
| BootTables.Section.FillPd | start.S:98-111 | the 512 entries of the low table, each a present, writable, large, global page, the other entries unchanged |
| BootTables.Section.FillPdeArray | start.S:114-132 | the 32768 entries of the large window, each a present, writable, large, global page, the other entries unchanged |
| BootTables.Section.FillPdpHigh | start.S:135-146 | the 64 pointers to those tables, present and writable, the other entries unchanged |
| BootTables.Section.SetupPaging | start.S:70-146 | every entry of every table, from a cleared section, with its flags bit by bit |
| BootTables.Section.UnmapLow | start.S:175-177 | the first PML4 entry is cleared and no other |
| BootMap.BootMapIs | start.S:70-146 | a canonical address is translated if and only if it is in one of the windows, and then to the address at the same distance from the window's start |
| BootMap.BootMapIsWritable | ptable.h:8-17 | for every mapped address the three entries the walk reads are present and writable, the last is a large global page, and no other flag is set in any of them |
| BootMap.BootPaging | start.S:70-177 | the loops and the unmapping together: the walk over the finished tables, every mapped address writable, and no low-half address mapped |
| BootMap.PaddrToKvaddr | pmm.c:295-306 | for any table: the first covering entry before the end mark decides, or null |
| BootMap.KernelCover | platform.c:18-28 | with the kernel's table only the first entry is ever used, exactly below 64 GiB |
| BootMap.KernelAddress | pmm.c:295-306 | the kernel address of a physical one below 64 GiB, null from there on |
| BootMap.KernelAddressesAreInverse | platform.c:18-28 | both windows of the mapping table are undone by the boot tables, for every address of theirs |
| Mmu.IndexIsField | ptable.h:42-45 | the four index macros cut out bits 47:39, 38:30, 29:21 and 20:12 |
| Mmu.FrameBits | ptable.h:33-36 | the frame masks cut out bits 51:12, 51:21 and 51:30 |
| Mmu.Moved | mmu.h:14-15 | moving an entry into the window and back restores it and keeps its flags, with wrap-around |
| Mmu.GetMapping | mmu.c:183-242 | status, frame or entry, flags and level through the out-pointers; with a null pointer an error and nothing written |
| Mmu.Query | mmu.c:364-385 | the address and the optional flags on success, nothing written on failure |
| Mmu.MaskedWalk | mmu.c:183-242 | with masked entries the walk is the processor's for every memory and address, but that it knows no 1 GiB page |
| Mmu.MaskedAgrees | mmu.c:183-242 | without 1 GiB pages it is the processor's: same address for 4 KiB and 2 MiB leaves, same failing level, deepest table reached |
| Mmu.UnmaskedWalk | mmu.c:68-98 | as written, at every level: the walk that takes an entry with its flags for the address of the next table, with the sum wrapping at 2^64 |
| Mmu.FlagsAreTheLeafsIff | mmu.h:61 | masked, on success, the flags are those of the leaf, as the header says, if and only if it is a 4 KiB leaf |
| Mmu.FlagsOfFailureIff | mmu.h:61 | on failure, masked or not, the flags are 0, and so those of the entry returned if and only if that is the PML4 table itself |
| MmuLimits.RightExactlyThroughAbsent | mmu.c:68-98 | as written the walk through a PML4 entry is right for all memories if and only if the entry is absent |
| MmuLimits.MaskedRightExactlyWithoutGib | mmu.c:203-217 | masked, the walk through two present entries is right for all memories if and only if the second is no 1 GiB page |
| MmuLimits.MaskedOnBootTables | mmu.c:183-242 | masked, the walk over the boot tables finds every kernel address where it is |
| MmuLimits.FlagsOnBootTables | mmu.h:61 | and with flags 0, though every leaf there has some |
| MmuLimits.UnmaskedOnBootTables | mmu.c:68-82 | as written it reports every address of the kernel's half absent at the third level, with the tables below 16 MiB |
| BootInfo.BootState.InitBootState | platform.c:44-84 | for any memory contents: the walk writes past the table exactly if a map it meets has more than ten entries of type 1 from 1 MiB up, goes on for ever exactly if else it never stops, and otherwise counts those entries and notes the length of the last entry at address 0 |
| BootInfo.StopsIffSized | platform.c:52-83 | the walk, step after step, comes to its end if and only if every tag it visits has a size |
| BootInfo.NoSizeNoEnd | platform.c:52-83 | a block whose walk does not end |
| BootInfo.BootState.ReadMap | platform.c:54-77 | one memory map: past the table exactly if it has more than ten such entries; else each of them is at the place of its number among them, the places beyond are as they were, and they are counted |
| BootInfo.HighIs | platform.c:67-75 | of a list of entries as many regions are recorded as are of type 1 from 1 MiB up, each with its address and length, in order |
| BootInfo.HighIff | platform.c:67-75 | a region is recorded if and only if there is such an entry for it |
| BootInfo.LowerIs | platform.c:62-65 | the low-memory size is the length, modulo 2^32, of the last entry at address 0, or what it was |
| BootInfo.MapsTogether | platform.c:52-83 | over several maps, what is counted and noted is that of all their entries in a row |
| BootInfo.RecordedAt | platform.c:60-74 | over several maps, place k of the table ends with region k of the last map that has so many, or as it was |
| BootInfo.RecordedExactlyIff | platform.c:60-74 | the table holds exactly the regions of all maps, in order, if and only if at most one map has any |
| BootInfo.SecondMapOverwrites | platform.c:60-74 | two maps of one region each, of which the table keeps only the second |
| BootBlock.TagReads | multiboot2.h:7-31 | a tag laid out in bytes is read back, with its entries and its padding |
| BootBlock.InfoReads | platform.c:48-83 | a block laid out in bytes is walked to its end and gives exactly the memory maps in it |
| BootBlock.Boot | platform.c:44-84 | of such a block: past the table exactly if one map has more than ten entries of type 1 from 1 MiB up; else their number over all maps, the low-memory size, and, exactly if at most one map has any, a table of just those entries |
| BootBlock.InEntries | platform.c:52-83 | count, low-memory size and regions in terms of the entries in the block |
| BootZones.ZoneInRegionIff | platform.c:86-94 | the page-rounded zone lies in its region if and only if the region is less than a page, or its base rounds up, without wrapping, by no more than its size rounds down |
| BootZones.ZonesBeyondRegions | platform.c:86-94 | two regions for which it does not: one placed in the middle of a page, and one at the end of the address space, whose zone is at 0 |
| BootZones.LastFrameOutside | platform.c:86-94 | of disjoint regions, one that fails that condition gives a zone with a frame in no region at all |
| BootZones.FramesInIff | platform.c:86-94 | for disjoint regions every frame of every zone lies in a region if and only if every region meets the condition |
| BootZones.WholeFramesIff | platform.c:86-94 | the frames of the zone of a region that meets the condition are exactly the aligned pages that lie in the region |
| BootZones.AllFramesIff | platform.c:86-94 | so the zones together have every whole frame of the regions and no other |
| Platform.PmmZoneInit | platform.c:86-94 | the zones written down are the recorded regions rounded, and the allocator ends with them added one by one; past the tables exactly if more than ten are counted |
| BootZones.AddIsStep | pmm.c:28-56 | adding a zone at boot is a step of the runs above, enabled under the same conditions |
| BootZones.AddedBounds | platform.c:86-94 | it has the zones it had and then those not empty, in order |
| BootZones.BootZonesAreWhole | platform.c:86-94 | all of them consist of whole pages, as the range allocator needs |
| BootZones.BootLayout | platform.c:86-94 | regions that rise and meet the condition give a sound state whose zones rise and do not overlap |
| BootZones.BootIsRun | platform.c:86-94 | the state boot builds is reached by a run of the allocator |
| BootZones.BootRangesAreLongest | platform.c:86-94 | over every run that goes on from there, range calls grant exactly the longest free prefix, frame after frame from the one asked for |
| Platform.BootRegionsAreAllIff | platform.c:60-74 | what boot passes on is all available memory of the block, the entries of type 1 from 1 MiB up, if and only if at most one map has any |
| Platform.PlatformInit | platform.c:96-103 | from the bytes of the block to the allocator: it runs past a table exactly if the block has more than ten entries of type 1 from 1 MiB up in all; else there is one zone of whole pages for each recorded region of at least a page; for disjoint regions its frames all lie in them if and only if every region meets the condition; zones rise and are disjoint when the regions do and meet it; if all meet it, the allocator has every whole frame of every region |

## Left out

- Pmm.Allocator.AllocPages: in the stray case the model stops; what the source then links is whatever the unset pointer holds.
- Pmm.Allocator.AllocRange: in the stray case the model stops; what the source then does depends on the memory after the page array.
- Pmm.Allocator.AddZone: `memset` is the zeroing of the new page array; a zone of 2^32 or more frames, for which the loop never ends (`PmmOps.CounterArrivesIff`), and a boot allocation that wraps the address space (`PmmOps.BallocIsApartIff`) are excluded.
- PmmOps.PaddrToVmPageFindsIff: for physical memory below 2^52 and page arrays that lie within 2^52 bytes (`Addressable`), where 64-bit differences tell which side they are on.
- InitHooks.InitSystem.KernelInitUpto: hooks are recorded, not executed; a hook that calls the runner again is not modelled.
- BootInfo.BootState.InitBootState: past the table the model stops; the source goes on and overwrites the count. The entry size in the tag is ignored, as in the source.
- BootInfo.BootState.ReadMap: past the table the model stops likewise.
- BootBlock.Boot: past the table the model stops likewise.
- Platform.PmmZoneInit: past the tables the model stops; page arrays that would wrap the address space are excluded, as in `AddZone`.
- Platform.PlatformInit: past a table the model stops; page arrays that would wrap the address space are excluded, as in `AddZone`.
- The zone list as a ring of its own: the zones are a sequence, in list order.
- `list_for_each_prev`, which does not compile when used (`list.h:220-221`), and the type-casting list macros.
- `paddr_to_kvaddr` returning an address of the second window: the first window shadows it for every address.
- `x86_mmu_check_vaddr`, `x86_mmu_check_paddr`, `x86_mmu_init`: an always true test, a one-line comparison, and control registers.
- Code under `#if 0` in `mmu.c` and `pmm.c`, and the empty ends of `pmm_alloc_kpages` (more than one page) and `pmm_free_kpages`.
- `printf.c`, `string.c`, `kheap.c`, `vm.c`, `spinlock.h`, threads, interrupts, consoles: stubs, plumbing, or code without a meaning to state; the kernel is taken as single-threaded.
- The rest of `start.S`: the multiboot header, descriptor tables, control registers and jumps; the cleared `.bss` is a precondition.
