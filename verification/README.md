# EagleOS memory management, verified in Dafny

This project models the memory management of the EagleOS kernel (32-bit x86) and two of its string algorithms, and
proves properties of the model. `dafny verify dfyconfig.toml` checks everything.

The layers, from the bottom up:

| file | what it holds |
|---|---|
| `Words.dfy` | 32-bit words as numbers, with bitwise conjunction and disjunction |
| `Bitmaps.dfy` | `ESTD::Bitmap`: an array of bytes that stands for a set of page numbers, and its first-fit search |
| `PhysicalMemory.dfy`, `PhysicalRuns.dfy`, `MemoryMaps.dfy` | the physical memory manager; its promises over whole runs; the memory map and the frames free at the start |
| `PageEntries.dfy`, `PageTables.dfy` | packed entries, the two-level tables as one block of memory, the processor's walk, and the map from page to frame they stand for (32-bit paging, section 4.3 of the Intel SDM, Volume 3A) |
| `VirtualMemory.dfy`, `PageRanges.dfy` | the virtual memory manager, edited in place while the processor sets accessed and dirty flags and fills or drops TLB entries between any two writes (section 4.10 of the same volume); what ranges do |
| `Ledger.dfy`, `Allocator.dfy`, `MemoryRuns.dfy`, `AllocatorFailures.dfy` | the virtual memory allocator, which joins both bitmaps and the tables; ownership over whole runs; what failing calls do |
| `BootTables.dfy`, `KernelStart.dfy` | the boot tables filled in assembly, the tables that replace them, and the start state of every run |
| `Heaps.dfy`, `Coalescing.dfy`, `HeapManager.dfy` | the heap: headers in its own memory, an address-order walk and a doubly linked list; the merges of `Free` as written and as intended |
| `CStrings.dfy`, `Tokens.dfy`, `Numerals.dfy` | `Strtok_r` and what repeated calls answer; `IntToStr` and `Strrev` |

Classes keep the source's fields and update them in place. Each of their methods is proved equal to a function of the
old state (`AfterAllocatePages`, `AfterMapRange`, `Search`, ...), and the lemmas prove what the source promises about
those functions, over all inputs and all runs.

## Where the code does less than it seems to

The model follows the code. For each of these there is an exact condition (if and only if) and, where a table row says
so, a concrete failing case:

- A search that finds no full run answers with the start of a shorter run at the end of the bitmap. `SetBits` then does
  nothing, and an address is handed out whose pages stay free (`AllocateIsHonestIffGrantable`,
  `AllocateKeepsInvariantIff`). The first request of every boot, the heap's 25600 pages, is such a one unless they fit or
  the last frame is in use (`BootKeepsAgreementIff`), for example on a machine with 64 MB (`SmallMachineDisagrees`).
- The mapping-failure branch of the allocator is taken exactly when the pages asked for run past 4 GB, which only a
  request that overruns the virtual bitmap does (`MappingFailsIff`).
- `FreePages` tests the address twice and its translation never: that makes a difference exactly when there is no
  translation and the count is 0 (`RetestIsHarmlessIff`). A count other than the allocation's own breaks the agreement of
  the layers (`FreeCountIff`).
- `SetAll` stores the byte value 1, which marks one page in eight (`InitialFreeSetIsAvailableIff`, `ExactMapIsRightIff`).
- Base and length of a region are 64 bits wide, but only their low 32 bits are used, rounded down to pages, and a region
  that overruns the bitmap is dropped: the frames released for a region are those whose bytes lie in it exactly when it
  passes an arithmetic test (`RegionIsExactIff`, and for whole maps `FullBitmapFreesExactlyAvailable`); page-aligned
  regions that fit the bitmap pass it (`FittingMapIsExact`).
- The reservation of the first 16 MB does nothing for most start addresses other than 0 (`ReserveReachesLowIff`).
- `Heap::Free` merges with a free neighbour without counting the vanished header, and the forward merge grows the upper
  header: the heap stays well formed exactly when neither neighbour is free (`FreeKeepsTilingIff`). With the merges
  repaired and requests refused when there is no room, it stays well formed over every run (`Coalescing.RunsKeepHeap`).
- `Heap::Allocate` does not look at the end address: the heap stays well formed exactly when a free block fits or the new
  one ends in time (`AllocateKeepsTilingIff`).
- `SetAddress` keeps bit 31 of the old word: it stores what it is given exactly when that bit is clear or wanted
  (`SetAddressIsExact`); in the tables it always is, because an absent entry is zero (`AbsentIsZero`).
- The boot tables map 1024 kernel pages whatever the size of the kernel; the change of directory preserves every
  translation exactly when the kernel has at most 1024 (`SwitchPreservesMeaningIff`).
- `IntToStr` answers 0 even when it cut the digits off at `len` (`RoundTripIff`), and it may write up to two cells more
  than `len` (`CellsFitIff`).

## Fixed by the environment

- The kernel is linked at 0xC0000000 and loaded at 0x200000 (Kernel/linker.ld:25-27); the tables object lies, page
  aligned, in the first 4 MB of the kernel image (Kernel/Memory/VirtualMemoryManager.h:27-29).
- A bitmap has at most 2^31 positions, so that positions fit the `int32_t` that `FindUnsetBits` returns.
- Runs start from a memory map whose lowest region begins at address 0 and from a kernel image that ends below 16 MB.
- A pointer is a number or an index; the memory that headers of the heap occupy is a map from address to header. The
  negation of the least `int32_t` in `IntToStr` wraps around, as the machine does it.

## Model

| member | source | states |
|---|---|---|
| Bitmaps.SearchFindsLowestOrOverruns | Kernel/ESTD/Bitmap.h:58-84 | for a positive count the answer is the lowest start of a fitting clear run exactly when one exists; otherwise it is -1 (exactly when the last position is used) or a start whose range overruns the bitmap |
| Bitmaps.SearchIsDetermined | Kernel/ESTD/Bitmap.h:58-84 | the declarative result (lowest fit, else start of the clear tail, else -1) admits one answer only |
| Bitmaps.SearchFallsBackToTheEnd | Kernel/ESTD/Bitmap.h:58-84 | without a fitting run, and for count 0: the start of the clear positions at the end, or -1 when the last one is used |
| Bitmaps.Bitmap.FindUnsetBits | Kernel/ESTD/Bitmap.h:58-84 | the loop over the packed bytes computes that answer for every count, 0 included |
| Bitmaps.Bitmap.Set | Kernel/ESTD/Bitmap.h:12-19 | adds exactly the position to the represented set, nothing else; out of range is a no-op, position TSize is in range |
| Bitmaps.Bitmap.SetAll | Kernel/ESTD/Bitmap.h:21-24 | the set becomes every eighth position, from byte value 1 |
| Bitmaps.Bitmap.Test | Kernel/ESTD/Bitmap.h:26-33 | true exactly for members of the represented set |
| Bitmaps.Bitmap.Reset | Kernel/ESTD/Bitmap.h:35-42 | removes exactly the position |
| Bitmaps.Bitmap.ResetAll | Kernel/ESTD/Bitmap.h:44-47 | empties the set |
| Bitmaps.Bitmap.Toggle | Kernel/ESTD/Bitmap.h:49-56 | flips exactly the position |
| Bitmaps.Bitmap.SetBits | Kernel/ESTD/Bitmap.h:86-92 | adds exactly the range when it fits; an overrunning range, also one whose 32-bit sum wraps, changes nothing |
| Bitmaps.Bitmap.ClearBits | Kernel/ESTD/Bitmap.h:94-100 | removes exactly the range when it fits, else changes nothing |
| PhysicalMemory.LowestBaseIsMinimum | Kernel/Memory/PhysicalMemoryManager.cpp:82-101 | the start address comes from the least base of all regions |
| PhysicalMemory.PageNumberOfByte | Kernel/Memory/PhysicalMemoryManager.cpp:132-140 | every address within a page is taken back to the page's number, for every start address, wrap-around included |
| PhysicalMemory.PhysicalMemoryManager.Init | Kernel/Memory/PhysicalMemoryManager.cpp:10-35 | start address and used frames after initialisation, for every region list |
| PhysicalMemory.PhysicalMemoryManager.InitMemory | Kernel/Memory/PhysicalMemoryManager.cpp:82-101 | the loop finds the least base |
| PhysicalMemory.PhysicalMemoryManager.InitFreeMemory | Kernel/Memory/PhysicalMemoryManager.cpp:109-120 | releases the available regions, truncated to 32 bits, one after the other |
| PhysicalMemory.PhysicalMemoryManager.FreeRegion | Kernel/Memory/PhysicalMemoryManager.cpp:122-130 | clears the pages of one region |
| PhysicalMemory.PhysicalMemoryManager.AllocatePages | Kernel/Memory/PhysicalMemoryManager.cpp:42-53 | the new bitmap and the answer, in every case |
| PhysicalMemory.PhysicalMemoryManager.FreePages | Kernel/Memory/PhysicalMemoryManager.cpp:60-65 | the new bitmap; address 0 changes nothing |
| PhysicalRuns.FreeOfNullIsIgnored | Kernel/Memory/PhysicalMemoryManager.cpp:62-63 | the same for every start address, bitmap and count |
| PhysicalRuns.AllocateAtAnyStart | Kernel/Memory/PhysicalMemoryManager.cpp:42-65 | for every start address: a fitting request is answered with the lowest run's address, and giving it back restores the bitmap exactly when that is not 0 |
| PhysicalMemory.PhysicalMemoryManager.ReservePages | Kernel/Memory/PhysicalMemoryManager.cpp:72-75 | the new bitmap |
| PhysicalRuns.AllocateIsHonestIffGrantable | Kernel/Memory/PhysicalMemoryManager.cpp:42-53 | an answer is 0 with no change or fresh frames now in use, exactly when the request is 0, fits, or the last frame is in use |
| PhysicalRuns.OverrunningAllocation | Kernel/Memory/PhysicalMemoryManager.cpp:42-53 | a concrete request that is answered with frames that stay free |
| PhysicalRuns.FittingRequestIsGranted | Kernel/Memory/PhysicalMemoryManager.cpp:42-53 | a fitting request gets a run of free frames, never frame 0 |
| PhysicalRuns.FreeIsExact | Kernel/Memory/PhysicalMemoryManager.cpp:60-65 | freeing an allocation clears exactly its frames |
| PhysicalRuns.StepKeepsInvariant | Kernel/Memory/PhysicalMemoryManager.cpp:42-75 | one call keeps the ownership invariant, and every success lies at or above 16 MB and below the end |
| PhysicalRuns.RunsKeepInvariant | Kernel/Memory/PhysicalMemoryManager.cpp:42-75 | over every allowed run live allocations are pairwise disjoint and apart from the reserved frames; free, live and reserved frames add up to the bitmap |
| MemoryMaps.RegionsReleaseExactly | Kernel/Memory/PhysicalMemoryManager.cpp:109-130 | a frame is in use after InitFreeMemory exactly when it was before and no region's 32-bit page range releases it; when all available regions are exact: when it was before and its bytes are not available |
| MemoryMaps.RegionIsExactIff | Kernel/Memory/PhysicalMemoryManager.cpp:122-135 | the frames released for an available region are those with all bytes in [base, base + length) exactly when the first and last of both agree, or both are none |
| MemoryMaps.ExactRegionsRelease | Kernel/Memory/PhysicalMemoryManager.cpp:109-130 | with exact regions a frame is released exactly when one region holds all of its bytes |
| MemoryMaps.FittingMapIsExact | Kernel/Memory/PhysicalMemoryManager.cpp:82-130 | page-aligned available regions that fit the bitmap and end by 4 GB are exact |
| MemoryMaps.FittingMapIsRight | Kernel/Memory/PhysicalMemoryManager.cpp:82-130 | for such a map the free frames are the available ones when every bit is set first, and as written exactly when every other frame number is divisible by eight |
| MemoryMaps.InitialFreeSetIsAvailableIff | Kernel/Memory/PhysicalMemoryManager.cpp:103-130 | for every region list: as written the free frames are those whose bytes are available exactly when the frames that SetAll skips are all available, and those it marks are released exactly when available |
| MemoryMaps.ExactMapIsRightIff | Kernel/Memory/PhysicalMemoryManager.cpp:103-130 | for exact regions: exactly when every other frame number is divisible by eight |
| MemoryMaps.UnavailableFrameIsFree | Kernel/Memory/PhysicalMemoryManager.cpp:103-130 | a concrete memory map without available memory and a frame that counts as free |
| MemoryMaps.HighRegionFreesLowFrames | Kernel/Boot/MemoryMap.h:17-22 | a concrete region above 4 GB: every frame of the bitmap counts as free and none is available |
| MemoryMaps.UnalignedRegionFreesTooMuch | Kernel/Memory/PhysicalMemoryManager.cpp:122-135 | a concrete unaligned region: its first frame is released though only half of it is available |
| MemoryMaps.FullBitmapFreesExactlyAvailable | Kernel/Memory/PhysicalMemoryManager.cpp:103-130 | with every bit set first, the free frames are the available ones whenever all available regions are exact; when no two regions claim one frame, only then |
| Ledger.Grant | Kernel/Memory/VirtualMemoryAllocator.cpp:30-58 | a bitmap that accounts for the live allocations still does after a disjoint one is added |
| Ledger.Revoke | Kernel/Memory/VirtualMemoryAllocator.cpp:65-86 | and after a live one is removed, which was wholly in use and not reserved |
| Ledger.Conservation | Kernel/Memory/PhysicalMemoryManager.cpp:42-75 | free, live and reserved pages add up to the whole |
| PageTables.ConversionsAreInverse | Kernel/Memory/MemoryUtil.cpp:18-26 | the two kernel address conversions undo each other modulo 2^32 for all bases |
| PageTables.EntrySlotIsInjective | Kernel/Memory/PageInfo.h:3-8 | no two pages share an entry: the 257 tables never alias |
| PageTables.EntrySlotIsOnto | Kernel/Memory/PageInfo.h:3-8 | every table word is the entry of a page |
| PageEntries.FlagBits | Kernel/Memory/PageTable.cpp:14-32 | the flag tests and setters by bit position; given false, the setters set their flag all the same |
| PageEntries.AddressBits | Kernel/Memory/PageTable.cpp:84-87 | the address of an entry is the word rounded down to a page |
| PageEntries.SetAddressIsExact | Kernel/Memory/PageTable.cpp:89-92 | the address reads back and the flags stay exactly when it is aligned and bit 31 of the old word is clear or wanted |
| PageEntries.FreshEntry | Kernel/Memory/VirtualMemoryManager.cpp:78-80 | on a zero word the three setters store the address with exactly the present and writable flags, in either order |
| PageTables.AbsentIsZero | Kernel/Memory/VirtualMemoryManager.cpp:72-80 | in every well-formed block an entry without the present flag is the zero word |
| PageTables.WalkIsMapping | Kernel/Memory/PageDirectory.cpp:76-90 | the processor's two-level walk of the packed words is the partial map: fault outside it, else the frame, writable, supervisor |
| PageTables.WalkGrows | Kernel/Memory/VirtualMemoryManager.cpp:72-76 | a successful walk keeps its result while present words are not overwritten |
| PageTables.AddTable | Kernel/Memory/VirtualMemoryManager.cpp:41-63 | filling in a directory entry changes no translation |
| PageTables.AddEntry | Kernel/Memory/VirtualMemoryManager.cpp:71-81 | filling in an absent entry adds exactly one page to the map |
| PageTables.DropEntry | Kernel/Memory/VirtualMemoryManager.cpp:128-136 | clearing an entry removes exactly one page |
| PageTables.SameBlockKeeps | Kernel/Memory/PageTable.h:13-24 | accessed and dirty flags set by the processor change neither the invariant nor the map |
| VirtualMemory.CacheSurvives | Kernel/Memory/VirtualMemoryManager.cpp:72-76 | cached translations stay right while present words are not overwritten |
| VirtualMemory.CacheSurvivesDrop | Kernel/Memory/VirtualMemoryManager.cpp:139-152 | after a page is unmapped only its own cached translation can be stale |
| VirtualMemory.VirtualMemoryManager.Init | Kernel/Memory/VirtualMemoryManager.cpp:17-25 | all words zero, nothing mapped, invariant established |
| VirtualMemory.VirtualMemoryManager.Map | Kernel/Memory/VirtualMemoryManager.cpp:27-82 | succeeds exactly when both addresses are aligned, the directory index has a table and the page is absent; adds that page only; present words are kept; the TLB stays coherent |
| VirtualMemory.VirtualMemoryManager.OpenTable | Kernel/Memory/VirtualMemoryManager.cpp:41-63 | the directory entry becomes present without changing the map |
| VirtualMemory.VirtualMemoryManager.EntryPointer | Kernel/Memory/PageDirectory.cpp:86-90 | the pointer computed from a directory entry reaches the entry of the page, and no other |
| VirtualMemory.VirtualMemoryManager.MapRange | Kernel/Memory/VirtualMemoryManager.cpp:84-97 | map and answer of the page-by-page definition, wrap-around included; present words kept; TLB coherent also after failure |
| VirtualMemory.VirtualMemoryManager.Unmap | Kernel/Memory/VirtualMemoryManager.cpp:99-137 | succeeds exactly for mapped aligned pages, removes that page only, keeps directory entries, leaves at most that page stale in the TLB |
| VirtualMemory.VirtualMemoryManager.UnmapRange | Kernel/Memory/VirtualMemoryManager.cpp:139-152 | map and answer of the page-by-page definition; directory entries kept; TLB coherent also after failure |
| VirtualMemory.VirtualMemoryManager.FlushTLB | Kernel/Memory/VirtualMemoryManager.cpp:154-157 | coherence is restored |
| VirtualMemory.VirtualMemoryManager.ReloadPageDirectory | Kernel/Memory/VirtualMemoryManager.cpp:175-178 | the directory is active and the TLB coherent |
| VirtualMemory.VirtualMemoryManager.GetPhysicalAddress | Kernel/Memory/VirtualMemoryManager.cpp:180-217 | the frame's address for every mapped page, 0 for an absent page or an unaligned address |
| PageRanges.MapRangeMapsLongestPrefix | Kernel/Memory/VirtualMemoryManager.cpp:84-97 | without wrap-around: exactly the longest prefix acceptable before the call is mapped, at matching offsets; true means all |
| PageRanges.UnmapRangeUnmapsLongestPrefix | Kernel/Memory/VirtualMemoryManager.cpp:139-152 | the same for unmapping |
| PageRanges.MapRangeSplits | Kernel/Memory/VirtualMemoryManager.cpp:84-97 | wrap-around included: a range is mapped like its first part and then, if that succeeded, the rest from the address reached |
| PageRanges.UnmapRangeSplits | Kernel/Memory/VirtualMemoryManager.cpp:139-152 | the same for unmapping |
| Allocator.VirtualMemoryAllocator.Init | Kernel/Memory/VirtualMemoryAllocator.cpp:12-23 | no virtual page in use, the other layers unchanged |
| Allocator.VirtualMemoryAllocator.AllocatePages | Kernel/Memory/VirtualMemoryAllocator.cpp:30-58 | all three layers and the answer, in every branch; TLB coherent |
| Allocator.VirtualMemoryAllocator.FreePages | Kernel/Memory/VirtualMemoryAllocator.cpp:65-86 | all three layers and the answer, in every branch, partial unmapping included; address 0 answers true and changes nothing |
| AllocatorFailures.FreeOfNullIsIgnored | Kernel/Memory/VirtualMemoryAllocator.cpp:67-68 | the same for all layers and counts, whatever page 0 is mapped to |
| AllocatorFailures.FreeOfBootPage | Kernel/Memory/VirtualMemoryAllocator.cpp:70-85 | freeing any other boot page succeeds: it is unmapped, its reserved frame becomes free, and the layers disagree |
| Allocator.VirtualMemoryAllocator.ReservePages | Kernel/Memory/VirtualMemoryAllocator.cpp:93-96 | the virtual bitmap only |
| MemoryRuns.OwnershipAgrees | Kernel/Memory/VirtualMemoryAllocator.cpp:30-86 | handed-out pages map to frames in use at or above 16 MB that no boot page uses; distinct pages, distinct frames; a clear bit means unmapped; boot pages keep their frames |
| MemoryRuns.AllocateGrants | Kernel/Memory/VirtualMemoryAllocator.cpp:30-58 | when both searches find a full run the mapping-failure branch is dead and the layers grow by exactly the new pages |
| MemoryRuns.FailedRequestChangesNothing | Kernel/Memory/VirtualMemoryAllocator.cpp:35-45 | a request that is turned down leaves all layers as they were |
| MemoryRuns.OverrunBreaksInvariant | Kernel/Memory/VirtualMemoryAllocator.cpp:35-54 | any other request that gets past the searches leaves a page in use that nobody accounts for |
| MemoryRuns.AllocateKeepsInvariantIff | Kernel/Memory/VirtualMemoryAllocator.cpp:30-58 | from every state in agreement: agreement is kept exactly when the request is 0, both searches find a full run, or one fails outright |
| MemoryRuns.FreeReturns | Kernel/Memory/VirtualMemoryAllocator.cpp:65-86 | freeing a live allocation succeeds and clears exactly its pages, frames and translations, though only its first page is translated |
| MemoryRuns.ReturnKeepsInvariant | Kernel/Memory/VirtualMemoryAllocator.cpp:65-86 | the layers still agree afterwards |
| MemoryRuns.AllocateThenFreeRestores | Kernel/Memory/VirtualMemoryAllocator.cpp:30-86 | allocating and freeing restores both bitmaps, the whole translation and the owners |
| MemoryRuns.RunsKeepInvariant | Kernel/Memory/VirtualMemoryAllocator.cpp:30-86 | agreement and conservation of frames over every allowed run |
| MemoryRuns.FailureIsClean | Kernel/Memory/VirtualMemoryAllocator.cpp:35-54 | at the end of every allowed run a failing call changes nothing, and a call fails exactly when a search finds no full run or the count is 0 |
| MemoryRuns.LiveBlockStays | Kernel/Memory/VirtualMemoryAllocator.cpp:30-86 | over every allowed run an allocation that is not freed stays live, its pages on its frames |
| AllocatorFailures.MappingFailsIff | Kernel/Memory/VirtualMemoryAllocator.cpp:49-54 | from every state in agreement, once both searches answer: mapping fails exactly when the pages run past 4 GB, and then the virtual search had found no full run |
| AllocatorFailures.FailedFreeIsCleanIff | Kernel/Memory/VirtualMemoryAllocator.cpp:77-81 | a failing free leaves the layers as they were exactly when its first page could not be unmapped |
| AllocatorFailures.FailedFreeLeaves | Kernel/Memory/VirtualMemoryAllocator.cpp:77-81 | on a range that does not wrap it has unmapped exactly the longest prefix of mapped pages, and both bitmaps are kept |
| AllocatorFailures.FreeCountIff | Kernel/Memory/VirtualMemoryAllocator.cpp:65-86 | freeing n pages from the start of a live allocation keeps the agreement exactly when n is its own count |
| AllocatorFailures.OverlongFreeStops | Kernel/Memory/VirtualMemoryAllocator.cpp:77-81 | with too large a count and nothing mapped behind: false, the allocation's translations gone, its bits still set |
| AllocatorFailures.RetestIsHarmlessIff | Kernel/Memory/VirtualMemoryAllocator.cpp:70-75 | the call does what it would with the translation tested exactly when there is one, the address is 0, or the count is positive |
| BootTables.FillBootTables | Kernel/Arch/x86/Boot.asm:52-93 | the loops fill directory and both tables as specified, word by word |
| BootTables.FillTable | Kernel/Arch/x86/Boot.asm:71-84 | one loop: 1024 present, writable entries for consecutive frames, nothing else touched |
| BootTables.BootWalk | Kernel/Arch/x86/Boot.asm:52-93 | the walk of the boot tables for every page |
| BootTables.InitVirtualMemoryManager | Kernel/Kernel.cpp:78-118 | cannot fail; maps exactly the first 4 MB and the kernel range; loads the directory with a coherent TLB |
| BootTables.MapKernel | Kernel/Kernel.cpp:87-114 | the three ranges together |
| BootTables.SwitchPreservesMeaningIff | Kernel/Kernel.cpp:78-118 | the walks of the new and of the boot directory agree on every page, frame and flags, exactly when the kernel has at most 1024 pages |
| KernelStart.InitPhysicalMemoryManager | Kernel/Kernel.cpp:51-76 | the used frames after initialisation and the four reservations |
| KernelStart.InitialUsedIsExact | Kernel/Kernel.cpp:51-76 | frame by frame: in use are what the memory map leaves in use, the boot loader's pages and one more, the kernel's pages, 4096 frames from address 0, and the frame at address 0, each range if it fits |
| KernelStart.LoaderIsReserved | Kernel/Kernel.cpp:61-63 | with a map from 0 on, every frame with a byte of the boot loader is in use, when its page count covers it |
| KernelStart.PageCountCoversIff | Kernel/Kernel.cpp:62 | the page count covers all bytes of an image exactly when its first page has room for what is left over of the last |
| KernelStart.KernelIsReserved | Kernel/Kernel.cpp:65-67 | and every frame of the kernel's whole pages |
| KernelStart.ReserveReachesLowIff | Kernel/Kernel.cpp:69-71 | the call that reserves the first 16 MB marks all frames below 16 MB, whatever was in use, exactly for the start addresses listed; for every other it does nothing |
| KernelStart.FirstMegabytesAreReserved | Kernel/Kernel.cpp:51-76 | for these start addresses the frames below 16 MB are in use after initialisation, and for every map nothing beyond the bitmap |
| KernelStart.LowFrameStaysFree | Kernel/Kernel.cpp:69-71 | a concrete memory map, from 4 KB on, after which the frame at 8 KB can be handed out |
| KernelStart.InitVirtualMemoryAllocator | Kernel/Kernel.cpp:120-134 | the allocator starts empty at 0xC1000000 |
| KernelStart.InitKernelHeap | Kernel/Kernel.cpp:135-147 | the heap asks the allocator for 25600 pages; success exactly when it answers, and then an empty well-formed heap of 100 MB |
| KernelStart.InitMemoryManager | Kernel/Kernel.cpp:160-200 | the layers after all initialisations; success exactly when the heap gets its pages |
| KernelStart.StartSatisfiesInvariant | Kernel/Kernel.cpp:51-134 | the state in which the heap asks for its pages is in agreement |
| KernelStart.PhysicalStartSatisfiesInvariant | Kernel/Kernel.cpp:51-76 | the runs of the physical allocator start in agreement too |
| KernelStart.BootMapsPageZero | Kernel/Kernel.cpp:78-118 | every boot maps page 0, and no other page to frame 0 |
| KernelStart.FirstRequestKeepsAgreementIff | Kernel/Memory/VirtualMemoryAllocator.cpp:30-58 | for every boot: a request of any size in that state keeps the agreement exactly when it is 0, fits the free frames, or the last frame is in use |
| KernelStart.BootKeepsAgreementIff | Kernel/Kernel.cpp:135-147 | the state after the heap's request is in agreement exactly when its 25600 pages fit or the last frame is in use |
| KernelStart.SmallMachineDisagrees | Kernel/Kernel.cpp:135-147 | a concrete boot with 64 MB of memory: the heap's request succeeds and the layers disagree afterwards |
| KernelStart.HeapRequestIsMapped | Kernel/Memory/Heap.cpp:21-27 | the heap's request is answered whenever the physical search does not come back empty |
| KernelStart.HeapStaysMapped | Kernel/Memory/Heap.cpp:21-30 | for every size of the heap: when it fits, its pages stay mapped to the frames granted at boot over every allowed run that does not free them |
| KernelStart.HeapBytesStayMapped | Kernel/Memory/Heap.cpp:37-63 | over such a run every byte of every block of the heap, headers included, is translated, consecutive bytes to consecutive physical addresses |
| KernelStart.OwnershipInEveryRun | Kernel/Memory/VirtualMemoryAllocator.cpp:30-86 | from boot, after every allowed run, the layers agree on who owns which page |
| KernelStart.OverrunningRequest | Kernel/Memory/VirtualMemoryAllocator.cpp:30-58 | a concrete boot with 512 MB after which a request for 131072 pages breaks the agreement |
| Heaps.BlocksAreApart | Kernel/Memory/Heap.cpp:45-54 | a block ends at or before every later header |
| Heaps.TilingsAgree | Kernel/Memory/Heap.cpp:45-54 | the address-order walk is determined by the headers |
| Heaps.PayloadsAreApart | Kernel/Memory/Heap.cpp:37-63 | no payload byte lies in a header or in another payload, and all lie in the used part |
| Heaps.AllocateKeepsTilingIff | Kernel/Memory/Heap.cpp:37-63 | the heap stays tiled exactly when the size is 0, a free block fits, or the new block ends within the heap |
| Heaps.AllocateExtendsExactly | Kernel/Memory/Heap.cpp:55-62 | when no free block is large enough, room or no room: a header of exactly the size asked for at the current address, linked behind the last block; the current address grows by exactly header and size; all else is kept |
| Heaps.AllocateReusesExactly | Kernel/Memory/Heap.cpp:46-50 | else the lowest large enough free block is reserved whole and all else is kept |
| Heaps.AllocateOverrunsHeap | Kernel/Memory/Heap.cpp:55-62 | a concrete empty one-page heap that answers a request it has no room for |
| Heaps.TakeAnswersLowestFit | Kernel/Memory/Heap.cpp:45-62 | the answer is the lowest fitting free block or a new last one, now live, large enough, within the heap |
| Heaps.TakeKeepsBlocks | Kernel/Memory/Heap.cpp:37-63 | every block keeps its place and size, live ones stay live |
| Heaps.FreeWithoutMerge | Kernel/Memory/Heap.cpp:65-72 | without free neighbours only the state of the block changes |
| Heaps.FreedIsExact | Kernel/Memory/Heap.cpp:65-93 | every header after Free as written, whatever the neighbours: state, size and both links; free neighbours grow by the freed size and are linked past the freed block |
| Heaps.MergeNextBreaksTiling | Kernel/Memory/Heap.cpp:74-82 | after a forward merge no tiling exists |
| Heaps.MergePreviousBreaksTiling | Kernel/Memory/Heap.cpp:84-92 | after a backward merge no tiling exists |
| Heaps.FreeKeepsTilingIff | Kernel/Memory/Heap.cpp:65-93 | the heap stays tiled exactly when neither neighbour is free |
| Heaps.AdjacentFreeBreaksHeap | Kernel/Memory/Heap.cpp:84-92 | a concrete heap that Free leaves without a tiling |
| Heaps.GiveKeepsBlocks | Kernel/Memory/Heap.cpp:65-72 | freeing without merge keeps every other block |
| Heaps.RunStaysTiledIff | Kernel/Memory/Heap.cpp:37-93 | a run as written that frees live blocks has a tiling after every call exactly when every request has room and no freed block has a free neighbour |
| Heaps.RunsKeepBlocks | Kernel/Memory/Heap.cpp:37-93 | over exactly those runs no block moves or changes size, and live blocks stay live until freed |
| Heaps.MergeNextUnlinks | Kernel/Memory/Heap.cpp:74-82 | after the forward merge the links are the address order without the freed block, whose header is unchanged, and the upper block ends too late by the freed block's size; all else is kept |
| Heaps.MergePreviousUnlinks | Kernel/Memory/Heap.cpp:84-92 | after the backward merge the links are the address order without the freed block, and the lower block ends one header before the freed one did; all else is kept |
| Coalescing.AbsorbKeepsTiling | Kernel/Memory/Heap.cpp:74-92 | as intended: a block that takes over the next one, header bytes included, leaves a tiled heap without that header and every other block's size and state as they were |
| Coalescing.GiveBackIsExact | Kernel/Memory/Heap.cpp:65-93 | as intended: no two neighbours are free afterwards, and the live blocks are the old ones without the freed one, at their addresses with their sizes |
| Coalescing.RequestIsExact | Kernel/Memory/Heap.cpp:37-63 | a request with room, answered as written, adds one live block that was not live: a new one of exactly the size asked for, or a free one, large enough, with its size; one without room is refused; no two neighbours become free |
| Coalescing.RunsKeepHeap | Kernel/Memory/Heap.cpp:37-93 | as intended, over every run of requests and returns of live payloads: tiled, no two neighbours free, payload and header bytes add up to the used part, live payloads apart from each other and from headers |
| Coalescing.RunsKeepLive | Kernel/Memory/Heap.cpp:37-93 | over these runs a live payload that is not returned stays live at its address with its size |
| Coalescing.BytesAddUp | Kernel/Memory/Heap.cpp:45-54 | payload and header bytes before each block add up to its address |
| Coalescing.NothingLiveIsOneBlock | Kernel/Memory/Heap.cpp:74-92 | once everything is returned the used part is one free block |
| Coalescing.AsWrittenIsIntendedIff | Kernel/Memory/Heap.cpp:65-93 | Free as written does what is intended exactly when neither neighbour is free |
| HeapManager.KernelHeap.Init | Kernel/Memory/Heap.cpp:12-35 | the pages come from the virtual memory allocator; failure exactly when the size is 0 or it answers 0; else an empty heap, well formed exactly when it ends below 4 GB |
| HeapManager.KernelHeap.Find | Kernel/Memory/Heap.cpp:42-54 | the walk stops at the first fitting block or at the current address, and terminates |
| HeapManager.KernelHeap.Allocate | Kernel/Memory/Heap.cpp:37-63 | new state and answer; well formed whenever there is room |
| HeapManager.KernelHeap.Free | Kernel/Memory/Heap.cpp:65-93 | new state, merges included; well formed whenever no neighbour is free |
| HeapManager.KernelHeap.FreeCoalescing | Kernel/Memory/Heap.cpp:65-93 | Free with its merges repaired, in place: well formed whatever the neighbours, new state as intended |
| CStrings.Strchr | Kernel/ESTD/CString.cpp:32-41 | the first occurrence, terminator included, or null when there is none |
| CStrings.Strspn | Kernel/ESTD/CString.cpp:54-65 | the length of the leading run of characters that occur in the delimiter string; 0 for a null argument |
| CStrings.Strcspn | Kernel/ESTD/CString.cpp:67-82 | the length of the leading run of characters that do not occur in it; 0 for a null argument |
| CStrings.CharactersOccur | Kernel/ESTD/CString.cpp:61-76 | the delimiters are the characters of the second string, all of them |
| CStrings.Strtok_r | Kernel/ESTD/CString.cpp:90-118 | answer, buffer and saved position of one call, without a delimiter string as well |
| CStrings.StrtokIsExact | Kernel/ESTD/CString.cpp:90-118 | one call by the characters of the delimiter string: what is passed, where the token begins and ends, what is cut and saved |
| Tokens.TokensAreTheMaximalOnes | Kernel/ESTD/CString.cpp:90-118 | the tokens found are exactly the maximal delimiter-free substrings |
| Tokens.TokensByDelimiters | Kernel/ESTD/CString.cpp:90-118 | the same by the characters of the delimiter string |
| Tokens.TokensAreInOrder | Kernel/ESTD/CString.cpp:90-118 | they come in order, each after the previous one's end |
| Tokens.CallsAnswerAllTokens | Kernel/ESTD/CString.cpp:90-118 | any number of calls answers the tokens in order and null from then on |
| Tokens.CallsCutAfterTokens | Kernel/ESTD/CString.cpp:90-118 | the buffer ends up with one terminator after each token and is otherwise unchanged |
| Tokens.TokensAreReadBack | Kernel/ESTD/CString.cpp:90-118 | each token can be read from the final buffer as a C string |
| Numerals.PrefixReadsBackIff | Kernel/ESTD/TypeConverter.cpp:27-32 | the digits kept read back as the number exactly when none was cut off, and as less otherwise |
| Numerals.RoundTripIff | Kernel/ESTD/TypeConverter.cpp:8-44 | reading the text gives the number (base 10) or its 32-bit pattern (other bases) exactly when the digits fit in len, that is when it is below base^len |
| Numerals.DigitCountIff | Kernel/ESTD/TypeConverter.cpp:27-32 | a number has at most n digits exactly when it is below base^n |
| Numerals.CellsFitIff | Kernel/ESTD/TypeConverter.cpp:13-43 | the cells written stay within len exactly when digits, sign and terminator fit, told by a power of the base; at most two more are written |
| Numerals.ShortBuffers | Kernel/ESTD/TypeConverter.cpp:16-39 | concrete numbers written past len cells |
| Numerals.NoLeadingZero | Kernel/ESTD/TypeConverter.cpp:27-41 | complete texts have no leading zero |
| Numerals.TruncatedText | Kernel/ESTD/TypeConverter.cpp:27-43 | a concrete text that was cut off |
| Numerals.Strrev | Kernel/ESTD/CString.cpp:22-30 | the first num cells are reversed in place, the others kept |
| Numerals.IntToStr | Kernel/ESTD/TypeConverter.cpp:8-44 | for every base from 1 on and every buffer that holds what is written: the text and its terminator, cells beyond untouched; status -1 exactly for len 0 |
| Numerals.WriteDigits | Kernel/ESTD/TypeConverter.cpp:27-32 | the digit loop leaves the digits, lowest first, at most len of them, in every base from 1 on |
| Numerals.KeptIsPrefix | Kernel/ESTD/TypeConverter.cpp:27-32 | from base 2 on those are the lowest digits of the number |
| Numerals.DigitsByName | Kernel/ESTD/TypeConverter.cpp:30 | the characters of all digits, 0 to 9 and A to Z, and what follows them in larger bases |
| Numerals.ZeroText | Kernel/ESTD/TypeConverter.cpp:16-21 | zero is written as 0 in every base |

## Left out

- Heap memory as bytes: headers are records at their addresses, so a stale or forged header inside a payload is not represented.
- HeapManager.KernelHeap.Free: only null and payload addresses of the heap's own blocks; other pointers are undefined in the source.
- Accessed and dirty flags set by the processor inside the boot tables, and caches of directory entries other than through walks.
- A directory entry of the kind that maps 4 MB: no code here sets that flag.
- Runs from memory maps whose lowest region is not at address 0: the run theorems assume base 0.
- `AllocatePage`, `FreePage`, `ReservePage`, `GetPageSize`, `FlushTLBRange`: one-line wrappers.
- The size, page count and end address that the managers keep only to print them.
- `Strtok` with its static position.
- Numerals.IntToStr: base 0 (a division by zero), and writes past the buffer's end, which the source does not check.
- CR0 and CR3 writes as instructions, the Multiboot structures, drivers, descriptor tables, logging and `Dump` functions.
