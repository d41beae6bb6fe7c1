/** The start of every run: the memory part of the kernel's initialisation. */
module KernelStart {
  import opened Words
  import opened Bitmaps
  import opened PageTables
  import opened VirtualMemory
  import opened BootTables
  import opened PhysicalMemory
  import opened Allocator
  import opened Ledger
  import opened HeapManager
  import Heaps
  import AllocatorFailures
  import MemoryMaps
  import PhysicalRuns
  import MemoryRuns

  /** The fields of Boot::BootInfo that memory initialisation uses; virtual and physical kernel start are the linker
      script's 0xC0000000 and 0x200000. */
  datatype BootInfo = BootInfo(
    bootloaderPhysicalStart: Word,
    bootloaderSize: Word,
    kernelPhysicalEnd: Word,
    kernelSize: Word,
    regions: seq<Region>)

  ghost function AfterReserve(used: set<nat>, start: Word, address: Word, count: Word): set<nat> {
    AfterSetBits(used, SIZE, PageNumber(start, address), count)
  }

  /** The frames in use after InitPhysicalMemoryManager. */
  ghost function InitialUsed(info: BootInfo): set<nat> {
    var start := LowestBase(info.regions) % 0x1_0000_0000;
    var released := AfterRegions(AfterSetAll(SIZE), start, info.regions);
    var loader := AfterReserve(released, start, info.bootloaderPhysicalStart, info.bootloaderSize / 0x1000 + 1);
    var kernel := AfterReserve(loader, start, KERNEL_PHYSICAL, info.kernelSize / 0x1000);
    AfterReserve(AfterReserve(kernel, start, 0, 4096), start, 0, 1)
  }

  method InitPhysicalMemoryManager(physical: PhysicalMemoryManager, info: BootInfo)
    requires physical.Laid()
    modifies physical, physical.bitmap.bits
    ensures physical.Valid() && physical.startAddress == LowestBase(info.regions) % 0x1_0000_0000
    ensures physical.Used() == InitialUsed(info)
  {
    hide AfterRegions, LowestBase, AfterSetAll, AfterSetBits, PageNumber;
    physical.Init(info.regions);
    var bootloaderPageCount := info.bootloaderSize / 0x1000 + 1;
    physical.ReservePages(info.bootloaderPhysicalStart, bootloaderPageCount);
    var kernelPageCount := info.kernelSize / 0x1000;
    physical.ReservePages(KERNEL_PHYSICAL, kernelPageCount);
    var dma16PageCount := 0x100_0000 / 0x1000;
    physical.ReservePages(0x0, dma16PageCount);
    physical.ReservePages(0x0, 1);
  }

  /** The frames in use at the start: those that the memory map leaves in use; the boot loader's pages and one more;
      the kernel's pages; 4096 frames from address 0 on; and the frame at address 0. Each range counts if it fits. */
  lemma InitialUsedIsExact(info: BootInfo, p: nat)
    ensures var start := LowestBase(info.regions) % 0x1_0000_0000;
      var loader := (info.bootloaderPhysicalStart - start) % 0x1_0000_0000 / 0x1000;
      var loaderEnd := loader + info.bootloaderSize / 0x1000 + 1;
      var kernel := (0x20_0000 - start) % 0x1_0000_0000 / 0x1000;
      var kernelEnd := kernel + info.kernelSize / 0x1000;
      var zero := (0 - start) % 0x1_0000_0000 / 0x1000;
      p in InitialUsed(info) <==>
        || p in AfterRegions(AfterSetAll(SIZE), start, info.regions)
        || (loaderEnd <= SIZE && loader <= p < loaderEnd)
        || (kernelEnd <= SIZE && kernel <= p < kernelEnd)
        || (zero + 4096 <= SIZE && zero <= p < zero + 4096)
        || (zero + 1 <= SIZE && p == zero)
  {
    var start := LowestBase(info.regions) % 0x1_0000_0000;
    PageNumberIs(start, info.bootloaderPhysicalStart);
    PageNumberIs(start, KERNEL_PHYSICAL);
    PageNumberIs(start, 0);
    InitialUsedByRange(info, p);
    hide InitialUsed, AfterRegions, LowestBase, AfterSetAll, PageNumber, Wrap;
  }

  lemma PageNumberIs(start: Word, address: Word)
    ensures PageNumber(start, address) == (address - start) % 0x1_0000_0000 / 0x1000
  {
  }

  ghost predicate InRange(first: nat, count: nat, p: nat) {
    first + count <= SIZE && first <= p < first + count
  }

  lemma InitialUsedByRange(info: BootInfo, p: nat)
    ensures var start := LowestBase(info.regions) % 0x1_0000_0000;
      p in InitialUsed(info) <==>
        || p in AfterRegions(AfterSetAll(SIZE), start, info.regions)
        || InRange(PageNumber(start, info.bootloaderPhysicalStart), info.bootloaderSize / 0x1000 + 1, p)
        || InRange(PageNumber(start, KERNEL_PHYSICAL), info.kernelSize / 0x1000, p)
        || InRange(PageNumber(start, 0), 4096, p) || InRange(PageNumber(start, 0), 1, p)
  {
    var start := LowestBase(info.regions) % 0x1_0000_0000;
    hide AfterRegions, LowestBase, AfterSetAll, AfterReserve, PageNumber, InRange;
    var released := AfterRegions(AfterSetAll(SIZE), start, info.regions);
    var loader := AfterReserve(released, start, info.bootloaderPhysicalStart, info.bootloaderSize / 0x1000 + 1);
    var kernel := AfterReserve(loader, start, KERNEL_PHYSICAL, info.kernelSize / 0x1000);
    ReserveIsExact(released, start, info.bootloaderPhysicalStart, info.bootloaderSize / 0x1000 + 1, p);
    ReserveIsExact(loader, start, KERNEL_PHYSICAL, info.kernelSize / 0x1000, p);
    ReserveIsExact(kernel, start, 0, 4096, p);
    ReserveIsExact(AfterReserve(kernel, start, 0, 4096), start, 0, 1, p);
  }

  lemma ReserveIsExact(used: set<nat>, start: Word, address: Word, count: Word, p: nat)
    ensures p in AfterReserve(used, start, address, count) <==> p in used || InRange(PageNumber(start, address), count, p)
  {
    hide PageNumber;
  }

  /** The pages counted for an image hold all of its bytes exactly when its first page has room for what is left over
      of the last one. */
  lemma PageCountCoversIff(first: nat, size: nat)
    ensures (forall byte :: first <= byte < first + size ==> byte / 0x1000 < first / 0x1000 + size / 0x1000 + 1)
            <==> size == 0 || first % 0x1000 + size % 0x1000 <= 0x1000
  {
    if size > 0 {
      var last := first + size - 1;
      assert last / 0x1000 < first / 0x1000 + size / 0x1000 + 1 <==> first % 0x1000 + size % 0x1000 <= 0x1000;
      forall byte | first <= byte < first + size ensures byte / 0x1000 <= last / 0x1000 {}
    }
  }

  /** So no frame that holds a byte of the boot loader is free at the start, when its pages lie in the bitmap. */
  lemma LoaderIsReserved(info: BootInfo, byte: nat)
    requires LowestBase(info.regions) == 0 && info.bootloaderPhysicalStart <= byte < info.bootloaderPhysicalStart + info.bootloaderSize
    requires info.bootloaderPhysicalStart % 0x1000 + info.bootloaderSize % 0x1000 <= 0x1000
    requires info.bootloaderPhysicalStart / 0x1000 + info.bootloaderSize / 0x1000 + 1 <= SIZE
    ensures byte / 0x1000 in InitialUsed(info)
  {
    InitialUsedIsExact(info, byte / 0x1000);
    PageCountCoversIff(info.bootloaderPhysicalStart, info.bootloaderSize);
    hide InitialUsed, LowestBase, AfterRegions, AfterSetAll;
  }

  /** And no frame of the kernel's whole pages. */
  lemma KernelIsReserved(info: BootInfo, frame: nat)
    requires LowestBase(info.regions) == 0 && 0x200 <= frame < 0x200 + info.kernelSize / 0x1000 <= SIZE
    ensures frame in InitialUsed(info)
  {
    InitialUsedIsExact(info, frame);
    hide InitialUsed, LowestBase, AfterRegions, AfterSetAll;
  }

  /** The frames wholly below 16 MB, when frame 0 is at `start`; addresses are 32 bits wide. */
  ghost function LowFrames(start: Word): set<nat> {
    set p: nat | p < SIZE && PageAddress(start, p) + 0x1000 <= 0x100_0000
  }

  /** From address 0 on, or so high that the bitmap wraps around and holds all of them, or so that it holds none. */
  predicate ReachesLow(start: Word) {
    start == 0 || 0xFF_F000 < start < 0xE000_1000 || start > 0xE0FF_F000
  }

  /** Reserving 16 MB at address 0 marks every frame below 16 MB, whatever was in use, exactly for these starts; for
      every other start the range overruns the bitmap and the call does nothing. */
  lemma ReserveReachesLowIff(start: Word)
    ensures (forall used: set<nat> :: LowFrames(start) <= AfterReserve(used, start, 0, 4096)) <==> ReachesLow(start)
    ensures !ReachesLow(start) ==> forall used: set<nat> :: AfterReserve(used, start, 0, 4096) == used
  {
    if ReachesLow(start) {
      forall used: set<nat>, p | p in LowFrames(start) ensures p in AfterReserve(used, start, 0, 4096) {
        LowFrameIsReserved(start, p);
      }
    } else {
      var p := if start <= 0xFF_F000 then 0 else (0x1_0000_0FFF - start) / 0x1000;
      assert p in LowFrames(start);
      assert PageNumber(start, 0) + 4096 > SIZE;
      assert p !in AfterReserve({}, start, 0, 4096);
    }
  }

  lemma LowFrameIsReserved(start: Word, p: nat)
    requires ReachesLow(start) && p in LowFrames(start)
    ensures PageNumber(start, 0) + 4096 <= SIZE && PageNumber(start, 0) <= p < PageNumber(start, 0) + 4096
  {
  }

  lemma UsedFramesAreInBitmap(info: BootInfo)
    ensures InitialUsed(info) <= Range(0, SIZE + 1)
  {
    var start := LowestBase(info.regions) % 0x1_0000_0000;
    var released := AfterRegions(AfterSetAll(SIZE), start, info.regions);
    forall p | p in released ensures p in Range(0, SIZE + 1) {
      MemoryMaps.RegionsReleaseExactly(AfterSetAll(SIZE), start, info.regions, p);
    }
    hide AfterRegions, LowestBase, PageNumber;
  }

  /** All frames in use lie in the bitmap, and for these starts the first 16 MB are in use. */
  lemma FirstMegabytesAreReserved(info: BootInfo)
    ensures InitialUsed(info) <= Range(0, SIZE + 1)
    ensures var start := LowestBase(info.regions) % 0x1_0000_0000;
      ReachesLow(start) ==> LowFrames(start) <= InitialUsed(info)
    ensures LowestBase(info.regions) == 0 ==> Range(0, 4096) <= InitialUsed(info)
  {
    UsedFramesAreInBitmap(info);
    assert Range(0, 4096) <= LowFrames(0);
    ReserveReachesLowIff(LowestBase(info.regions) % 0x1_0000_0000);
    hide AfterRegions, LowestBase, LowFrames, ReachesLow, PageNumber, Range, AfterSetAll;
  }

  method InitVirtualMemoryAllocator(allocator: VirtualMemoryAllocator)
    requires allocator.Laid() && allocator.physical.Valid() && allocator.tables.Valid() && allocator.tables.Coherent()
    modifies allocator, allocator.bitmap.bits
    ensures allocator.Valid() && allocator.startAddress == MemoryRuns.VIRTUAL_BASE
    ensures allocator.Layers() == old(allocator.Layers()).(virt := {})
  {
    var kernelVMAStartAddress: Word := KERNEL_VIRTUAL + 4096 * 1024 * 4;
    allocator.Init(kernelVMAStartAddress);
  }

  /** What the boot fixes for good. */
  ghost function BootState(info: BootInfo): MemoryRuns.Boot
    requires KERNEL_PHYSICAL <= info.kernelPhysicalEnd
  {
    MemoryRuns.Boot(InitialUsed(info), KernelMapping(info.kernelPhysicalEnd / 0x1000 - 0x200))
  }

  // 100 MB for the heap.
  const HEAP_PAGES: Word := 25600

  method InitKernelHeap(heap: KernelHeap, allocator: VirtualMemoryAllocator) returns (ok: bool)
    requires allocator.Valid() && allocator.startAddress == MemoryRuns.VIRTUAL_BASE
    modifies heap, allocator.bitmap.bits, allocator.physical.bitmap.bits, allocator.tables.words, allocator.tables`tlb
    ensures allocator.Valid()
    ensures var (layers, va) := AfterAllocatePages(old(allocator.Layers()), MemoryRuns.VIRTUAL_BASE,
                                                   allocator.physical.startAddress, HEAP_PAGES);
      allocator.Layers() == layers && (ok <==> va != 0) && (ok ==> heap.startAddress == va)
    ensures ok ==> heap.Valid() && heap.blocks == [] && heap.endAddress == heap.startAddress + 0x640_0000
  {
    hide AfterMapRange, AfterAllocate, Search;
    ok := heap.Init(100 * 1048576, allocator);
  }

  /** InitMemoryManager, up to InitKMalloc: it succeeds exactly when the heap gets its pages, and the layers are those
      of the start state after the heap's request. */
  method InitMemoryManager(physical: PhysicalMemoryManager, tables: VirtualMemoryManager,
                           allocator: VirtualMemoryAllocator, heap: KernelHeap, info: BootInfo) returns (ok: bool)
    requires allocator.Laid() && allocator.physical == physical && allocator.tables == tables && !tables.loaded
    requires KERNEL_PHYSICAL <= info.kernelPhysicalEnd < KERNEL_PHYSICAL + 0x4000_0000
    modifies physical, physical.bitmap.bits, tables, tables.words, allocator, allocator.bitmap.bits, heap
    ensures allocator.Valid() && allocator.startAddress == MemoryRuns.VIRTUAL_BASE
    ensures tables.loaded && physical.startAddress == LowestBase(info.regions) % 0x1_0000_0000
    ensures var (layers, va) := AfterAllocatePages(StartState(info).memory, MemoryRuns.VIRTUAL_BASE,
                                                   physical.startAddress, HEAP_PAGES);
      allocator.Layers() == layers && (ok <==> va != 0) && (ok ==> heap.startAddress == va)
    ensures ok ==> heap.Valid() && heap.blocks == [] && heap.endAddress == heap.startAddress + 0x640_0000
  {
    hide InitialUsed, KernelMapping, Mapping, Well, Walk, AfterAllocatePages;
    InitPhysicalMemoryManager(physical, info);
    var mapped := InitVirtualMemoryManager(tables, info.kernelPhysicalEnd);
    if !mapped { return false; }
    InitVirtualMemoryAllocator(allocator);
    ok := InitKernelHeap(heap, allocator);
  }

  /** The state in which the heap asks for its pages. */
  ghost function StartState(info: BootInfo): MemoryRuns.Machine
    requires KERNEL_PHYSICAL <= info.kernelPhysicalEnd
  {
    MemoryRuns.Machine(Memory({}, BootState(info).reserved, BootState(info).mapping), {})
  }

  /** For a memory map that begins at 0 and a kernel image that ends below 16 MB, the layers are in agreement when the
      heap asks for its pages. */
  lemma StartSatisfiesInvariant(info: BootInfo)
    requires LowestBase(info.regions) == 0
    requires KERNEL_PHYSICAL <= info.kernelPhysicalEnd < 0x100_0000
    ensures MemoryRuns.BootOk(BootState(info))
    ensures MemoryRuns.Invariant(StartState(info), BootState(info))
  {
    hide InitialUsed, LowestBase;
    FirstMegabytesAreReserved(info);
    var pages := info.kernelPhysicalEnd / 0x1000 - 0x200;
    var boot := BootState(info);
    forall p | p in boot.mapping ensures p < MemoryRuns.FIRST_PAGE && boot.mapping[p] in boot.reserved {
      KernelPages(pages, p);
      assert boot.mapping[p] in Range(0, 4096);
    }
    assert Covered({}, Virtual) == {} && Covered({}, Physical) == {};
  }

  /** A request of any size in that state keeps the layers in agreement exactly when it is 0, the frames in use leave
      room for it in one run, or the last frame is in use, so that it is turned down. */
  lemma FirstRequestKeepsAgreementIff(info: BootInfo, count: Word)
    requires LowestBase(info.regions) == 0
    requires KERNEL_PHYSICAL <= info.kernelPhysicalEnd < 0x100_0000
    ensures MemoryRuns.Invariant(MemoryRuns.Next(StartState(info), MemoryRuns.Allocate(count)), BootState(info))
            <==> count == 0 || Fits(InitialUsed(info), SIZE, count) || SIZE - 1 in InitialUsed(info)
  {
    var s, boot := StartState(info), BootState(info);
    StartSatisfiesInvariant(info);
    MemoryRuns.AllocateKeepsInvariantIff(s, boot, count);
    hide InitialUsed, KernelMapping, LowestBase, MemoryRuns.Invariant, MemoryRuns.Next;
    if Fits(InitialUsed(info), SIZE, count) { var frame: nat :| RunFits(InitialUsed(info), SIZE, frame, count); }
    if count <= SIZE { assert RunFits({}, SIZE, 0, count); }
  }

  /** A boot after which a request for as many pages as the bitmaps have positions breaks the agreement: 512 MB of
      available memory, the boot loader at 1 MB, a kernel of 1 MB. */
  lemma OverrunningRequest()
    ensures var info := BootInfo(0x10_0000, 0x1000, 0x30_0000, 0x10_0000, [Region(0, 0x2000_0000, true)]);
      LowestBase(info.regions) == 0 && SIZE - 1 !in InitialUsed(info)
      && !MemoryRuns.Invariant(MemoryRuns.Next(StartState(info), MemoryRuns.Allocate(SIZE)), BootState(info))
  {
    var info := BootInfo(0x10_0000, 0x1000, 0x30_0000, 0x10_0000, [Region(0, 0x2000_0000, true)]);
    assert LowestBase(info.regions) == 0 by { assert info.regions[..0] == []; }
    assert SIZE - 1 !in InitialUsed(info) by {
      UsedAboveReservations(info, SIZE - 1);
      MemoryMaps.RegionsReleaseExactly(AfterSetAll(SIZE), 0, info.regions, SIZE - 1);
    }
    hide InitialUsed, AfterRegions, LowestBase, KernelMapping, MemoryRuns.Invariant, MemoryRuns.Next;
    assert 0 in InitialUsed(info) by { FirstMegabytesAreReserved(info); }
    assert !Fits(InitialUsed(info), SIZE, SIZE) by {
      forall a: nat ensures !RunFits(InitialUsed(info), SIZE, a, SIZE) {}
    }
    FirstRequestKeepsAgreementIff(info, SIZE);
  }

  /** Above all reservations the frames in use are those that the regions leave in use. */
  lemma UsedAboveReservations(info: BootInfo, p: nat)
    requires LowestBase(info.regions) == 0 && 4096 <= p
    requires PageNumber(0, info.bootloaderPhysicalStart) + info.bootloaderSize / 0x1000 + 1 <= p
    requires PageNumber(0, KERNEL_PHYSICAL) + info.kernelSize / 0x1000 <= p
    ensures p in InitialUsed(info) <==> p in AfterRegions(AfterSetAll(SIZE), 0, info.regions)
  {
    assert PageNumber(0, 0) == 0;
    InitialUsedByRange(info, p);
    hide InitialUsed, AfterRegions, LowestBase, PageNumber, AfterSetAll;
  }

  /** From the boot state, after every allowed run, the layers agree on who owns which page. */
  lemma OwnershipInEveryRun(info: BootInfo, ops: seq<MemoryRuns.Op>)
    requires LowestBase(info.regions) == 0
    requires KERNEL_PHYSICAL <= info.kernelPhysicalEnd < 0x100_0000
    requires MemoryRuns.AllowedRun(StartState(info), ops)
    ensures MemoryRuns.Agreement(MemoryRuns.AfterRun(StartState(info), ops).memory, BootState(info))
  {
    StartSatisfiesInvariant(info);
    MemoryRuns.RunsKeepInvariant(StartState(info), BootState(info), ops);
    MemoryRuns.OwnershipAgrees(MemoryRuns.AfterRun(StartState(info), ops), BootState(info));
  }

  /** When the lowest base is 0, the physical allocator's runs start in agreement as well. */
  lemma PhysicalStartSatisfiesInvariant(info: BootInfo)
    requires LowestBase(info.regions) == 0
    ensures PhysicalRuns.Invariant(PhysicalRuns.State(InitialUsed(info), {}), InitialUsed(info))
  {
    hide InitialUsed, LowestBase;
    FirstMegabytesAreReserved(info);
    assert Covered({}, Physical) == {};
  }

  /** Memory from 4 KB on: the reservation of the first 16 MB does nothing, and the frame at 8 KB can be handed out. */
  lemma LowFrameStaysFree()
    ensures var info := BootInfo(0x10_0000, 0x1000, 0x30_0000, 0x10_0000, [Region(0x1000, 0x400_0000, true)]);
      LowestBase(info.regions) == 0x1000 && 1 in LowFrames(0x1000) && 1 !in InitialUsed(info)
  {
    var info := BootInfo(0x10_0000, 0x1000, 0x30_0000, 0x10_0000, [Region(0x1000, 0x400_0000, true)]);
    assert LowestBase(info.regions) == 0x1000 by { assert info.regions[..0] == []; }
    MemoryMaps.RegionsReleaseExactly(AfterSetAll(SIZE), 0x1000, info.regions, 1);
    assert 1 in LowFrames(0x1000);
    FramesOfLateStart();
    UsedBelowReservations(info, 1);
    hide InitialUsed, AfterRegions, LowestBase, LowFrames, PageNumber;
  }

  /** Below all reservations, too, the frames in use are those that the regions leave in use. */
  lemma UsedBelowReservations(info: BootInfo, p: nat)
    requires var start := LowestBase(info.regions) % 0x1_0000_0000;
      p < PageNumber(start, info.bootloaderPhysicalStart) && p < PageNumber(start, KERNEL_PHYSICAL) && p < PageNumber(start, 0)
    ensures var start := LowestBase(info.regions) % 0x1_0000_0000;
      p in InitialUsed(info) <==> p in AfterRegions(AfterSetAll(SIZE), start, info.regions)
  {
    InitialUsedByRange(info, p);
    hide InitialUsed, AfterRegions, LowestBase, PageNumber, AfterSetAll;
  }

  lemma FramesOfLateStart()
    ensures PageNumber(0x1000, 0x10_0000) == 0xFF && PageNumber(0x1000, KERNEL_PHYSICAL) == 0x1FF
    ensures PageNumber(0x1000, 0) == 0xF_FFFF
  {
  }

  /** The first request of every boot is the heap's: it leaves the layers in agreement exactly when the frames in use
      leave room for its pages in one run, or the last frame is in use. */
  lemma BootKeepsAgreementIff(info: BootInfo)
    requires LowestBase(info.regions) == 0
    requires KERNEL_PHYSICAL <= info.kernelPhysicalEnd < 0x100_0000
    ensures MemoryRuns.Invariant(AfterHeap(info, HEAP_PAGES), BootState(info))
            <==> Fits(InitialUsed(info), SIZE, HEAP_PAGES) || SIZE - 1 in InitialUsed(info)
  {
    hide InitialUsed, BootState, StartState, LowestBase, MemoryRuns.Invariant, MemoryRuns.Next;
    FirstRequestKeepsAgreementIff(info, HEAP_PAGES);
  }

  /** A run of the heap's length holds a frame above 64 MB whose number is divisible by eight. */
  lemma LongRunHasEighth(a: nat) returns (p: nat)
    requires a + HEAP_PAGES <= SIZE
    ensures a <= p < a + HEAP_PAGES && p >= 0x4000 && p % 8 == 0
  {
    var low := if a < 0x4000 then 0x4000 else a;
    var q := (low + 7) / 8;
    assert low <= 8 * q < low + 8;
    p := 8 * q;
  }

  /** A machine with 64 MB of memory: the boot succeeds, and leaves the layers in disagreement. */
  lemma SmallMachineDisagrees()
    ensures var info := BootInfo(0x10_0000, 0x1000, 0x30_0000, 0x10_0000, [Region(0, 0x400_0000, true)]);
      && LowestBase(info.regions) == 0
      && HeapStart(info, HEAP_PAGES) != 0
      && !MemoryRuns.Invariant(AfterHeap(info, HEAP_PAGES), BootState(info))
  {
    var info := BootInfo(0x10_0000, 0x1000, 0x30_0000, 0x10_0000, [Region(0, 0x400_0000, true)]);
    assert LowestBase(info.regions) == 0 by { assert info.regions[..0] == []; }
    var used := InitialUsed(info);
    forall p: nat | p >= 0x4000 && (p == SIZE - 1 || (p < SIZE && p % 8 == 0)) ensures p in used <==> p % 8 == 0 {
      HighFrameOfSmallMachine(p);
    }
    assert SIZE - 1 !in used;
    hide InitialUsed, LowestBase, KernelMapping, MemoryRuns.Invariant, MemoryRuns.Next, AfterAllocatePages;
    assert !Fits(used, SIZE, HEAP_PAGES) by {
      forall a: nat ensures !RunFits(used, SIZE, a, HEAP_PAGES) {
        if a + HEAP_PAGES <= SIZE {
          var p := LongRunHasEighth(a);
          assert p in used;
        }
      }
    }
    BootKeepsAgreementIff(info);
    HeapRequestIsMapped(info);
  }

  lemma HighFrameOfSmallMachine(p: nat)
    requires 0x4000 <= p < SIZE
    ensures var info := BootInfo(0x10_0000, 0x1000, 0x30_0000, 0x10_0000, [Region(0, 0x400_0000, true)]);
      LowestBase(info.regions) == 0 ==> (p in InitialUsed(info) <==> p % 8 == 0)
  {
    var info := BootInfo(0x10_0000, 0x1000, 0x30_0000, 0x10_0000, [Region(0, 0x400_0000, true)]);
    MemoryMaps.RegionsReleaseExactly(AfterSetAll(SIZE), 0, info.regions, p);
    hide InitialUsed, AfterRegions, LowestBase;
    if LowestBase(info.regions) == 0 { UsedAboveReservations(info, p); }
  }

  /** Every boot maps page 0, and no other page to frame 0. */
  lemma BootMapsPageZero(info: BootInfo)
    requires KERNEL_PHYSICAL <= info.kernelPhysicalEnd < 0x100_0000
    ensures 0 in BootState(info).mapping
    ensures forall p :: p in BootState(info).mapping && BootState(info).mapping[p] == 0 ==> p == 0
    ensures BootState(info).reserved <= Range(0, SIZE + 1)
  {
    hide InitialUsed, LowestBase;
    FirstMegabytesAreReserved(info);
    var pages := info.kernelPhysicalEnd / 0x1000 - 0x200;
    KernelPages(pages, 0);
    forall p | p in BootState(info).mapping && BootState(info).mapping[p] == 0 ensures p == 0 {
      KernelPages(pages, p);
    }
  }

  /** When the physical search does not come back empty, the heap gets its pages. */
  lemma HeapRequestIsMapped(info: BootInfo)
    requires LowestBase(info.regions) == 0
    requires KERNEL_PHYSICAL <= info.kernelPhysicalEnd < 0x100_0000
    requires Fits(InitialUsed(info), SIZE, HEAP_PAGES) || SIZE - 1 !in InitialUsed(info)
    ensures HeapStart(info, HEAP_PAGES) != 0
  {
    var s, boot := StartState(info), BootState(info);
    StartSatisfiesInvariant(info);
    BootMapsPageZero(info);
    hide InitialUsed, LowestBase, KernelMapping, MemoryRuns.Invariant, MemoryRuns.BootOk, AfterAllocatePages;
    assert RunFits({}, SIZE, 0, HEAP_PAGES);
    SearchFindsLowestOrOverruns({}, SIZE, HEAP_PAGES);
    SearchFindsLowestOrOverruns(InitialUsed(info), SIZE, HEAP_PAGES);
    AllocatorFailures.MappingFailsIff(s, boot, HEAP_PAGES);
  }

  /** A memory map from 0 on, with room for a heap of this many pages among the free frames. */
  ghost predicate HeapFits(info: BootInfo, pages: Word) {
    && LowestBase(info.regions) == 0
    && 0 < pages && Fits(InitialUsed(info), SIZE, pages)
  }

  /** The state after the heap's request. */
  ghost function AfterHeap(info: BootInfo, pages: Word): MemoryRuns.Machine
    requires KERNEL_PHYSICAL <= info.kernelPhysicalEnd
  {
    MemoryRuns.Next(StartState(info), MemoryRuns.Allocate(pages))
  }

  /** What the request is answered with: the address of the heap. */
  ghost function HeapStart(info: BootInfo, pages: Word): Word
    requires KERNEL_PHYSICAL <= info.kernelPhysicalEnd
  {
    AfterAllocatePages(StartState(info).memory, MemoryRuns.VIRTUAL_BASE, 0, pages).1
  }

  /** When the frames in use leave room, the heap owns the only block after boot. */
  lemma HeapIsGranted(info: BootInfo, pages: Word) returns (b: Block)
    requires KERNEL_PHYSICAL <= info.kernelPhysicalEnd < 0x100_0000 && HeapFits(info, pages)
    ensures AfterHeap(info, pages).live == {b} && b.count == pages
    ensures b.page + pages <= SIZE && b.frame + pages <= SIZE && MemoryRuns.BootOk(BootState(info))
    ensures MemoryRuns.Invariant(AfterHeap(info, pages), BootState(info))
    ensures HeapStart(info, pages) == PageAddress(MemoryRuns.VIRTUAL_BASE, b.page)
  {
    StartIsEmpty(info, pages);
    hide *;
    var s, boot := StartState(info), BootState(info);
    b := MemoryRuns.AllocateGrants(s, boot, pages);
    MemoryRuns.GrantHasOwner(s, pages, b);
    MemoryRuns.GrantKeepsInvariant(s, boot, b);
    HeapIsFirst(info, pages, b);
  }

  lemma HeapIsFirst(info: BootInfo, pages: Word, b: Block)
    requires KERNEL_PHYSICAL <= info.kernelPhysicalEnd
    requires MemoryRuns.Next(StartState(info), MemoryRuns.Allocate(pages)) ==
             MemoryRuns.Machine(MemoryRuns.Granted(StartState(info).memory, b), StartState(info).live + {b})
    requires AfterAllocatePages(StartState(info).memory, MemoryRuns.VIRTUAL_BASE, 0, pages) ==
             (MemoryRuns.Granted(StartState(info).memory, b), PageAddress(MemoryRuns.VIRTUAL_BASE, b.page))
    ensures AfterHeap(info, pages) == MemoryRuns.Machine(MemoryRuns.Granted(StartState(info).memory, b), StartState(info).live + {b})
    ensures AfterHeap(info, pages).live == {b} && HeapStart(info, pages) == PageAddress(MemoryRuns.VIRTUAL_BASE, b.page)
  {
    hide AfterAllocatePages, MemoryRuns.Next, MemoryRuns.Granted, PageAddress, BootState;
  }

  lemma StartIsEmpty(info: BootInfo, pages: Word)
    requires KERNEL_PHYSICAL <= info.kernelPhysicalEnd < 0x100_0000 && HeapFits(info, pages)
    ensures var s := StartState(info).memory; pages > 0 && Fits(s.virt, SIZE, pages) && Fits(s.phys, SIZE, pages)
    ensures MemoryRuns.BootOk(BootState(info)) && MemoryRuns.Invariant(StartState(info), BootState(info))
  {
    StartSatisfiesInvariant(info);
    hide InitialUsed, LowestBase, KernelMapping, MemoryRuns.Invariant, MemoryRuns.BootOk;
    var frame: nat :| RunFits(InitialUsed(info), SIZE, frame, pages);
    assert RunFits({}, SIZE, 0, pages);
  }

  /** Over every allowed run that does not free the heap's own block, the pages of the heap stay mapped to the frames
      that they were granted at boot. */
  lemma HeapStaysMapped(info: BootInfo, pages: Word, ops: seq<MemoryRuns.Op>, b: Block)
    requires KERNEL_PHYSICAL <= info.kernelPhysicalEnd < 0x100_0000
    requires HeapFits(info, pages) && AfterHeap(info, pages).live == {b}
    requires MemoryRuns.AllowedRun(AfterHeap(info, pages), ops) && MemoryRuns.Free(b) !in ops
    ensures HeapStart(info, pages) == PageAddress(MemoryRuns.VIRTUAL_BASE, b.page) && b.count == pages
    ensures b.page + pages <= SIZE && b.frame + pages <= SIZE
    ensures MemoryRuns.Backed(MemoryRuns.AfterRun(AfterHeap(info, pages), ops).memory.mapping, b)
  {
    hide *;
    var granted := HeapIsGranted(info, pages);
    assert b in {granted};
    MemoryRuns.LiveBlockStays(AfterHeap(info, pages), BootState(info), ops, b);
  }

  lemma BackedByte(m: map<nat, nat>, b: Block, offset: nat)
    requires MemoryRuns.Backed(m, b) && offset < b.count * 0x1000 && b.page + b.count <= SIZE
    ensures var byte := PageAddress(MemoryRuns.VIRTUAL_BASE, b.page) + offset;
      byte / 0x1000 in m && m[byte / 0x1000] * 0x1000 + byte % 0x1000 == b.frame * 0x1000 + offset
  {
    var i, r := offset / 0x1000, offset % 0x1000;
    assert b.page + i in Extent(b, Virtual);
    assert m[MemoryRuns.FIRST_PAGE + (b.page + i)] == b.frame + i;
    MemoryRuns.PageOfAddress(b.page);
    hide PageAddress, Admissible, PageNumber, MemoryRuns.Backed;
    ByteOfPage(MemoryRuns.FIRST_PAGE + (b.page + i), r);
  }

  lemma ByteOfPage(page: nat, r: nat)
    requires r < 0x1000
    ensures (page * 0x1000 + r) / 0x1000 == page && (page * 0x1000 + r) % 0x1000 == r
  {
  }

  /** So every byte of every block of a heap that lies there, header or payload, is translated, and consecutive bytes
      lie at consecutive physical addresses. */
  lemma HeapBytesStayMapped(info: BootInfo, pages: Word, ops: seq<MemoryRuns.Op>, b: Block, h: Heaps.Heap,
                            blocks: seq<Word>, k: nat, byte: nat)
    requires KERNEL_PHYSICAL <= info.kernelPhysicalEnd < 0x100_0000
    requires HeapFits(info, pages) && AfterHeap(info, pages).live == {b}
    requires MemoryRuns.AllowedRun(AfterHeap(info, pages), ops) && MemoryRuns.Free(b) !in ops
    requires Heaps.Tiled(h, blocks) && h.start == HeapStart(info, pages) && h.end == h.start + pages * 0x1000
    requires k < |blocks| && blocks[k] in h.nodes && blocks[k] <= byte < Heaps.EndOf(h, blocks[k])
    ensures var m := MemoryRuns.AfterRun(AfterHeap(info, pages), ops).memory.mapping;
      byte / 0x1000 in m && m[byte / 0x1000] * 0x1000 + byte % 0x1000 == b.frame * 0x1000 + (byte - HeapStart(info, pages))
  {
    hide *;
    BlockLiesInHeap(h, blocks, k);
    HeapStaysMapped(info, pages, ops, b);
    BackedByte(MemoryRuns.AfterRun(AfterHeap(info, pages), ops).memory.mapping, b, byte - h.start);
  }

  lemma BlockLiesInHeap(h: Heaps.Heap, blocks: seq<Word>, k: nat)
    requires Heaps.Tiled(h, blocks) && k < |blocks|
    ensures blocks[k] in h.nodes && h.start <= blocks[k] && Heaps.EndOf(h, blocks[k]) <= h.end
  {
    Heaps.BlocksAreApart(h, blocks, k, |blocks|);
    if k > 0 { Heaps.BlocksAreApart(h, blocks, 0, k); }
  }
}
