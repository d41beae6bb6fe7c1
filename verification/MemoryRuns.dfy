/** Two bitmaps and the page tables over whole runs: who owns which page, when one allocation keeps the three layers
    in agreement, and what freeing undoes. */
module MemoryRuns {
  import opened Words
  import opened Bitmaps
  import opened PageTables
  import opened VirtualMemory
  import opened PageRanges
  import opened PhysicalMemory
  import PhysicalRuns
  import opened Ledger
  import opened Allocator

  // The kernel's allocator starts 16 MB above the kernel's virtual start.
  const VIRTUAL_BASE: Word := 0xC100_0000
  const FIRST_PAGE: nat := 0xC_1000

  /** The layers, and who owns what. */
  datatype Machine = Machine(memory: Memory, live: set<Block>)

  /** What never changes: the reserved frames and the pages mapped at boot. */
  datatype Boot = Boot(reserved: set<nat>, mapping: map<nat, nat>)

  /** The first 16 MB of frames are reserved, and boot pages lie below the allocator on reserved frames. */
  ghost predicate BootOk(boot: Boot) {
    && Range(0, 4096) <= boot.reserved
    && forall p :: p in boot.mapping ==> p < FIRST_PAGE && boot.mapping[p] in boot.reserved
  }

  ghost predicate Bounded(live: set<Block>) {
    forall b :: b in live ==> 0 < b.count && b.page + b.count <= SIZE && b.frame + b.count <= SIZE
  }

  /** The pages of a block are mapped to its frames, one by one. */
  ghost predicate Backed(mapping: map<nat, nat>, b: Block) {
    forall p :: p in Extent(b, Virtual) ==>
      FIRST_PAGE + p in mapping && mapping[FIRST_PAGE + p] == b.frame + (p - b.page)
  }

  /** The mapped pages are the boot pages, unchanged, and the used pages of the allocator's window. */
  ghost predicate Window(mapping: map<nat, nat>, virt: set<nat>, boot: map<nat, nat>) {
    && (forall p :: p in mapping <==> p in boot || (p >= FIRST_PAGE && p - FIRST_PAGE in virt))
    && (forall p :: p in boot ==> p in mapping && mapping[p] == boot[p])
  }

  /** The translation is the boot mapping plus every live allocation. */
  ghost predicate Translates(mapping: map<nat, nat>, virt: set<nat>, live: set<Block>, boot: map<nat, nat>) {
    Window(mapping, virt, boot) && forall b :: b in live ==> Backed(mapping, b)
  }

  /** Each layer accounts for the live allocations. */
  ghost predicate Invariant(s: Machine, boot: Boot) {
    && s.memory.phys <= Range(0, SIZE + 1)
    && Accounts(s.memory.virt, {}, s.live, Virtual)
    && Accounts(s.memory.phys, boot.reserved, s.live, Physical)
    && Bounded(s.live)
    && Translates(s.memory.mapping, s.memory.virt, s.live, boot.mapping)
  }

  /** Every handed-out page maps to a frame in use that is not a boot frame and lies at or above 16 MB; distinct pages
      map to distinct frames; a page whose bit is clear is unmapped; boot pages keep their frames. */
  ghost predicate Agreement(m: Memory, boot: Boot) {
    && (forall p :: p in m.virt ==>
          FIRST_PAGE + p in m.mapping && m.mapping[FIRST_PAGE + p] in m.phys &&
          m.mapping[FIRST_PAGE + p] >= 4096 && forall q :: q in boot.mapping ==> m.mapping[FIRST_PAGE + p] != boot.mapping[q])
    && (forall p, q :: p in m.virt && q in m.virt && p != q ==> m.mapping[FIRST_PAGE + p] != m.mapping[FIRST_PAGE + q])
    && (forall p: nat :: p !in m.virt ==> FIRST_PAGE + p !in m.mapping)
    && (forall q :: q in boot.mapping ==> q in m.mapping && m.mapping[q] == boot.mapping[q])
  }

  lemma OwnershipAgrees(s: Machine, boot: Boot)
    requires BootOk(boot) && Invariant(s, boot)
    ensures Agreement(s.memory, boot)
  {
    hide Covered, Backed, Bounded, Accounts, Window;
    var m := s.memory;
    forall p | p in m.virt
      ensures FIRST_PAGE + p in m.mapping && m.mapping[FIRST_PAGE + p] in m.phys
              && m.mapping[FIRST_PAGE + p] !in boot.reserved && m.mapping[FIRST_PAGE + p] >= 4096
    {
      var b := Owner(s, boot, p);
      FrameIsOwned(s, boot, b, m.mapping[FIRST_PAGE + p]);
    }
    forall p, q | p in m.virt && q in m.virt && p != q
      ensures m.mapping[FIRST_PAGE + p] != m.mapping[FIRST_PAGE + q]
    {
      var b := Owner(s, boot, p);
      var c := Owner(s, boot, q);
      if b != c { OwnersAreApart(s, boot, b, c); }
    }
    UnusedIsUnmapped(s, boot);
  }

  lemma FrameIsOwned(s: Machine, boot: Boot, b: Block, f: nat)
    requires BootOk(boot) && Invariant(s, boot) && b in s.live && f in Extent(b, Physical)
    ensures f in s.memory.phys && f !in boot.reserved && f >= 4096
  {
    hide Translates;
    assert f in Covered(s.live, Physical);
    assert f !in Range(0, 4096);
  }

  lemma OwnersAreApart(s: Machine, boot: Boot, b: Block, c: Block)
    requires Invariant(s, boot) && b in s.live && c in s.live && b != c
    ensures Extent(b, Virtual) !! Extent(c, Virtual) && Extent(b, Physical) !! Extent(c, Physical)
  {
  }

  lemma UnusedIsUnmapped(s: Machine, boot: Boot)
    requires BootOk(boot) && Invariant(s, boot)
    ensures forall p: nat :: p !in s.memory.virt ==> FIRST_PAGE + p !in s.memory.mapping
    ensures forall q :: q in boot.mapping ==> q in s.memory.mapping && s.memory.mapping[q] == boot.mapping[q]
  {
  }

  lemma Owner(s: Machine, boot: Boot, p: nat) returns (b: Block)
    requires Invariant(s, boot) && p in s.memory.virt
    ensures b in s.live && p in Extent(b, Virtual) && FIRST_PAGE + p in s.memory.mapping
    ensures s.memory.mapping[FIRST_PAGE + p] == b.frame + (p - b.page)
    ensures s.memory.mapping[FIRST_PAGE + p] in Extent(b, Physical) && Extent(b, Physical) <= Covered(s.live, Physical)
  {
    assert p in Covered(s.live, Virtual);
    b :| b in s.live && p in Extent(b, Virtual);
  }

  datatype Op = Allocate(count: Word) | Free(block: Block)

  /** One call of the allocator's interface. A success makes its caller the owner of the pages it was promised. */
  ghost function Next(s: Machine, op: Op): Machine {
    match op
    case Allocate(count) =>
      var (m, va) := AfterAllocatePages(s.memory, VIRTUAL_BASE, 0, count);
      if va == 0 || va / 0x1000 !in m.mapping then Machine(m, s.live)
      else Machine(m, s.live + {Block(PageNumber(VIRTUAL_BASE, va), m.mapping[va / 0x1000], count)})
    case Free(b) =>
      Machine(AfterFreePages(s.memory, VIRTUAL_BASE, 0, PageAddress(VIRTUAL_BASE, b.page), b.count % 0x1_0000_0000).0,
              s.live - {b})
  }

  /** Both searches find a full run, or one of them fails outright because the last page of its bitmap is in use. */
  ghost predicate Requestable(m: Memory, count: Word) {
    count == 0 ||
    (Fits(m.virt, SIZE, count) && Fits(m.phys, SIZE, count)) ||
    (!Fits(m.virt, SIZE, count) && SIZE - 1 in m.virt) ||
    (!Fits(m.phys, SIZE, count) && SIZE - 1 in m.phys)
  }

  lemma PageOfAddress(page: nat)
    requires page < SIZE
    ensures var va := PageAddress(VIRTUAL_BASE, page);
      va == VIRTUAL_BASE + page * 0x1000 && va / 0x1000 == FIRST_PAGE + page && va % 0x1000 == 0 && va != 0
      && Admissible(va / 0x40_0000) && PageNumber(VIRTUAL_BASE, va) == page
  {
  }

  /** Mapping consecutive absent pages of the allocator's window succeeds. */
  lemma MapWindow(mapping: map<nat, nat>, first: nat, frame: nat, count: nat)
    requires first + count <= SIZE && frame + count <= SIZE && count > 0
    requires forall p :: p in Range(first, count) ==> FIRST_PAGE + p !in mapping
    ensures PageAddress(VIRTUAL_BASE, first) == VIRTUAL_BASE + first * 0x1000
    ensures AfterMapRange(mapping, PageAddress(VIRTUAL_BASE, first), frame * 0x1000, count) ==
            (mapping + Run(FIRST_PAGE + first, frame, count), true)
  {
    hide *;
    WindowBounds(first, frame, count);
    var va := PageAddress(VIRTUAL_BASE, first);
    var k := MapRangeMapsLongestPrefix(mapping, va, frame * 0x1000, count);
    MapWindowCompletely(mapping, first, frame, count, k);
  }

  lemma WindowBounds(first: nat, frame: nat, count: nat)
    requires first + count <= SIZE && frame + count <= SIZE && count > 0
    ensures var va := PageAddress(VIRTUAL_BASE, first);
      && va == VIRTUAL_BASE + first * 0x1000 && va + count * 0x1000 <= 0x1_0000_0000 && va / 0x1000 == FIRST_PAGE + first
    ensures frame * 0x1000 + count * 0x1000 <= 0x1_0000_0000 && frame * 0x1000 / 0x1000 == frame
  {
    PageOfAddress(first);
  }

  lemma MapWindowCompletely(mapping: map<nat, nat>, first: nat, frame: nat, count: nat, k: nat)
    requires first + count <= SIZE && frame + count <= SIZE
    requires VIRTUAL_BASE + first * 0x1000 + count * 0x1000 <= 0x1_0000_0000
    requires forall p :: p in Range(first, count) ==> FIRST_PAGE + p !in mapping
    requires MappablePrefix(mapping, VIRTUAL_BASE + first * 0x1000, frame * 0x1000, count, k)
    ensures k == count
  {
    hide CanMap;
    if k < count {
      assert first + k in Range(first, count);
      WindowPageIsMappable(mapping, first, frame, k);
    }
  }

  lemma WindowPageIsMappable(mapping: map<nat, nat>, first: nat, frame: nat, k: nat)
    requires first + k < SIZE && frame + k < SIZE && FIRST_PAGE + (first + k) !in mapping
    ensures CanMap(mapping, VIRTUAL_BASE + first * 0x1000 + k * 0x1000, frame * 0x1000 + k * 0x1000)
  {
    hide PageAddress, Admissible, PageNumber;
    var va, pa := VIRTUAL_BASE + first * 0x1000 + k * 0x1000, (frame + k) * 0x1000;
    PageOfAddress(first + k);
    assert va == PageAddress(VIRTUAL_BASE, first + k) && pa == frame * 0x1000 + k * 0x1000;
    assert pa % 0x1000 == 0;
  }

  /** When both searches find a full run, mapping cannot fail: all three layers grow by exactly the new pages. */
  lemma AllocateGrants(s: Machine, boot: Boot, count: Word) returns (b: Block)
    requires BootOk(boot) && Invariant(s, boot)
    requires count > 0 && Fits(s.memory.virt, SIZE, count) && Fits(s.memory.phys, SIZE, count)
    ensures b.count == count && b.page + count <= SIZE && b.frame + count <= SIZE
    ensures Extent(b, Virtual) !! s.memory.virt && Extent(b, Physical) !! s.memory.phys
    ensures AfterAllocatePages(s.memory, VIRTUAL_BASE, 0, count) ==
            (Granted(s.memory, b), PageAddress(VIRTUAL_BASE, b.page))
  {
    hide *;
    var m := s.memory;
    var frame := FreshRuns(s, boot, count);
    var first := Search(m.virt, SIZE, count);
    b := Block(first, frame, count);
    MapWindow(m.mapping, first, frame, count);
    GrantIsComputed(m, b);
  }

  /** The runs that the two searches find are unused and, on the virtual side, unmapped. */
  lemma FreshRuns(s: Machine, boot: Boot, count: Word) returns (frame: nat)
    requires BootOk(boot) && Invariant(s, boot)
    requires count > 0 && Fits(s.memory.virt, SIZE, count) && Fits(s.memory.phys, SIZE, count)
    ensures var first := Search(s.memory.virt, SIZE, count);
      && first >= 0 && first + count <= SIZE && 0 < frame && frame + count <= SIZE
      && Extent(Block(first, frame, count), Virtual) !! s.memory.virt
      && Extent(Block(first, frame, count), Physical) !! s.memory.phys
      && (forall p :: p in Range(first, count) ==> FIRST_PAGE + p !in s.memory.mapping)
    ensures AfterAllocate(s.memory.phys, 0, count) == (s.memory.phys + Range(frame, count), frame * 0x1000)
  {
    assert 0 in s.memory.phys by { FrameZeroIsUsed(s, boot); }
    hide Accounts, BootOk, Bounded, Backed, AfterAllocate;
    SearchFindsLowestOrOverruns(s.memory.virt, SIZE, count);
    frame := PhysicalRuns.FittingRequestIsGranted(s.memory.phys, count);
    assert RunFits(s.memory.virt, SIZE, Search(s.memory.virt, SIZE, count), count);
  }

  lemma FrameZeroIsUsed(s: Machine, boot: Boot)
    requires BootOk(boot) && Invariant(s, boot)
    ensures 0 in s.memory.phys
  {
    hide Translates, Covered;
    assert 0 in Range(0, 4096);
  }

  lemma GrantIsComputed(m: Memory, b: Block)
    requires 0 < b.count && b.page + b.count <= SIZE && b.frame > 0 && b.page == Search(m.virt, SIZE, b.count)
    requires AfterAllocate(m.phys, 0, b.count) == (m.phys + Range(b.frame, b.count), b.frame * 0x1000)
    requires AfterMapRange(m.mapping, PageAddress(VIRTUAL_BASE, b.page), b.frame * 0x1000, b.count) ==
             (m.mapping + Run(FIRST_PAGE + b.page, b.frame, b.count), true)
    ensures AfterAllocatePages(m, VIRTUAL_BASE, 0, b.count) == (Granted(m, b), PageAddress(VIRTUAL_BASE, b.page))
  {
    hide SearchResult, AfterAllocate, AfterMapRange, PageAddress, Run;
  }

  /** The layers after a granted request. */
  ghost function Granted(m: Memory, b: Block): Memory {
    Memory(m.virt + Extent(b, Virtual), m.phys + Extent(b, Physical),
           m.mapping + Run(FIRST_PAGE + b.page, b.frame, b.count))
  }

  lemma GrantHasOwner(s: Machine, count: Word, b: Block)
    requires b.count == count > 0 && b.page + count <= SIZE
    requires AfterAllocatePages(s.memory, VIRTUAL_BASE, 0, count) == (Granted(s.memory, b), PageAddress(VIRTUAL_BASE, b.page))
    ensures Next(s, Allocate(count)) == Machine(Granted(s.memory, b), s.live + {b})
  {
    hide AfterAllocatePages, PageAddress, PageNumber, Admissible, Extent;
    PageOfAddress(b.page);
    assert FIRST_PAGE + b.page in Range(FIRST_PAGE + b.page, count);
  }

  lemma GrantKeepsInvariant(s: Machine, boot: Boot, b: Block)
    requires BootOk(boot) && Invariant(s, boot)
    requires 0 < b.count && b.page + b.count <= SIZE && b.frame + b.count <= SIZE
    requires Extent(b, Virtual) !! s.memory.virt && Extent(b, Physical) !! s.memory.phys
    ensures Invariant(Machine(Granted(s.memory, b), s.live + {b}), boot)
  {
    hide Translates, Accounts, Extent, Run, Covered, BootOk;
    Grant(s.memory.virt, {}, s.live, Virtual, b);
    Grant(s.memory.phys, boot.reserved, s.live, Physical, b);
    GrantTranslates(s, boot, b);
    FramesInBitmap(b);
  }

  lemma FramesInBitmap(b: Block)
    requires b.frame + b.count <= SIZE
    ensures Extent(b, Physical) <= Range(0, SIZE + 1)
  {
  }

  lemma GrantTranslates(s: Machine, boot: Boot, b: Block)
    requires BootOk(boot) && Invariant(s, boot) && Extent(b, Virtual) !! s.memory.virt
    ensures Translates(s.memory.mapping + Run(FIRST_PAGE + b.page, b.frame, b.count),
                       s.memory.virt + Extent(b, Virtual), s.live + {b}, boot.mapping)
  {
    hide Run, Extent, Accounts, Backed, Covered, Bounded, Window;
    var run := Run(FIRST_PAGE + b.page, b.frame, b.count);
    var mapping := s.memory.mapping + run;
    RunOfBlock(b);
    GrantWindow(s.memory.mapping, s.memory.virt, boot, run, b);
    forall c | c in s.live ensures Backed(mapping, c) {
      PagesAreUsed(s, boot, c);
      StillBacked(s.memory.mapping, mapping, run, b, c);
    }
    NewlyBacked(mapping, run, b);
  }

  lemma GrantWindow(mapping: map<nat, nat>, virt: set<nat>, boot: Boot, run: map<nat, nat>, b: Block)
    requires BootOk(boot) && Window(mapping, virt, boot.mapping)
    requires forall p :: p in run <==> p >= FIRST_PAGE && p - FIRST_PAGE in Extent(b, Virtual)
    ensures Window(mapping + run, virt + Extent(b, Virtual), boot.mapping)
  {
    hide Extent;
  }

  lemma PagesAreUsed(s: Machine, boot: Boot, b: Block)
    requires Invariant(s, boot) && b in s.live
    ensures Extent(b, Virtual) <= s.memory.virt && Extent(b, Physical) <= s.memory.phys
  {
    hide Translates;
    assert Extent(b, Virtual) <= Covered(s.live, Virtual) && Extent(b, Physical) <= Covered(s.live, Physical);
  }

  lemma StillBacked(m: map<nat, nat>, m': map<nat, nat>, run: map<nat, nat>, b: Block, c: Block)
    requires Backed(m, c) && Extent(b, Virtual) !! Extent(c, Virtual)
    requires m' == m + run && forall p :: p in run <==> p >= FIRST_PAGE && p - FIRST_PAGE in Extent(b, Virtual)
    ensures Backed(m', c)
  {
  }

  lemma NewlyBacked(m': map<nat, nat>, run: map<nat, nat>, b: Block)
    requires forall p :: p in run ==> p in m' && m'[p] == run[p]
    requires forall p :: p in Extent(b, Virtual) ==> FIRST_PAGE + p in run && run[FIRST_PAGE + p] == b.frame + (p - b.page)
    ensures Backed(m', b)
  {
  }

  lemma RunOfBlock(b: Block)
    ensures var run := Run(FIRST_PAGE + b.page, b.frame, b.count);
      && (forall p :: p in run <==> p >= FIRST_PAGE && p - FIRST_PAGE in Extent(b, Virtual))
      && (forall p :: p in Extent(b, Virtual) ==> FIRST_PAGE + p in run && run[FIRST_PAGE + p] == b.frame + (p - b.page))
  {
  }

  /** A request that is turned down leaves all three layers as they were. */
  lemma FailedRequestChangesNothing(m: Memory, count: Word)
    requires Requestable(m, count) && !(count > 0 && Fits(m.virt, SIZE, count) && Fits(m.phys, SIZE, count))
    ensures AfterAllocatePages(m, VIRTUAL_BASE, 0, count) == (m, 0)
  {
  }

  lemma MapRangeKeepsMapped(m: map<nat, nat>, va: Word, pa: Word, count: nat, p: nat)
    requires p in m
    ensures var m' := AfterMapRange(m, va, pa, count).0; p in m' && m'[p] == m[p]
    decreases count
  {
    if count > 0 && CanMap(m, va, pa) {
      MapRangeKeepsMapped(m[va / 0x1000 := pa / 0x1000], Plus(va, 0x1000), Plus(pa, 0x1000), count - 1, p);
    }
  }

  lemma FirstOfRangeIsMapped(m: map<nat, nat>, va: Word, pa: Word, count: nat)
    requires count > 0 && CanMap(m, va, pa)
    ensures var m' := AfterMapRange(m, va, pa, count).0; va / 0x1000 in m' && m'[va / 0x1000] == pa / 0x1000
  {
    MapRangeKeepsMapped(m[va / 0x1000 := pa / 0x1000], Plus(va, 0x1000), Plus(pa, 0x1000), count - 1, va / 0x1000);
  }

  /** The first page of a request that both searches answer is mapped, on the frame the physical search found. */
  lemma FirstPageIsMapped(s: Machine, boot: Boot, count: Word)
    requires BootOk(boot) && Invariant(s, boot) && count > 0
    requires Search(s.memory.virt, SIZE, count) >= 0 && Search(s.memory.phys, SIZE, count) >= 0
    ensures var m := s.memory; var (m', va) := AfterAllocatePages(m, VIRTUAL_BASE, 0, count);
      var first, frame := Search(m.virt, SIZE, count), Search(m.phys, SIZE, count);
      && FIRST_PAGE + first in m'.mapping && m'.mapping[FIRST_PAGE + first] == frame
      && m'.virt == AfterSetBits(m.virt, SIZE, first, count) && m'.phys == AfterSetBits(m.phys, SIZE, frame, count)
      && (va == 0 || va == PageAddress(VIRTUAL_BASE, first))
  {
    hide *;
    var m := s.memory;
    FoundIsFree(s, boot, count);
    var first, frame := Search(m.virt, SIZE, count), Search(m.phys, SIZE, count);
    PageOfAddress(first);
    WindowPageIsMappable(m.mapping, first, frame, 0);
    FirstOfRangeIsMapped(m.mapping, PageAddress(VIRTUAL_BASE, first), frame * 0x1000, count);
    OverrunIsComputed(m, count, first, frame);
  }

  lemma FoundIsFree(s: Machine, boot: Boot, count: Word)
    requires BootOk(boot) && Invariant(s, boot) && count > 0
    requires Search(s.memory.virt, SIZE, count) >= 0 && Search(s.memory.phys, SIZE, count) >= 0
    ensures var first, frame := Search(s.memory.virt, SIZE, count), Search(s.memory.phys, SIZE, count);
      first < SIZE && 0 < frame < SIZE && FIRST_PAGE + first !in s.memory.mapping
      && first !in s.memory.virt && frame !in s.memory.phys && frame * 0x1000 < 0x1_0000_0000
  {
    hide SearchResult, Accounts, Covered, Backed;
    PhysicalRuns.FoundIsClear(s.memory.virt, count);
    PhysicalRuns.FoundIsClear(s.memory.phys, count);
    FrameZeroIsUsed(s, boot);
    PhysicalRuns.FrameZeroIsNotFound(s.memory.phys, count);
  }

  lemma OverrunIsComputed(m: Memory, count: Word, first: nat, frame: nat)
    requires count > 0 && first == Search(m.virt, SIZE, count) && frame == Search(m.phys, SIZE, count)
    requires 0 < frame < SIZE
    ensures var va := PageAddress(VIRTUAL_BASE, first);
      var (mapping', ok) := AfterMapRange(m.mapping, va, frame * 0x1000, count);
      AfterAllocatePages(m, VIRTUAL_BASE, 0, count) ==
      (Memory(AfterSetBits(m.virt, SIZE, first, count), AfterSetBits(m.phys, SIZE, frame, count), mapping'),
       if ok then va else 0)
  {
    hide SearchResult, AfterMapRange, AfterSetBits;
    assert PageAddress(0, frame) == frame * 0x1000;
  }

  lemma SomeSearchOverruns(m: Memory, count: Word)
    requires !Requestable(m, count)
    ensures var first, frame := Search(m.virt, SIZE, count), Search(m.phys, SIZE, count);
      count > 0 && first >= 0 && frame >= 0 && (first + count > SIZE || frame + count > SIZE)
  {
    SearchFindsLowestOrOverruns(m.virt, SIZE, count);
    SearchFindsLowestOrOverruns(m.phys, SIZE, count);
  }

  /** A request that one search answers with a run too short leaves pages in use that nobody accounts for. */
  lemma OverrunBreaksInvariant(s: Machine, boot: Boot, count: Word)
    requires BootOk(boot) && Invariant(s, boot) && !Requestable(s.memory, count)
    ensures !Invariant(Next(s, Allocate(count)), boot)
  {
    hide *;
    SomeSearchOverruns(s.memory, count);
    FoundIsFree(s, boot, count);
    FirstPageIsMapped(s, boot, count);
    if Search(s.memory.virt, SIZE, count) + count > SIZE {
      VirtualOverrun(s, boot, count);
    } else {
      PhysicalOverrun(s, boot, count);
    }
  }

  /** The window's page is mapped, but its bit is not set. */
  lemma VirtualOverrun(s: Machine, boot: Boot, count: Word)
    requires BootOk(boot) && Invariant(s, boot) && count > 0
    requires Search(s.memory.virt, SIZE, count) >= 0 && Search(s.memory.phys, SIZE, count) >= 0
    requires Search(s.memory.virt, SIZE, count) + count > SIZE
    ensures !Invariant(Next(s, Allocate(count)), boot)
  {
    FirstPageIsMapped(s, boot, count);
    FoundIsFree(s, boot, count);
    hide SearchResult, Search, AfterAllocatePages, Accounts, Backed, Bounded;
    var first := Search(s.memory.virt, SIZE, count);
    var t := Next(s, Allocate(count));
    assert t.memory.virt == s.memory.virt && FIRST_PAGE + first in t.memory.mapping;
    assert FIRST_PAGE + first !in boot.mapping;
  }

  /** The frame's bit is not set: either nobody owns the page, or its owner's frame is not in use. */
  lemma PhysicalOverrun(s: Machine, boot: Boot, count: Word)
    requires BootOk(boot) && Invariant(s, boot) && count > 0
    requires Search(s.memory.virt, SIZE, count) >= 0 && Search(s.memory.phys, SIZE, count) >= 0
    requires Search(s.memory.virt, SIZE, count) + count <= SIZE && Search(s.memory.phys, SIZE, count) + count > SIZE
    ensures !Invariant(Next(s, Allocate(count)), boot)
  {
    FirstPageIsMapped(s, boot, count);
    FoundIsFree(s, boot, count);
    var first, frame := Search(s.memory.virt, SIZE, count), Search(s.memory.phys, SIZE, count);
    PageOfAddress(first);
    hide SearchResult, Search, AfterAllocatePages, Translates, Bounded, PageAddress, PageNumber, Admissible, BootOk;
    var t := Next(s, Allocate(count));
    assert t.memory.phys == s.memory.phys && first in t.memory.virt;
    if t.live == s.live {
      assert first !in Covered(s.live, Virtual);
    } else {
      var b := Block(first, frame, count);
      assert b in t.live && frame in Extent(b, Physical);
      assert frame in Covered(t.live, Physical);
    }
  }

  /** One allocation keeps the three layers in agreement exactly when both searches find a full run or one of them
      fails outright. */
  lemma AllocateKeepsInvariantIff(s: Machine, boot: Boot, count: Word)
    requires BootOk(boot) && Invariant(s, boot)
    ensures Invariant(Next(s, Allocate(count)), boot) <==> Requestable(s.memory, count)
  {
    hide Invariant, BootOk;
    if !Requestable(s.memory, count) {
      OverrunBreaksInvariant(s, boot, count);
    } else if count > 0 && Fits(s.memory.virt, SIZE, count) && Fits(s.memory.phys, SIZE, count) {
      var b := AllocateGrants(s, boot, count);
      GrantHasOwner(s, count, b);
      GrantKeepsInvariant(s, boot, b);
    } else {
      FailedRequestChangesNothing(s.memory, count);
    }
  }

  /** The layers after a block is given back. */
  ghost function Returned(m: Memory, b: Block): Memory {
    Memory(m.virt - Extent(b, Virtual), m.phys - Extent(b, Physical),
           m.mapping - Range(FIRST_PAGE + b.page, b.count))
  }

  lemma UnmapWindow(mapping: map<nat, nat>, b: Block)
    requires 0 < b.count && b.page + b.count <= SIZE && Backed(mapping, b)
    ensures AfterUnmapRange(mapping, PageAddress(VIRTUAL_BASE, b.page), b.count) ==
            (mapping - Range(FIRST_PAGE + b.page, b.count), true)
  {
    PageOfAddress(b.page);
    var va := PageAddress(VIRTUAL_BASE, b.page);
    hide AfterUnmapRange, PageAddress, Admissible, PageNumber, CanUnmap, Backed;
    var k := UnmapRangeUnmapsLongestPrefix(mapping, va, b.count);
    if k < b.count {
      BackedPageIsUnmappable(mapping, b, k);
    }
  }

  lemma BackedPageIsUnmappable(mapping: map<nat, nat>, b: Block, k: nat)
    requires k < b.count && b.page + b.count <= SIZE && Backed(mapping, b)
    ensures CanUnmap(mapping, VIRTUAL_BASE + b.page * 0x1000 + k * 0x1000)
  {
    var va := VIRTUAL_BASE + (b.page + k) * 0x1000;
    PageOfAddress(b.page + k);
    assert b.page + k in Extent(b, Virtual);
  }

  /** Giving back a live allocation succeeds and clears exactly its pages, its frames and its translations, although
      only its first page is translated. */
  lemma FreeReturns(s: Machine, boot: Boot, b: Block)
    requires BootOk(boot) && Invariant(s, boot) && b in s.live
    ensures AfterFreePages(s.memory, VIRTUAL_BASE, 0, PageAddress(VIRTUAL_BASE, b.page), b.count % 0x1_0000_0000) ==
            (Returned(s.memory, b), true)
    ensures Next(s, Free(b)) == Machine(Returned(s.memory, b), s.live - {b})
  {
    var m := s.memory;
    assert Bounded(s.live) && Backed(m.mapping, b);
    FirstPageTranslates(m.mapping, b);
    Revoke(m.phys, boot.reserved, s.live, Physical, b);
    PhysicalRuns.FreeIsExact(m.phys, boot.reserved, b);
    hide *;
    UnmapWindow(m.mapping, b);
    ReturnIsComputed(m, b);
    assert Next(s, Free(b)) == Machine(Returned(s.memory, b), s.live - {b}) by { NextFree(s, b); }
  }

  lemma NextFree(s: Machine, b: Block)
    ensures Next(s, Free(b)) ==
            Machine(AfterFreePages(s.memory, VIRTUAL_BASE, 0, PageAddress(VIRTUAL_BASE, b.page), b.count % 0x1_0000_0000).0,
                    s.live - {b})
  {
    hide AfterFreePages, PageAddress;
  }

  lemma FirstPageTranslates(mapping: map<nat, nat>, b: Block)
    requires 0 < b.count && b.page + b.count <= SIZE && b.frame + b.count <= SIZE && Backed(mapping, b)
    ensures PhysicalAddressOf(mapping, PageAddress(VIRTUAL_BASE, b.page)) == b.frame * 0x1000
  {
    PageOfAddress(b.page);
    assert b.page in Extent(b, Virtual);
  }

  lemma ClearsExtent(virt: set<nat>, b: Block)
    requires b.page + b.count <= SIZE
    ensures AfterClearBits(virt, SIZE, b.page, b.count) == virt - Extent(b, Virtual)
  {
  }

  lemma ReturnIsComputed(m: Memory, b: Block)
    requires 0 < b.count && b.page + b.count <= SIZE && b.frame + b.count <= SIZE
    requires PhysicalAddressOf(m.mapping, PageAddress(VIRTUAL_BASE, b.page)) == b.frame * 0x1000
    requires AfterUnmapRange(m.mapping, PageAddress(VIRTUAL_BASE, b.page), b.count) ==
             (m.mapping - Range(FIRST_PAGE + b.page, b.count), true)
    requires AfterFree(m.phys, 0, b.frame * 0x1000, b.count) == m.phys - Extent(b, Physical)
    ensures AfterFreePages(m, VIRTUAL_BASE, 0, PageAddress(VIRTUAL_BASE, b.page), b.count % 0x1_0000_0000) ==
            (Returned(m, b), true)
  {
    hide AfterUnmapRange, AfterFree, PageAddress, PageNumber, PhysicalAddressOf, Admissible, Extent;
    PageOfAddress(b.page);
    ClearsExtent(m.virt, b);
  }

  lemma ReturnKeepsInvariant(s: Machine, boot: Boot, b: Block)
    requires BootOk(boot) && Invariant(s, boot) && b in s.live
    ensures Invariant(Machine(Returned(s.memory, b), s.live - {b}), boot)
  {
    hide Translates, Accounts, Extent, Run, Covered, BootOk;
    Revoke(s.memory.virt, {}, s.live, Virtual, b);
    Revoke(s.memory.phys, boot.reserved, s.live, Physical, b);
    ReturnTranslates(s, boot, b);
  }

  lemma ReturnTranslates(s: Machine, boot: Boot, b: Block)
    requires BootOk(boot) && Invariant(s, boot) && b in s.live
    ensures Translates(s.memory.mapping - Range(FIRST_PAGE + b.page, b.count),
                       s.memory.virt - Extent(b, Virtual), s.live - {b}, boot.mapping)
  {
    hide Run, Extent, Covered, Bounded, Window, Backed, Accounts;
    var run := Run(FIRST_PAGE + b.page, b.frame, b.count);
    var mapping := s.memory.mapping - Range(FIRST_PAGE + b.page, b.count);
    RunOfBlock(b);
    RunKeys(b);
    ReturnWindow(s.memory.mapping, s.memory.virt, boot, run, b);
    forall c | c in s.live - {b} ensures Backed(mapping, c) {
      OwnersAreApart(s, boot, b, c);
      KeptBacked(s.memory.mapping, run, b, c);
    }
  }

  lemma RunKeys(b: Block)
    ensures Run(FIRST_PAGE + b.page, b.frame, b.count).Keys == Range(FIRST_PAGE + b.page, b.count)
  {
  }

  lemma ReturnWindow(mapping: map<nat, nat>, virt: set<nat>, boot: Boot, run: map<nat, nat>, b: Block)
    requires BootOk(boot) && Window(mapping, virt, boot.mapping)
    requires forall p :: p in run <==> p >= FIRST_PAGE && p - FIRST_PAGE in Extent(b, Virtual)
    ensures Window(mapping - run.Keys, virt - Extent(b, Virtual), boot.mapping)
  {
    hide Extent;
  }

  lemma KeptBacked(m: map<nat, nat>, run: map<nat, nat>, b: Block, c: Block)
    requires Backed(m, c) && Extent(b, Virtual) !! Extent(c, Virtual)
    requires forall p :: p in run <==> p >= FIRST_PAGE && p - FIRST_PAGE in Extent(b, Virtual)
    ensures Backed(m - run.Keys, c)
  {
  }

  /** Allocating and giving back restores both bitmaps, the whole translation and the set of owners. */
  lemma AllocateThenFreeRestores(s: Machine, boot: Boot, count: Word)
    requires BootOk(boot) && Invariant(s, boot) && Requestable(s.memory, count)
    ensures var t := Next(s, Allocate(count));
      t == s || exists b :: t.live == s.live + {b} && b !in s.live && Next(t, Free(b)) == s
  {
    var t := Next(s, Allocate(count));
    hide Invariant, BootOk, Next, AfterAllocatePages, Run;
    if count > 0 && Fits(s.memory.virt, SIZE, count) && Fits(s.memory.phys, SIZE, count) {
      var b := AllocateGrants(s, boot, count);
      GrantHasOwner(s, count, b);
      GrantKeepsInvariant(s, boot, b);
      FreeReturns(t, boot, b);
      NewPagesWereAbsent(s, boot, b);
      assert Returned(Granted(s.memory, b), b) == s.memory;
      assert b !in s.live by {
        if b in s.live { BlockIsUsed(s, boot, b); }
      }
      assert Next(t, Free(b)) == s;
    } else {
      FailedRequestChangesNothing(s.memory, count);
      assert t == s by { NextUnchanged(s, count); }
    }
  }

  lemma NextUnchanged(s: Machine, count: Word)
    requires AfterAllocatePages(s.memory, VIRTUAL_BASE, 0, count) == (s.memory, 0)
    ensures Next(s, Allocate(count)) == s
  {
    hide AfterAllocatePages;
  }

  lemma BlockIsUsed(s: Machine, boot: Boot, b: Block)
    requires Invariant(s, boot) && b in s.live
    ensures b.page in Extent(b, Virtual) * s.memory.virt
  {
    PagesAreUsed(s, boot, b);
  }

  lemma NewPagesWereAbsent(s: Machine, boot: Boot, b: Block)
    requires BootOk(boot) && Invariant(s, boot) && Extent(b, Virtual) !! s.memory.virt
    ensures s.memory.mapping + Run(FIRST_PAGE + b.page, b.frame, b.count) - Range(FIRST_PAGE + b.page, b.count) == s.memory.mapping
  {
    RunOfBlock(b);
    RunKeys(b);
    hide Run, Extent, Accounts, Backed;
  }

  /** Requests are answered with full runs or turned down, and only live allocations are given back. */
  ghost predicate Allowed(s: Machine, op: Op) {
    match op
    case Allocate(count) => Requestable(s.memory, count)
    case Free(b) => b in s.live
  }

  ghost predicate AllowedRun(s: Machine, ops: seq<Op>)
    decreases |ops|
  {
    ops == [] || (Allowed(s, ops[0]) && AllowedRun(Next(s, ops[0]), ops[1..]))
  }

  ghost function AfterRun(s: Machine, ops: seq<Op>): Machine
    decreases |ops|
  {
    if ops == [] then s else AfterRun(Next(s, ops[0]), ops[1..])
  }

  lemma StepKeepsInvariant(s: Machine, boot: Boot, op: Op)
    requires BootOk(boot) && Invariant(s, boot) && Allowed(s, op)
    ensures Invariant(Next(s, op), boot)
  {
    hide BootOk, Next, Invariant;
    match op
    case Allocate(count) => AllocateKeepsInvariantIff(s, boot, count);
    case Free(b) =>
      FreeReturns(s, boot, b);
      ReturnKeepsInvariant(s, boot, b);
  }

  lemma FramesAddUp(s: Machine, boot: Boot)
    requires Invariant(s, boot)
    ensures |Range(0, SIZE + 1) - s.memory.phys| + |Covered(s.live, Physical)| + |boot.reserved| == SIZE + 1
  {
    hide Accounts, Translates, Covered;
    Conservation(s.memory.phys, boot.reserved, s.live, Physical, SIZE + 1);
  }

  /** In every allowed run the two bitmaps and the translation stay in agreement, and the free, live and reserved
      frames add up to the whole bitmap. */
  lemma {:induction false} RunsKeepInvariant(s: Machine, boot: Boot, ops: seq<Op>)
    requires BootOk(boot) && Invariant(s, boot) && AllowedRun(s, ops)
    ensures var e := AfterRun(s, ops);
      && Invariant(e, boot)
      && |Range(0, SIZE + 1) - e.memory.phys| + |Covered(e.live, Physical)| + |boot.reserved| == SIZE + 1
    decreases |ops|
  {
    hide BootOk, Next, Invariant, Allowed, Covered;
    if ops == [] {
      FramesAddUp(s, boot);
    } else {
      StepKeepsInvariant(s, boot, ops[0]);
      RunsKeepInvariant(Next(s, ops[0]), boot, ops[1..]);
    }
  }

  /** A block that is not given back stays live and mapped to its frames over every allowed run. */
  lemma {:induction false} LiveBlockStays(s: Machine, boot: Boot, ops: seq<Op>, b: Block)
    requires BootOk(boot) && Invariant(s, boot) && AllowedRun(s, ops) && b in s.live && Free(b) !in ops
    ensures b in AfterRun(s, ops).live && Backed(AfterRun(s, ops).memory.mapping, b)
    decreases |ops|
  {
    assert Backed(s.memory.mapping, b);
    hide BootOk, Next, Invariant, Allowed, Backed;
    if ops != [] {
      StepKeepsInvariant(s, boot, ops[0]);
      assert b in Next(s, ops[0]).live by { StepKeepsLive(s, ops[0], b); }
      LiveBlockStays(Next(s, ops[0]), boot, ops[1..], b);
    }
  }

  lemma StepKeepsLive(s: Machine, op: Op, b: Block)
    requires b in s.live && op != Free(b)
    ensures b in Next(s, op).live
  {
    hide AfterAllocatePages, AfterFreePages;
  }

  /** At the end of every allowed run a call that reports failure has changed none of the three layers, and a call
      for which both searches find a full run does not fail. */
  lemma FailureIsClean(s: Machine, boot: Boot, ops: seq<Op>, count: Word)
    requires BootOk(boot) && Invariant(s, boot) && AllowedRun(s, ops)
    requires Requestable(AfterRun(s, ops).memory, count)
    ensures var e := AfterRun(s, ops); var (m, va) := AfterAllocatePages(e.memory, VIRTUAL_BASE, 0, count);
      && (va == 0 ==> m == e.memory)
      && (va == 0 <==> count == 0 || !Fits(e.memory.virt, SIZE, count) || !Fits(e.memory.phys, SIZE, count))
  {
    hide BootOk, Invariant, AfterAllocatePages;
    RunsKeepInvariant(s, boot, ops);
    var e := AfterRun(s, ops);
    if count > 0 && Fits(e.memory.virt, SIZE, count) && Fits(e.memory.phys, SIZE, count) {
      var b := AllocateGrants(e, boot, count);
      PageOfAddress(b.page);
    } else {
      FailedRequestChangesNothing(e.memory, count);
    }
  }
}
