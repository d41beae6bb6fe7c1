/** The page tables that the boot code fills in assembly, the C++ tables that replace them, and when the change of
    directory preserves every translation. */
module BootTables {
  import opened Words
  import opened Bitmaps
  import opened PageEntries
  import opened PageTables
  import opened VirtualMemory
  import opened PageRanges

  // _boot_page_directory, _boot_page_table0 and _boot_page_table768, one after the other, 1024 words each.
  const BOOT_BLOCK: nat := 3072

  // Pages that one table maps: 4 MB.
  const TABLE_PAGES: Word := 0x40_0000 / 0x1000

  /** The boot block after the boot code's loops, for a directory at physical address `base`. */
  ghost predicate Filled(t: seq<Word>, base: nat) {
    && |t| == BOOT_BLOCK
    && (forall d :: 0 <= d < 1024 ==>
          t[d] == if d == 0 then base + 0x1003 else if d == 768 then base + 0x2003 else 0)
    && (forall i :: 0 <= i < 1024 ==> t[1024 + i] == i * 0x1000 + 3)
    && (forall i :: 0 <= i < 1024 ==> t[2048 + i] == KERNEL_PHYSICAL + i * 0x1000 + 3)
  }

  lemma OrThree(a: Word)
    requires a % 0x1000 == 0
    ensures OrWord(a, 3) == a + 3
  {
    Split12(a / 0x1000, 0, 0, 3);
  }

  /** Boot.asm from _identity_map on: eax, ecx and edx are the registers of the loops. */
  method FillBootTables(tables: array<Word>, base: Word)
    requires tables.Length == BOOT_BLOCK && base % 0x1000 == 0 && base < 0x8000_0000
    requires forall i :: 0 <= i < BOOT_BLOCK ==> tables[i] == 0
    modifies tables
    ensures Filled(tables[..], base)
  {
    FillTable(tables, 1024, 0);
    FillTable(tables, 2048, KERNEL_PHYSICAL);
    OrThree(base + 0x1000);
    OrThree(base + 0x2000);
    tables[0] := OrWord(base + 0x1000, 3);
    tables[768] := OrWord(base + 0x2000, 3);
  }

  /** One of the two loops: 1024 entries for consecutive frames. */
  method FillTable(tables: array<Word>, table: nat, address: Word)
    requires table + 1024 <= tables.Length && address % 0x1000 == 0 && address < 0x8000_0000
    modifies tables
    ensures forall i :: 0 <= i < 1024 ==> tables[table + i] == address + i * 0x1000 + 3
    ensures forall j :: 0 <= j < tables.Length && !(table <= j < table + 1024) ==> tables[j] == old(tables[j])
  {
    var ecx: nat := 0;
    var edx: Word := address;
    while ecx < 1024
      invariant ecx <= 1024 && edx == address + ecx * 0x1000
      invariant forall i :: 0 <= i < ecx ==> tables[table + i] == address + i * 0x1000 + 3
      invariant forall j :: 0 <= j < tables.Length && !(table <= j < table + 1024) ==> tables[j] == old(tables[j])
    {
      OrThree(edx);
      var eax := OrWord(edx, 3);
      tables[table + ecx] := eax;
      edx := edx + 0x1000;
      ecx := ecx + 1;
    }
  }

  /** The walk through the boot tables: the first 4 MB onto themselves, and 4 MB of kernel space onto the frames from
      the kernel's load address on. */
  lemma BootWalk(t: seq<Word>, base: Word, page: Page)
    requires base % 0x1000 == 0 && base < 0x8000_0000 && Filled(t, base)
    ensures Walk(t, base, base, page) ==
            if page < 1024 then To(page, true, false)
            else if 0xC_0000 <= page < 0xC_0400 then To(page - 0xC_0000 + 0x200, true, false)
            else Fault
  {
    var d, i := page / 1024, page % 1024;
    assert Load(t, base, base + 4 * d) == Value(t[d]);
    if d == 0 {
      assert Load(t, base, base + 0x1000 + 4 * i) == Value(t[1024 + i]);
      WalkTwoEntries(t, base, page, base + 0x1000, i * 0x1000);
    } else if d == 768 {
      assert Load(t, base, base + 0x2000 + 4 * i) == Value(t[2048 + i]);
      WalkTwoEntries(t, base, page, base + 0x2000, KERNEL_PHYSICAL + i * 0x1000);
    } else {
      hide And;
      FlagBits(0);
    }
  }

  lemma WalkTwoEntries(t: seq<Word>, base: Word, page: Page, table: Word, address: Word)
    requires table % 0x1000 == 0 && address % 0x1000 == 0
    requires Load(t, base, base + 4 * (page / 1024)) == Value(Entry(table))
    requires Load(t, base, table + 4 * (page % 1024)) == Value(Entry(address))
    ensures Walk(t, base, base, page) == To(address / 0x1000, true, false)
  {
    EntryParts(table);
    EntryParts(address);
    hide Load, IsPresent, IsWritable, IsUser, GetAddress, Entry;
  }

  lemma EntryParts(a: Word)
    requires a % 0x1000 == 0
    ensures IsPresent(Entry(a)) && IsWritable(Entry(a)) && !IsUser(Entry(a)) && GetAddress(Entry(a)) == a
  {
    AlignedEntry(a);
    FlagBits(Entry(a));
    LowFlags(Entry(a));
    AddressBits(Entry(a));
  }

  /** What InitVirtualMemoryManager maps for a kernel of `pages` pages. */
  ghost function KernelMapping(pages: nat): map<nat, nat> {
    Run(0, 0, TABLE_PAGES) + Run(0xC_0000, 0x200, if pages < TABLE_PAGES then TABLE_PAGES else pages)
  }

  /** Changing from the boot directory to the new one preserves the translation of every page, frame and flags alike,
      exactly when the kernel has at most 1024 pages. */
  lemma SwitchPreservesMeaningIff(boot: seq<Word>, base: Word, t: seq<Word>, self: Word, pages: nat)
    requires base % 0x1000 == 0 && base < 0x8000_0000 && Filled(boot, base)
    requires Placed(self) && Well(t, self) && Mapping(t) == KernelMapping(pages) && pages <= 0x4_0000
    ensures (forall p: Page :: WalkBlock(t, self, p) == Walk(boot, base, base, p)) <==> pages <= 1024
  {
    forall p: Page
      ensures WalkBlock(t, self, p) == Walk(boot, base, base, p) <==> pages <= 1024 || !(0xC_0400 <= p < 0xC_0000 + pages)
    {
      WalkIsMapping(t, self, p);
      BootWalk(boot, base, p);
      KernelPages(pages, p);
      hide *;
    }
    if pages > 1024 {
      var p: Page := 0xC_0400;
      assert WalkBlock(t, self, p) != Walk(boot, base, base, p);
    }
  }

  lemma KernelPages(pages: nat, p: Page)
    requires pages <= 0x4_0000
    ensures p in KernelMapping(pages) <==> p < 1024 || 0xC_0000 <= p < 0xC_0000 + (if pages < TABLE_PAGES then TABLE_PAGES else pages)
    ensures p in KernelMapping(pages) ==>
      KernelMapping(pages)[p] == if p < 1024 then p else p - 0xC_0000 + 0x200
  {
  }

  /** The three ranges of InitVirtualMemoryManager, mapped one after the other. */
  lemma KernelRanges(table: nat, pages: nat)
    requires pages < 0x4_0000 && table <= 1024
    ensures AfterMapRange(map[], 0, 0, table) == (Run(0, 0, table), true)
    ensures AfterMapRange(Run(0, 0, table), KERNEL_VIRTUAL, KERNEL_PHYSICAL, pages) ==
            (Run(0, 0, table) + Run(0xC_0000, 0x200, pages), true)
    ensures pages < table ==>
      AfterMapRange(Run(0, 0, table) + Run(0xC_0000, 0x200, pages),
                    KERNEL_VIRTUAL + pages * 0x1000, KERNEL_PHYSICAL + pages * 0x1000, table - pages)
      == (Run(0, 0, table) + Run(0xC_0000, 0x200, table), true)
  {
    hide AfterMapRange, Run;
    EmptyRun(table);
    MapsAll(map[], 0, 0, table);
    RunIsApart(table, pages);
    MapsAll(Run(0, 0, table), 0xC_0000, 0x200, pages);
    if pages < table {
      var m, rest := Run(0, 0, table) + Run(0xC_0000, 0x200, pages), Run(0xC_0000 + pages, 0x200 + pages, table - pages);
      MapsAll(m, 0xC_0000 + pages, 0x200 + pages, table - pages);
      RunsJoin(0xC_0000, 0x200, pages, table);
      assert m + rest == Run(0, 0, table) + (Run(0xC_0000, 0x200, pages) + rest);
    }
  }

  lemma EmptyRun(table: nat)
    ensures map[] + Run(0, 0, table) == Run(0, 0, table)
  {
    hide Run;
  }

  lemma RunIsApart(table: nat, pages: nat)
    requires table <= 1024
    ensures forall p :: p in Range(0xC_0000, pages) ==> p !in Run(0, 0, table)
    ensures var m := Run(0, 0, table) + Run(0xC_0000, 0x200, pages);
      pages < table ==> forall p :: p in Range(0xC_0000 + pages, table - pages) ==> p !in m
  {
  }

  lemma RunsJoin(page: nat, frame: nat, k: nat, count: nat)
    requires k <= count
    ensures Run(page, frame, k) + Run(page + k, frame + k, count - k) == Run(page, frame, count)
  {
  }

  /** InitVirtualMemoryManager in Kernel.cpp. */
  method InitVirtualMemoryManager(tables: VirtualMemoryManager, kernelPhysicalEnd: Word) returns (ok: bool)
    requires tables.Laid() && !tables.loaded
    requires KERNEL_PHYSICAL <= kernelPhysicalEnd < KERNEL_PHYSICAL + 0x4000_0000
    modifies tables, tables.words
    ensures ok && tables.Valid() && tables.loaded && tables.Coherent()
    ensures tables.Mapped() == KernelMapping(kernelPhysicalEnd / 0x1000 - 0x200)
  {
    hide Well, Mapping, KernelMapping, Walk;
    tables.Init(KERNEL_VIRTUAL);
    ok := MapKernel(tables, kernelPhysicalEnd / 0x1000 - KERNEL_PHYSICAL / 0x1000);
    if !ok { return; }
    tables.ReloadPageDirectory();
  }

  /** The three MapRange calls of InitVirtualMemoryManager. */
  method MapKernel(tables: VirtualMemoryManager, kernelPageCount: Word) returns (ok: bool)
    requires tables.Valid() && tables.Coherent() && tables.Mapped() == map[] && kernelPageCount < 0x4_0000
    modifies tables.words, tables`tlb
    ensures ok && tables.Valid() && tables.Coherent()
    ensures tables.Mapped() == KernelMapping(kernelPageCount)
  {
    hide Well, Mapping, AfterMapRange, Run, Walk, Grows, SameBlock, Placed, TABLE_PAGES;
    assert TABLE_PAGES <= 1024 by { TableSize(); }
    KernelRanges(TABLE_PAGES, kernelPageCount);
    var bootloaderPageCount: Word := TABLE_PAGES;
    ok := tables.MapRange(0, 0, true, bootloaderPageCount);
    if !ok { return; }
    ok := tables.MapRange(KERNEL_VIRTUAL, KERNEL_PHYSICAL, true, kernelPageCount);
    if !ok { return; }
    var pageTablePageCount: Word := TABLE_PAGES;
    if kernelPageCount < pageTablePageCount {
      ok := tables.MapRange(KERNEL_VIRTUAL + kernelPageCount * 0x1000, KERNEL_PHYSICAL + kernelPageCount * 0x1000,
                            true, pageTablePageCount - kernelPageCount);
    }
  }

  lemma TableSize()
    ensures TABLE_PAGES == 1024
  {
  }

  /** A range of absent pages with tables is mapped completely. */
  lemma MapsAll(m: map<nat, nat>, page: nat, frame: nat, count: nat)
    requires page + count <= PAGES && frame + count <= PAGES && (count > 0 ==> page < PAGES && frame < PAGES)
    requires page * 0x1000 < 0x1_0000_0000 && frame * 0x1000 < 0x1_0000_0000
    requires page + count <= 1024 || 0xC_0000 <= page
    requires forall p :: p in Range(page, count) ==> p !in m
    ensures AfterMapRange(m, page * 0x1000, frame * 0x1000, count) == (m + Run(page, frame, count), true)
  {
    hide CanMap, Run, AfterMapRange;
    var k := MapRangeMapsLongestPrefix(m, page * 0x1000, frame * 0x1000, count);
    if k < count {
      assert page + k in Range(page, count);
      assert (page + k) * 0x1000 == page * 0x1000 + k * 0x1000 && (frame + k) * 0x1000 == frame * 0x1000 + k * 0x1000;
      PageIsMappable(m, page + k, frame + k);
    }
  }

  lemma PageIsMappable(m: map<nat, nat>, page: nat, frame: nat)
    requires page < PAGES && frame < PAGES && page !in m && (page < 1024 || 0xC_0000 <= page)
    ensures CanMap(m, page * 0x1000, frame * 0x1000)
  {
  }
}
