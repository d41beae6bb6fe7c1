/** The virtual memory allocator: it joins its own bitmap, the physical allocator and the page tables. */
module Allocator {
  import opened Words
  import opened Bitmaps
  import opened PageTables
  import opened VirtualMemory
  import opened PhysicalMemory

  /** The three layers: used virtual pages, used frames, and the translation. */
  datatype Memory = Memory(virt: set<nat>, phys: set<nat>, mapping: map<nat, nat>)

  /** The layers and the answer after AllocatePages, for allocators whose first pages lie at `vstart` and `pstart`. */
  ghost function AfterAllocatePages(m: Memory, vstart: Word, pstart: Word, count: Word): (Memory, Word) {
    var first := Search(m.virt, SIZE, count);
    if count == 0 || first < 0 then (m, 0)
    else
      var (phys', pa) := AfterAllocate(m.phys, pstart, count);
      if pa == 0 then (m.(phys := phys'), 0)
      else
        var va := PageAddress(vstart, first);
        var (mapping', ok) := AfterMapRange(m.mapping, va, pa, count);
        (Memory(AfterSetBits(m.virt, SIZE, first, count), phys', mapping'), if ok then va else 0)
  }

  /** The layers and the answer after FreePages. */
  ghost function AfterFreePages(m: Memory, vstart: Word, pstart: Word, va: Word, count: Word): (Memory, bool) {
    if va == 0 then (m, true)
    else
      var pa := PhysicalAddressOf(m.mapping, va);
      var (mapping', ok) := AfterUnmapRange(m.mapping, va, count);
      if !ok then (m.(mapping := mapping'), false)
      else (Memory(AfterClearBits(m.virt, SIZE, PageNumber(vstart, va), count),
                   AfterFree(m.phys, pstart, pa, count), mapping'), true)
  }

  class VirtualMemoryAllocator {
    var pageSize: Word
    var startAddress: Word
    const bitmap: Bitmap
    // g_KernelPMM and g_KernelVMM
    const physical: PhysicalMemoryManager
    const tables: VirtualMemoryManager

    ghost predicate Laid() {
      bitmap.Valid() && bitmap.size == SIZE && physical.Laid() && tables.Laid() && bitmap.bits != physical.bitmap.bits
    }

    ghost predicate Valid()
      reads this, physical, tables, tables.words
    {
      Laid() && pageSize == 0x1000 && physical.Valid() && tables.Valid() && tables.Coherent()
    }

    ghost function Layers(): Memory
      requires Laid()
      reads bitmap.bits, physical.bitmap.bits, tables.words
    {
      Memory(bitmap.Contents(), physical.Used(), tables.Mapped())
    }

    constructor (physical: PhysicalMemoryManager, tables: VirtualMemoryManager)
      requires physical.Laid() && tables.Laid()
      ensures Laid() && this.physical == physical && this.tables == tables && fresh(bitmap.bits)
    {
      bitmap := new Bitmap(SIZE);
      this.physical, this.tables := physical, tables;
    }

    method Init(startAddress: Word)
      requires Laid() && physical.Valid() && tables.Valid() && tables.Coherent()
      modifies this, bitmap.bits
      ensures Valid() && this.startAddress == startAddress
      ensures Layers() == old(Layers()).(virt := {})
    {
      pageSize, this.startAddress := 0x1000, startAddress;
      bitmap.ResetAll();
    }

    method AllocatePages(count: Word) returns (va: Word)
      requires Valid()
      modifies bitmap.bits, physical.bitmap.bits, tables.words, tables`tlb
      ensures Valid() && Grows(old(tables.words[..]), tables.words[..])
      ensures (Layers(), va) == AfterAllocatePages(old(Layers()), startAddress, physical.startAddress, count)
    {
      if count == 0 { return 0; }
      var first := bitmap.FindUnsetBits(count);
      if first < 0 { return 0; }
      var pa := physical.AllocatePages(count);
      if pa == 0 { return 0; }
      bitmap.SetBits(first, count);
      va := PageAddress(startAddress, first);
      var mapped := tables.MapRange(va, pa, true, count);
      if !mapped { return 0; }
    }

    method FreePages(va: Word, count: Word) returns (ok: bool)
      requires Valid()
      modifies bitmap.bits, physical.bitmap.bits, tables.words, tables`tlb
      ensures Valid() && DirectoryKept(old(tables.words[..]), tables.words[..])
      ensures (Layers(), ok) == AfterFreePages(old(Layers()), startAddress, physical.startAddress, va, count)
      ensures va == 0 ==> ok && Layers() == old(Layers())
    {
      if va == 0 { return true; }
      var pa := tables.GetPhysicalAddress(va);
      hide Well, Mapping, Wrap, DirectoryKept, Walk, PageNumber;
      var unmapped := tables.UnmapRange(va, count);
      if !unmapped { return false; }
      physical.FreePages(pa, count);
      bitmap.ClearBits(PageNumber(startAddress, va), count);
      return true;
    }

    method ReservePages(va: Word, count: Word)
      requires Valid()
      modifies bitmap.bits
      ensures Valid()
      ensures Layers() == old(Layers()).(virt := AfterSetBits(old(Layers()).virt, SIZE, PageNumber(startAddress, va), count))
    {
      bitmap.SetBits(PageNumber(startAddress, va), count);
    }
  }
}
