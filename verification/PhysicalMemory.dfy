/** The physical memory manager: the bitmap of frames, and its start state. */
module PhysicalMemory {
  import opened Words
  import opened Bitmaps

  /** Bits in either allocator's bitmap. */
  const SIZE: Word := 131072

  /** One entry of the boot loader's memory map; both numbers are 64 bits wide. */
  datatype Region = Region(base: nat, length: nat, available: bool)

  function PageNumber(start: Word, address: Word): Word {
    Wrap(address - start) / 0x1000
  }

  function PageAddress(start: Word, page: nat): Word {
    (start + page * 0x1000) % 0x1_0000_0000
  }

  /** Any address within a page is taken back to the page's number, for every start address, wrap-around included. */
  lemma PageNumberOfByte(start: Word, page: nat, offset: nat)
    requires page < 0x10_0000 && offset < 0x1000
    ensures PageAddress(start, page) == (start + page * 0x1000) % 0x1_0000_0000
    ensures PageNumber(start, (start + page * 0x1000 + offset) % 0x1_0000_0000) == page
  {
    var x := page * 0x1000 + offset;
    assert x / 0x1000 == page;
    assert Wrap((start + x) % 0x1_0000_0000 - start) == x;
  }

  /** The bitmap and the answer after AllocatePages. */
  ghost function AfterAllocate(used: set<nat>, start: Word, count: nat): (set<nat>, Word) {
    var first := Search(used, SIZE, count);
    if count == 0 || first < 0 then (used, 0)
    else (AfterSetBits(used, SIZE, first, count), PageAddress(start, first))
  }

  ghost function AfterFree(used: set<nat>, start: Word, address: Word, count: nat): set<nat> {
    if address == 0 then used else AfterClearBits(used, SIZE, PageNumber(start, address), count)
  }

  /** The truncations of a region to 32 bits, and its release when it is available. */
  ghost function AfterRegion(used: set<nat>, start: Word, r: Region): set<nat> {
    if r.available && r.length > 0
    then AfterClearBits(used, SIZE, PageNumber(start, r.base % 0x1_0000_0000), r.length % 0x1_0000_0000 / 0x1000)
    else used
  }

  ghost function AfterRegions(used: set<nat>, start: Word, regions: seq<Region>): set<nat> {
    if regions == [] then used
    else AfterRegion(AfterRegions(used, start, regions[..|regions| - 1]), start, regions[|regions| - 1])
  }

  /** The lowest base address; all ones when there is no region. */
  function LowestBase(regions: seq<Region>): nat {
    if regions == [] then 0xFFFF_FFFF_FFFF_FFFF
    else
      var low := LowestBase(regions[..|regions| - 1]);
      var base := regions[|regions| - 1].base;
      if base < low then base else low
  }

  lemma {:induction false} LowestBaseIsMinimum(regions: seq<Region>)
    requires forall r :: r in regions ==> r.base < 0x1_0000_0000_0000_0000
    ensures forall r :: r in regions ==> LowestBase(regions) <= r.base
    ensures regions != [] ==> exists r :: r in regions && r.base == LowestBase(regions)
    ensures regions == [] ==> LowestBase(regions) == 0xFFFF_FFFF_FFFF_FFFF
  {
    if regions != [] {
      var front, last := regions[..|regions| - 1], regions[|regions| - 1];
      LowestBaseIsMinimum(front);
      assert regions == front + [last];
      assert last in regions;
    }
  }

  class PhysicalMemoryManager {
    var pageSize: Word
    var startAddress: Word
    const bitmap: Bitmap

    ghost predicate Laid() {
      bitmap.Valid() && bitmap.size == SIZE
    }

    ghost predicate Valid()
      reads this
    {
      Laid() && pageSize == 0x1000
    }

    ghost function Used(): set<nat>
      requires Laid()
      reads bitmap.bits
    {
      bitmap.Contents()
    }

    constructor ()
      ensures Laid() && fresh(bitmap.bits)
    {
      bitmap := new Bitmap(SIZE);
    }

    method Init(regions: seq<Region>)
      requires Laid()
      modifies this, bitmap.bits
      ensures Valid() && startAddress == LowestBase(regions) % 0x1_0000_0000
      ensures Used() == AfterRegions(AfterSetAll(SIZE), startAddress, regions)
    {
      pageSize := 0x1000;
      InitMemory(regions);
      bitmap.SetAll();
      InitFreeMemory(regions);
    }

    method InitMemory(regions: seq<Region>)
      modifies `startAddress
      ensures startAddress == LowestBase(regions) % 0x1_0000_0000
    {
      var memoryStart: nat := 0xFFFF_FFFF_FFFF_FFFF;
      for i := 0 to |regions|
        invariant memoryStart == LowestBase(regions[..i])
      {
        assert regions[..i + 1][..i] == regions[..i];
        if regions[i].base < memoryStart { memoryStart := regions[i].base; }
      }
      assert regions[..|regions|] == regions;
      startAddress := memoryStart % 0x1_0000_0000;
    }

    method InitFreeMemory(regions: seq<Region>)
      requires Valid()
      modifies bitmap.bits
      ensures Used() == AfterRegions(old(Used()), startAddress, regions)
    {
      for i := 0 to |regions|
        invariant Used() == AfterRegions(old(Used()), startAddress, regions[..i])
      {
        assert regions[..i + 1][..i] == regions[..i];
        if regions[i].available && regions[i].length > 0 {
          FreeRegion(regions[i].base % 0x1_0000_0000, regions[i].length % 0x1_0000_0000);
        }
      }
      assert regions[..|regions|] == regions;
    }

    /** SetRegionState with PageState::Free. */
    method FreeRegion(address: Word, sizeBytes: Word)
      requires Valid()
      modifies bitmap.bits
      ensures Used() == AfterClearBits(old(Used()), SIZE, PageNumber(startAddress, address), sizeBytes / 0x1000)
    {
      bitmap.ClearBits(PageNumber(startAddress, address), sizeBytes / pageSize);
    }

    method AllocatePages(count: Word) returns (address: Word)
      requires Valid()
      modifies bitmap.bits
      ensures (Used(), address) == AfterAllocate(old(Used()), startAddress, count)
    {
      if count == 0 { return 0; }
      var first := bitmap.FindUnsetBits(count);
      if first < 0 { return 0; }
      bitmap.SetBits(first, count);
      return PageAddress(startAddress, first);
    }

    method FreePages(address: Word, count: Word)
      requires Valid()
      modifies bitmap.bits
      ensures Used() == AfterFree(old(Used()), startAddress, address, count)
      ensures address == 0 ==> Used() == old(Used())
    {
      if address == 0 { return; }
      bitmap.ClearBits(PageNumber(startAddress, address), count);
    }

    method ReservePages(address: Word, count: Word)
      requires Valid()
      modifies bitmap.bits
      ensures Used() == AfterSetBits(old(Used()), SIZE, PageNumber(startAddress, address), count)
    {
      bitmap.SetBits(PageNumber(startAddress, address), count);
    }
  }
}
