/** When the branches of the virtual memory allocator that report a failure are taken, and what they leave behind. */
module AllocatorFailures {
  import opened Words
  import opened Bitmaps
  import opened PageTables
  import opened VirtualMemory
  import opened PageRanges
  import opened PhysicalMemory
  import opened Ledger
  import opened Allocator
  import opened MemoryRuns

  // One past the last page of the address space.
  const LAST_PAGE: nat := 0x10_0000

  /** A range that wraps around to a mapped page 0 cannot be mapped completely. */
  lemma {:induction false} WrappingRangeFails(m: map<nat, nat>, va: Word, pa: Word, count: nat)
    requires 0 in m && va % 0x1000 == 0 && va > 0 && va / 0x1000 + count > LAST_PAGE
    ensures !AfterMapRange(m, va, pa, count).1
    decreases count
  {
    UnfoldMapRange(m, va, pa, count);
    if CanMap(m, va, pa) {
      var m', va', pa' := m[va / 0x1000 := pa / 0x1000], Plus(va, 0x1000), Plus(pa, 0x1000);
      if va' == 0 {
        UnfoldMapRange(m', va', pa', count - 1);
      } else {
        WrappingRangeFails(m', va', pa', count - 1);
      }
    }
  }

  /** From a found start on, every page of the window up to the end of the address space is absent. */
  lemma PagesAboveAreAbsent(s: Machine, boot: Boot, count: Word, page: nat)
    requires BootOk(boot) && Invariant(s, boot) && count > 0
    requires var first := Search(s.memory.virt, SIZE, count); first >= 0 && first <= page < first + count
    ensures FIRST_PAGE + page !in s.memory.mapping
  {
    hide Backed;
  }

  lemma HighPageIsMappable(mapping: map<nat, nat>, page: nat, frame: nat)
    requires FIRST_PAGE + page < LAST_PAGE && frame < LAST_PAGE && FIRST_PAGE + page !in mapping
    ensures CanMap(mapping, VIRTUAL_BASE + page * 0x1000, frame * 0x1000)
  {
    assert (VIRTUAL_BASE + page * 0x1000) / 0x1000 == FIRST_PAGE + page;
  }

  lemma RangeBelowEndIsMapped(s: Machine, boot: Boot, count: Word, frame: nat)
    requires BootOk(boot) && Invariant(s, boot) && count > 0 && frame < SIZE
    requires var first := Search(s.memory.virt, SIZE, count); 0 <= first < SIZE && FIRST_PAGE + first + count <= LAST_PAGE
    ensures AfterMapRange(s.memory.mapping, PageAddress(VIRTUAL_BASE, Search(s.memory.virt, SIZE, count)),
                          frame * 0x1000, count).1
  {
    hide *;
    var first := Search(s.memory.virt, SIZE, count);
    FramesBelowEnd(first, frame, count);
    forall p | FIRST_PAGE + first <= p < FIRST_PAGE + first + count ensures p !in s.memory.mapping {
      PagesAboveAreAbsent(s, boot, count, p - FIRST_PAGE);
    }
    PageOfAddress(first);
    AbsentRangeIsMapped(s.memory.mapping, first, frame, count);
  }

  lemma FramesBelowEnd(first: nat, frame: nat, count: nat)
    requires first < SIZE && frame < SIZE && FIRST_PAGE + first + count <= LAST_PAGE
    ensures frame + count <= LAST_PAGE && frame < LAST_PAGE && FIRST_PAGE + first < LAST_PAGE
  {
  }

  lemma AbsentRangeIsMapped(m: map<nat, nat>, first: nat, frame: nat, count: nat)
    requires FIRST_PAGE + first + count <= LAST_PAGE && frame + count <= LAST_PAGE
    requires FIRST_PAGE + first < LAST_PAGE && frame < LAST_PAGE
    requires forall p :: FIRST_PAGE + first <= p < FIRST_PAGE + first + count ==> p !in m
    ensures AfterMapRange(m, VIRTUAL_BASE + first * 0x1000, frame * 0x1000, count).1
  {
    hide AfterMapRange, CanMap;
    var k := MapRangeMapsLongestPrefix(m, VIRTUAL_BASE + first * 0x1000, frame * 0x1000, count);
    if k < count {
      var page := first + k;
      assert FIRST_PAGE + page !in m;
      var va, pa := VIRTUAL_BASE + first * 0x1000, frame * 0x1000;
      assert VIRTUAL_BASE + (first + k) * 0x1000 == va + k * 0x1000 && (frame + k) * 0x1000 == pa + k * 0x1000;
      HighPageIsMappable(m, page, frame + k);
    }
  }

  /** When both searches come back with a start and page 0 is mapped, as every boot maps it, mapping fails exactly when
      the range of pages runs past 4 GB. Only a request that overruns the virtual bitmap does. */
  lemma MappingFailsIff(s: Machine, boot: Boot, count: Word)
    requires BootOk(boot) && Invariant(s, boot) && 0 in boot.mapping && count > 0
    requires Search(s.memory.virt, SIZE, count) >= 0 && Search(s.memory.phys, SIZE, count) >= 0
    ensures AfterAllocatePages(s.memory, VIRTUAL_BASE, 0, count).1 == 0
            <==> FIRST_PAGE + Search(s.memory.virt, SIZE, count) + count > LAST_PAGE
    ensures FIRST_PAGE + Search(s.memory.virt, SIZE, count) + count > LAST_PAGE ==> !Fits(s.memory.virt, SIZE, count)
  {
    var m := s.memory;
    FoundIsFree(s, boot, count);
    SearchFindsLowestOrOverruns(m.virt, SIZE, count);
    assert 0 in m.mapping by { UnusedIsUnmapped(s, boot); }
    var first, frame := Search(m.virt, SIZE, count), Search(m.phys, SIZE, count);
    OverrunIsComputed(m, count, first, frame);
    PageOfAddress(first);
    hide Invariant, BootOk, AfterMapRange, PageAddress, Admissible, PageNumber, AfterAllocatePages, Search;
    if FIRST_PAGE + first + count > LAST_PAGE {
      WrappingRangeFails(m.mapping, PageAddress(VIRTUAL_BASE, first), frame * 0x1000, count);
    } else {
      RangeBelowEndIsMapped(s, boot, count, frame);
    }
  }

  lemma {:induction false} UnmapKeepsAbsent(m: map<nat, nat>, va: Word, count: nat, p: nat)
    requires p !in m
    ensures p !in AfterUnmapRange(m, va, count).0
    decreases count
  {
    UnfoldUnmapRange(m, va, count);
    if count > 0 && CanUnmap(m, va) { UnmapKeepsAbsent(m - {va / 0x1000}, Plus(va, 0x1000), count - 1, p); }
  }

  lemma UnmapDropsFirst(m: map<nat, nat>, va: Word, count: nat)
    requires count > 0 && CanUnmap(m, va)
    ensures va / 0x1000 !in AfterUnmapRange(m, va, count).0
  {
    UnfoldUnmapRange(m, va, count);
    UnmapKeepsAbsent(m - {va / 0x1000}, Plus(va, 0x1000), count - 1, va / 0x1000);
  }

  /** Freeing address 0 answers true and changes nothing, whatever is mapped there. */
  lemma FreeOfNullIsIgnored(m: Memory, vstart: Word, pstart: Word, count: Word)
    ensures AfterFreePages(m, vstart, pstart, 0, count) == (m, true)
  {
  }

  /** Every other mapped page can be freed, boot pages included: a boot page loses its translation and its frame, which
      is reserved, counts as free. So the layers then disagree. */
  lemma FreeOfBootPage(s: Machine, boot: Boot, p: nat)
    requires BootOk(boot) && Invariant(s, boot)
    requires p in boot.mapping && p > 0 && 0 < boot.mapping[p] < SIZE
    ensures AfterFreePages(s.memory, VIRTUAL_BASE, 0, p * 0x1000, 1) ==
            (Memory(s.memory.virt, s.memory.phys - {boot.mapping[p]}, s.memory.mapping - {p}), true)
    ensures !Invariant(Machine(AfterFreePages(s.memory, VIRTUAL_BASE, 0, p * 0x1000, 1).0, s.live), boot)
  {
    var m, f := s.memory, boot.mapping[p];
    assert p in m.mapping && m.mapping[p] == f && p < FIRST_PAGE && f in m.phys && f < SIZE;
    hide Invariant, BootOk;
    UnfoldUnmapRange(m.mapping, p * 0x1000, 1);
    UnfoldUnmapRange(m.mapping - {p}, Plus(p * 0x1000, 0x1000), 0);
    assert AfterUnmapRange(m.mapping, p * 0x1000, 1) == (m.mapping - {p}, true);
    hide AfterUnmapRange;
    assert PageNumber(VIRTUAL_BASE, p * 0x1000) + 1 > SIZE;
    assert Range(f, 1) == {f} && PageNumber(0, f * 0x1000) == f;
    assert !Invariant(Machine(Memory(m.virt, m.phys - {f}, m.mapping - {p}), s.live), boot) by { MissingPage(s, boot, p, f); }
  }

  lemma MissingPage(s: Machine, boot: Boot, p: nat, f: nat)
    requires p in boot.mapping
    ensures !Invariant(Machine(Memory(s.memory.virt, s.memory.phys - {f}, s.memory.mapping - {p}), s.live), boot)
  {
    hide Accounts, Bounded, Backed;
  }

  /** A failing FreePages leaves the layers as they were exactly when its first page could not be unmapped. */
  lemma FailedFreeIsCleanIff(m: Memory, vstart: Word, pstart: Word, va: Word, count: Word)
    requires !AfterFreePages(m, vstart, pstart, va, count).1
    ensures AfterFreePages(m, vstart, pstart, va, count).0 == m <==> !CanUnmap(m.mapping, va)
  {
    UnfoldUnmapRange(m.mapping, va, count);
    hide AfterUnmapRange, CanUnmap;
    if CanUnmap(m.mapping, va) {
      UnmapDropsFirst(m.mapping, va, count);
      assert va / 0x1000 in m.mapping by { FirstIsMapped(m.mapping, va); }
    }
  }

  lemma FirstIsMapped(m: map<nat, nat>, va: Word)
    requires CanUnmap(m, va)
    ensures va / 0x1000 in m
  {
  }

  /** On a range that does not wrap it has unmapped the longest prefix of mapped pages, and kept both bitmaps. */
  lemma FailedFreeLeaves(m: Memory, vstart: Word, pstart: Word, va: Word, count: Word) returns (k: nat)
    requires va + count * 0x1000 <= 0x1_0000_0000 && !AfterFreePages(m, vstart, pstart, va, count).1
    ensures k < count && UnmappablePrefix(m.mapping, va, count, k)
    ensures AfterFreePages(m, vstart, pstart, va, count).0 == m.(mapping := m.mapping - Range(va / 0x1000, k))
  {
    k := UnmapRangeUnmapsLongestPrefix(m.mapping, va, count);
  }

  /** Freeing n pages from the start of a live allocation: its owner gives it up when the answer is true. */
  ghost function FreedWithCount(s: Machine, b: Block, n: Word): Machine {
    var (m, ok) := AfterFreePages(s.memory, VIRTUAL_BASE, 0, PageAddress(VIRTUAL_BASE, b.page), n);
    Machine(m, if ok then s.live - {b} else s.live)
  }

  lemma {:induction false} UnmappedPagesWereMapped(m: map<nat, nat>, va: Word, count: nat, i: nat)
    requires AfterUnmapRange(m, va, count).1 && i < count && va % 0x1000 == 0 && va + i * 0x1000 < 0x1_0000_0000
    ensures va / 0x1000 + i in m
    decreases i
  {
    UnfoldUnmapRange(m, va, count);
    if i > 0 { UnmappedPagesWereMapped(m - {va / 0x1000}, Plus(va, 0x1000), count - 1, i - 1); }
  }

  /** The layers stay in agreement exactly when the count is the one the pages were allocated with: too few pages leave
      some in use that nobody owns, too many take pages of others, or stop halfway with the block's own pages gone. */
  lemma FreeCountIff(s: Machine, boot: Boot, b: Block, n: Word)
    requires BootOk(boot) && Invariant(s, boot) && b in s.live
    ensures Invariant(FreedWithCount(s, b, n), boot) <==> n == b.count
  {
    FreeReturns(s, boot, b);
    assert b.count < SIZE + 1;
    if n == b.count {
      ReturnKeepsInvariant(s, boot, b);
      hide *;
      assert FreedWithCount(s, b, n) == Machine(Returned(s.memory, b), s.live - {b}) by { FreedIsReturned(s, b); }
    } else if AfterFreePages(s.memory, VIRTUAL_BASE, 0, PageAddress(VIRTUAL_BASE, b.page), n).1 {
      WrongCountBreaksBitmap(s, boot, b, n);
    } else {
      StoppedFreeBreaksBlock(s, boot, b, n);
    }
  }

  lemma FreedIsReturned(s: Machine, b: Block)
    requires b.count < 0x1_0000_0000
    requires AfterFreePages(s.memory, VIRTUAL_BASE, 0, PageAddress(VIRTUAL_BASE, b.page), b.count % 0x1_0000_0000) ==
             (Returned(s.memory, b), true)
    ensures FreedWithCount(s, b, b.count) == Machine(Returned(s.memory, b), s.live - {b})
  {
    hide AfterFreePages, PageAddress, Returned;
  }

  lemma LiveBlockIsBacked(s: Machine, boot: Boot, b: Block)
    requires Invariant(s, boot) && b in s.live
    ensures b.page < SIZE && 0 < b.count && b.page + b.count <= SIZE && b.frame + b.count <= SIZE
    ensures Backed(s.memory.mapping, b)
  {
    hide Accounts, Window, Backed;
  }

  lemma FreedParts(s: Machine, b: Block, n: Word)
    requires b.page < SIZE
    ensures var m, va, t := s.memory, PageAddress(VIRTUAL_BASE, b.page), FreedWithCount(s, b, n);
      var (mapping', ok) := AfterUnmapRange(m.mapping, va, n);
      && AfterFreePages(m, VIRTUAL_BASE, 0, va, n).1 == ok && t.memory.mapping == mapping'
      && t.live == (if ok then s.live - {b} else s.live)
      && t.memory.virt == (if ok then AfterClearBits(m.virt, SIZE, b.page, n) else m.virt)
  {
    PageOfAddress(b.page);
    hide AfterUnmapRange, PageAddress, PageNumber, Admissible, AfterFree, AfterClearBits, PhysicalAddressOf;
  }

  lemma StoppedFreeBreaksBlock(s: Machine, boot: Boot, b: Block, n: Word)
    requires BootOk(boot) && Invariant(s, boot) && b in s.live
    requires !AfterFreePages(s.memory, VIRTUAL_BASE, 0, PageAddress(VIRTUAL_BASE, b.page), n).1
    ensures !Invariant(FreedWithCount(s, b, n), boot)
  {
    LiveBlockIsBacked(s, boot, b);
    FreedParts(s, b, n);
    hide *;
    var t := FreedWithCount(s, b, n);
    FirstPageIsGone(s.memory.mapping, b, n);
    assert !Invariant(t, boot) by { UnbackedBlock(t, boot, b); }
  }

  lemma FirstPageIsGone(m: map<nat, nat>, b: Block, n: Word)
    requires 0 < b.count && b.page + b.count <= SIZE && Backed(m, b)
    requires !AfterUnmapRange(m, PageAddress(VIRTUAL_BASE, b.page), n).1
    ensures FIRST_PAGE + b.page !in AfterUnmapRange(m, PageAddress(VIRTUAL_BASE, b.page), n).0
  {
    PageOfAddress(b.page);
    BackedPageIsUnmappable(m, b, 0);
    var va := PageAddress(VIRTUAL_BASE, b.page);
    hide AfterUnmapRange, PageAddress, Backed, CanUnmap, Admissible;
    UnfoldUnmapRange(m, va, n);
    UnmapDropsFirst(m, va, n);
  }

  lemma UnbackedBlock(t: Machine, boot: Boot, b: Block)
    requires b in t.live && b.count > 0 && FIRST_PAGE + b.page !in t.memory.mapping
    ensures !Invariant(t, boot)
  {
    hide Accounts, Window, Bounded;
    assert b.page in Extent(b, Virtual);
    assert !Backed(t.memory.mapping, b);
  }

  lemma WrongCountBreaksBitmap(s: Machine, boot: Boot, b: Block, n: Word)
    requires BootOk(boot) && Invariant(s, boot) && b in s.live && n != b.count
    requires AfterFreePages(s.memory, VIRTUAL_BASE, 0, PageAddress(VIRTUAL_BASE, b.page), n).1
    ensures !Invariant(FreedWithCount(s, b, n), boot)
  {
    LiveBlockIsBacked(s, boot, b);
    FreedParts(s, b, n);
    PagesAreUsed(s, boot, b);
    RestIsCovered(s, boot, b);
    if n > b.count && b.page + n <= SIZE { NextPageIsUsed(s, boot, b, n); }
    hide *;
    var t := FreedWithCount(s, b, n);
    WrongCountClearsOthers(s.memory.virt, b, n);
    assert !Invariant(t, boot) by { UnaccountedPages(t, boot); }
  }

  lemma RestIsCovered(s: Machine, boot: Boot, b: Block)
    requires Invariant(s, boot) && b in s.live
    ensures Covered(s.live - {b}, Virtual) == s.memory.virt - Extent(b, Virtual)
  {
    hide Translates, Covered, Extent;
    Revoke(s.memory.virt, {}, s.live, Virtual, b);
  }

  lemma NextPageIsUsed(s: Machine, boot: Boot, b: Block, n: Word)
    requires BootOk(boot) && Invariant(s, boot) && b.count < n && b.page + n <= SIZE
    requires AfterUnmapRange(s.memory.mapping, PageAddress(VIRTUAL_BASE, b.page), n).1
    ensures b.page + b.count in s.memory.virt
  {
    hide *;
    NextAddress(b);
    UnmappedPagesWereMapped(s.memory.mapping, PageAddress(VIRTUAL_BASE, b.page), n, b.count);
    MappedPageIsUsed(s, boot, b.page + b.count);
  }

  lemma NextAddress(b: Block)
    requires b.page + b.count < SIZE
    ensures var va := PageAddress(VIRTUAL_BASE, b.page);
      && va % 0x1000 == 0 && va / 0x1000 + b.count == FIRST_PAGE + (b.page + b.count)
      && va + b.count * 0x1000 < 0x1_0000_0000
  {
    PageOfAddress(b.page);
    hide PageAddress;
  }

  lemma UnaccountedPages(t: Machine, boot: Boot)
    requires t.memory.virt != Covered(t.live, Virtual)
    ensures !Invariant(t, boot)
  {
    hide Translates, Covered;
  }

  lemma WrongCountClearsOthers(virt: set<nat>, b: Block, n: nat)
    requires n != b.count && 0 < b.count && Extent(b, Virtual) <= virt
    requires n > b.count && b.page + n <= SIZE ==> b.page + b.count in virt
    ensures AfterClearBits(virt, SIZE, b.page, n) != virt - Extent(b, Virtual)
  {
    var q := if b.page + n > SIZE then b.page else if n < b.count then b.page + n else b.page + b.count;
    assert q in virt - Extent(b, Virtual) <==> q !in AfterClearBits(virt, SIZE, b.page, n);
  }

  lemma MappedPageIsUsed(s: Machine, boot: Boot, page: nat)
    requires BootOk(boot) && Invariant(s, boot) && FIRST_PAGE + page in s.memory.mapping
    ensures page in s.memory.virt
  {
    hide Accounts, Backed, Bounded;
  }

  lemma UnmapStopsAfter(m: map<nat, nat>, va: Word, a: nat, count: nat)
    requires AfterUnmapRange(m, va, a).1 && a < count
    requires !CanUnmap(AfterUnmapRange(m, va, a).0, (va + a * 0x1000) % 0x1_0000_0000)
    ensures AfterUnmapRange(m, va, count) == (AfterUnmapRange(m, va, a).0, false)
  {
    UnmapRangeSplits(m, va, a, count - a);
    UnfoldUnmapRange(AfterUnmapRange(m, va, a).0, (va + a * 0x1000) % 0x1_0000_0000, count - a);
    hide *;
  }

  /** Freeing a live allocation with too large a count, where the page behind it is not mapped, answers false with all
      of its translations gone and both bitmaps as they were. */
  lemma OverlongFreeStops(s: Machine, boot: Boot, b: Block, n: Word)
    requires BootOk(boot) && Invariant(s, boot) && b in s.live && b.count < n
    requires FIRST_PAGE + (b.page + b.count) !in s.memory.mapping
    ensures AfterFreePages(s.memory, VIRTUAL_BASE, 0, PageAddress(VIRTUAL_BASE, b.page), n) ==
            (s.memory.(mapping := s.memory.mapping - Range(FIRST_PAGE + b.page, b.count)), false)
  {
    hide *;
    LiveBlockIsBacked(s, boot, b);
    var m, va := s.memory.mapping, PageAddress(VIRTUAL_BASE, b.page);
    UnmapWindow(m, b);
    AbsentNextPage(m, b);
    UnmapStopsAfter(m, va, b.count, n);
    StoppedFree(s.memory, b, n);
  }

  lemma AbsentNextPage(m: map<nat, nat>, b: Block)
    requires 0 < b.count && b.page + b.count <= SIZE && FIRST_PAGE + (b.page + b.count) !in m
    ensures !CanUnmap(m - Range(FIRST_PAGE + b.page, b.count),
                      (PageAddress(VIRTUAL_BASE, b.page) + b.count * 0x1000) % 0x1_0000_0000)
  {
    PageOfAddress(b.page);
    hide PageAddress, Admissible, PageNumber;
    assert (VIRTUAL_BASE + (b.page + b.count) * 0x1000) / 0x1000 == FIRST_PAGE + (b.page + b.count);
  }

  lemma StoppedFree(m: Memory, b: Block, n: Word)
    requires b.page < SIZE && !AfterUnmapRange(m.mapping, PageAddress(VIRTUAL_BASE, b.page), n).1
    ensures AfterFreePages(m, VIRTUAL_BASE, 0, PageAddress(VIRTUAL_BASE, b.page), n) ==
            (m.(mapping := AfterUnmapRange(m.mapping, PageAddress(VIRTUAL_BASE, b.page), n).0), false)
  {
    PageOfAddress(b.page);
    hide AfterUnmapRange, PageAddress;
  }

  /** FreePages with the test of the translation that its message announces: no translation, no free. */
  ghost function AfterCheckedFree(m: Memory, vstart: Word, pstart: Word, va: Word, count: Word): (Memory, bool) {
    if va != 0 && PhysicalAddressOf(m.mapping, va) == 0 then (m, false)
    else AfterFreePages(m, vstart, pstart, va, count)
  }

  /** Testing the address a second time instead of its translation makes a difference exactly when nothing is to be
      freed, as long as no page but page 0 is mapped to frame 0 at boot. */
  lemma RetestIsHarmlessIff(s: Machine, boot: Boot, vstart: Word, pstart: Word, va: Word, count: Word)
    requires BootOk(boot) && Invariant(s, boot)
    requires boot.reserved <= Range(0, SIZE + 1) && forall p :: p in boot.mapping && boot.mapping[p] == 0 ==> p == 0
    ensures AfterFreePages(s.memory, vstart, pstart, va, count) == AfterCheckedFree(s.memory, vstart, pstart, va, count)
            <==> va == 0 || PhysicalAddressOf(s.memory.mapping, va) != 0 || count > 0
  {
    var m := s.memory;
    if va != 0 && PhysicalAddressOf(m.mapping, va) == 0 {
      assert !CanUnmap(m.mapping, va) by {
        if CanUnmap(m.mapping, va) { TranslationIsNotZero(s, boot, va); }
      }
      UnfoldUnmapRange(m.mapping, va, count);
      hide AfterUnmapRange, PhysicalAddressOf, Invariant, BootOk;
    }
  }

  lemma TranslationIsNotZero(s: Machine, boot: Boot, va: Word)
    requires BootOk(boot) && Invariant(s, boot) && va != 0 && CanUnmap(s.memory.mapping, va)
    requires boot.reserved <= Range(0, SIZE + 1) && forall p :: p in boot.mapping && boot.mapping[p] == 0 ==> p == 0
    ensures PhysicalAddressOf(s.memory.mapping, va) != 0
  {
    var p := va / 0x1000;
    if p in boot.mapping {
      assert s.memory.mapping[p] == boot.mapping[p] && boot.mapping[p] in boot.reserved;
    } else {
      var page := p - FIRST_PAGE;
      MappedPageIsUsed(s, boot, page);
      var b := Owner(s, boot, page);
      FrameIsOwned(s, boot, b, s.memory.mapping[p]);
      assert s.memory.mapping[p] in Range(0, SIZE + 1);
    }
    assert p > 0 && 0 < s.memory.mapping[p] <= SIZE;
  }
}
