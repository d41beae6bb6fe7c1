/** The virtual memory manager: it edits the two-level tables in place while the processor may walk them. */
module VirtualMemory {
  import opened Words
  import opened PageEntries
  import opened PageTables

  /** When Map succeeds, for the map that the tables stand for. */
  ghost predicate CanMap(m: map<nat, nat>, va: Word, pa: Word) {
    va % 0x1000 == 0 && pa % 0x1000 == 0 && Admissible(va / 0x40_0000) && va / 0x1000 !in m
  }

  /** When Unmap succeeds. */
  ghost predicate CanUnmap(m: map<nat, nat>, va: Word) {
    va % 0x1000 == 0 && va / 0x1000 in m
  }

  /** The map and the answer after MapRange, one page after the other; addresses wrap around as in the source. */
  ghost function AfterMapRange(m: map<nat, nat>, va: Word, pa: Word, count: nat): (map<nat, nat>, bool)
    decreases count
  {
    if count == 0 then (m, true)
    else if !CanMap(m, va, pa) then (m, false)
    else AfterMapRange(m[va / 0x1000 := pa / 0x1000], Plus(va, 0x1000), Plus(pa, 0x1000), count - 1)
  }

  ghost function AfterUnmapRange(m: map<nat, nat>, va: Word, count: nat): (map<nat, nat>, bool)
    decreases count
  {
    if count == 0 then (m, true)
    else if !CanUnmap(m, va) then (m, false)
    else AfterUnmapRange(m - {va / 0x1000}, Plus(va, 0x1000), count - 1)
  }

  /** Every cached translation, except possibly that of page `but`, is the one the tables give. */
  ghost predicate Cached(t: seq<Word>, self: nat, tlb: map<Page, Translation>, but: int)
    requires self >= KERNEL_VIRTUAL
  {
    forall p :: p in tlb && p != but ==> tlb[p] != Fault && WalkBlock(t, self, p) == tlb[p]
  }

  /** Cached translations survive while the present words of the tables do. */
  lemma CacheSurvives(t: seq<Word>, u: seq<Word>, self: nat, tlb: map<Page, Translation>, but: int)
    requires self >= KERNEL_VIRTUAL && Grows(t, u)
    requires Cached(t, self, tlb, but)
    ensures Cached(u, self, tlb, but)
  {
    forall p | p in tlb && p != but ensures WalkBlock(u, self, p) == tlb[p] {
      WalkGrows(t, u, self, p);
    }
  }

  /** Cached translations of the other pages survive the removal of one page. */
  lemma CacheSurvivesDrop(t: seq<Word>, u: seq<Word>, self: nat, tlb: map<Page, Translation>, page: Page)
    requires Placed(self) && Well(t, self) && Well(u, self) && Mapping(u) == Mapping(t) - {page}
    requires Cached(t, self, tlb, -1)
    ensures Cached(u, self, tlb, page)
  {
    forall p | p in tlb && p != page ensures WalkBlock(u, self, p) == tlb[p] {
      WalkIsMapping(t, self, p);
      WalkIsMapping(u, self, p);
    }
  }

  lemma UnfoldMapRange(m: map<nat, nat>, va: Word, pa: Word, count: nat)
    ensures AfterMapRange(m, va, pa, count) ==
            if count == 0 || !CanMap(m, va, pa) then (m, count == 0)
            else AfterMapRange(m[va / 0x1000 := pa / 0x1000], Plus(va, 0x1000), Plus(pa, 0x1000), count - 1)
  {
    hide CanMap;
  }

  lemma UnfoldUnmapRange(m: map<nat, nat>, va: Word, count: nat)
    ensures AfterUnmapRange(m, va, count) ==
            if count == 0 || !CanUnmap(m, va) then (m, count == 0)
            else AfterUnmapRange(m - {va / 0x1000}, Plus(va, 0x1000), count - 1)
  {
    hide CanUnmap;
  }

  /** MapRange from `va` on maps m to what the rest of the range, from `v` on, maps n to. */
  ghost predicate MapLeads(m: map<nat, nat>, va: Word, pa: Word, count: nat, n: map<nat, nat>, v: Word, p: Word, left: nat) {
    AfterMapRange(m, va, pa, count) == AfterMapRange(n, v, p, left)
  }

  lemma MapStarts(m: map<nat, nat>, va: Word, pa: Word, count: nat)
    ensures MapLeads(m, va, pa, count, m, va, pa, count)
  {
  }

  /** One page further, or at the end: of the range, or before a page that cannot be mapped. */
  lemma MapContinues(m: map<nat, nat>, va: Word, pa: Word, count: nat, n: map<nat, nat>, v: Word, p: Word, left: nat)
    requires MapLeads(m, va, pa, count, n, v, p, left)
    ensures left == 0 || !CanMap(n, v, p) ==> AfterMapRange(m, va, pa, count) == (n, left == 0)
    ensures left > 0 && CanMap(n, v, p) ==>
      MapLeads(m, va, pa, count, n[v / 0x1000 := p / 0x1000], Plus(v, 0x1000), Plus(p, 0x1000), left - 1)
  {
    UnfoldMapRange(n, v, p, left);
    hide CanMap, Plus, AfterMapRange;
  }

  ghost predicate UnmapLeads(m: map<nat, nat>, va: Word, count: nat, n: map<nat, nat>, v: Word, left: nat) {
    AfterUnmapRange(m, va, count) == AfterUnmapRange(n, v, left)
  }

  lemma UnmapStarts(m: map<nat, nat>, va: Word, count: nat)
    ensures UnmapLeads(m, va, count, m, va, count)
  {
  }

  lemma UnmapContinues(m: map<nat, nat>, va: Word, count: nat, n: map<nat, nat>, v: Word, left: nat)
    requires UnmapLeads(m, va, count, n, v, left)
    ensures left == 0 || !CanUnmap(n, v) ==> AfterUnmapRange(m, va, count) == (n, left == 0)
    ensures left > 0 && CanUnmap(n, v) ==> UnmapLeads(m, va, count, n - {v / 0x1000}, Plus(v, 0x1000), left - 1)
  {
    UnfoldUnmapRange(n, v, left);
    hide CanUnmap, Plus, AfterUnmapRange;
  }

  /** What GetPhysicalAddress answers: the frame's address, or 0 for an absent page. */
  ghost function PhysicalAddressOf(m: map<nat, nat>, va: Word): Word {
    if va % 0x1000 == 0 && va / 0x1000 in m then Wrap(m[va / 0x1000] * 0x1000) else 0
  }

  class VirtualMemoryManager {
    // The virtual address of m_PageDirectory.
    const self: Word
    // m_PageDirectory, m_PageTable0 and m_PageTables768, one word for each entry.
    const words: array<Word>
    var virtualStartAddress: Word

    // The processor's side: whether CR3 holds this directory, and the translations it has cached.
    var loaded: bool
    var tlb: map<Page, Translation>

    constructor (self: Word)
      requires Placed(self)
      ensures Laid() && this.self == self && !loaded && fresh(words)
    {
      this.self := self;
      words := new Word[BLOCK];
      virtualStartAddress, loaded, tlb := 0, false, map[];
    }

    ghost predicate Laid() {
      Placed(self) && words.Length == BLOCK
    }

    ghost predicate Valid()
      reads this`virtualStartAddress, words
    {
      Laid() && virtualStartAddress == KERNEL_VIRTUAL && Well(words[..], self)
    }

    ghost function Mapped(): map<nat, nat>
      requires Laid()
      reads words
    {
      Mapping(words[..])
    }

    /** While this directory is loaded, the cached translations agree with the tables. */
    ghost predicate CoherentBut(but: int)
      requires Laid()
      reads this`loaded, this`tlb, words
    {
      loaded ==> Cached(words[..], self, tlb, but)
    }

    ghost predicate Coherent()
      requires Laid()
      reads this`loaded, this`tlb, words
    {
      CoherentBut(-1)
    }

    ghost predicate Ready()
      reads this, words
    {
      Valid() && Coherent()
    }

    method Init(kernelVirtualStart: Word)
      requires Laid() && !loaded && kernelVirtualStart == KERNEL_VIRTUAL
      modifies words, `virtualStartAddress
      ensures Valid() && Mapped() == map[]
    {
      virtualStartAddress := kernelVirtualStart;
      for i := 0 to words.Length
        invariant virtualStartAddress == kernelVirtualStart
        invariant forall j :: 0 <= j < i ==> words[j] == 0
      {
        words[i] := 0;
      }
      assert forall i :: 0 <= i < BLOCK ==> words[..][i] == 0;
      assert Mapping(words[..]).Keys == {};
    }

    /** CR3 is loaded with this directory, which drops every cached translation. */
    method ReloadPageDirectory()
      requires Laid()
      modifies `loaded, `tlb
      ensures loaded && Coherent()
    {
      loaded, tlb := true, map[];
    }

    /** The processor sets accessed and dirty flags in present entries. */
    method MarkEntries()
      requires Laid()
      modifies words
      ensures SameBlock(old(words[..]), words[..])
    {
      for i := 0 to words.Length
        invariant forall j :: 0 <= j < i ==> Same(old(words[j]), words[j])
        invariant forall j :: i <= j < words.Length ==> words[j] == old(words[j])
      {
        var accessed := MarkEntry(words[i], 32);
        words[i] := MarkEntry(accessed, 64);
      }
    }

    method MarkEntry(e: Word, flag: nat) returns (f: Word)
      requires flag == 32 || flag == 64
      ensures Same(e, f)
    {
      f := e;
      if
      case true =>
      case flag == 32 && e % 2 == 1 && e % 64 < 32 => MarkAccessed(e); f := e + 32;
      case flag == 64 && e % 2 == 1 && e % 128 < 64 => MarkDirty(e); f := e + 64;
    }

    /** The processor evicts cached translations and caches others. */
    method FillTlb()
      requires Laid()
      modifies `tlb
      ensures forall p :: p in tlb ==>
        (p in old(tlb) && tlb[p] == old(tlb)[p]) || (tlb[p] != Fault && tlb[p] == WalkBlock(words[..], self, p))
    {
      for p := 0 to PAGES
        invariant forall q :: q in tlb ==>
          (q in old(tlb) && tlb[q] == old(tlb)[q]) || (tlb[q] != Fault && tlb[q] == WalkBlock(words[..], self, q))
      {
        var walked := WalkBlock(words[..], self, p);
        if
        case true =>
        case true => tlb := tlb - {p};
        case walked != Fault => tlb := tlb[p := walked];
      }
    }

    /** The processor at work between two instructions. */
    method Hardware(ghost but: int)
      requires Laid() && CoherentBut(but)
      modifies words, `tlb
      ensures SameBlock(old(words[..]), words[..]) && CoherentBut(but)
    {
      if !loaded { return; }
      MarkEntries();
      CacheSurvives(old(words[..]), words[..], self, tlb, but);
      FillTlb();
    }

    /** A write to an absent entry, with the processor at work after it. */
    method Store(slot: nat, e: Word)
      requires Laid() && Coherent() && slot < BLOCK && words[slot] % 2 == 0
      modifies words, `tlb
      ensures Coherent()
      ensures SameBlock(old(words[..])[slot := e], words[..])
    {
      words[slot] := e;
      assert words[..] == old(words[..])[slot := e];
      if loaded { CacheSurvives(old(words[..]), words[..], self, tlb, -1); }
      Hardware(-1);
    }

    /** The three writes of Map to a directory entry that was zero. */
    method LinkTable(d: nat, table: Word, writable: bool)
      requires Laid() && Coherent() && d < BLOCK && words[d] == 0 && table % 0x1000 == 0
      modifies words, `tlb
      ensures Coherent() && SameBlock(old(words[..])[d := Entry(table)], words[..])
    {
      FreshEntry(table);
      FlagBits(0);
      hide And, IsPresent, SetPresent, SetWritable, SetAddress;
      Store(d, SetAddress(words[d], table));
      Store(d, SetWritable(words[d], writable));
      Store(d, SetPresent(words[d], true));
    }

    /** The three writes of Map to a table entry that was zero. */
    method FillEntry(slot: nat, pa: Word, writable: bool)
      requires Laid() && Coherent() && slot < BLOCK && words[slot] == 0 && pa % 0x1000 == 0
      modifies words, `tlb
      ensures Coherent() && SameBlock(old(words[..])[slot := Entry(pa)], words[..])
    {
      FreshEntry(pa);
      FlagBits(0);
      hide And, IsPresent, SetPresent, SetWritable, SetAddress;
      Store(slot, SetWritable(words[slot], writable));
      Store(slot, SetAddress(words[slot], pa));
      Store(slot, SetPresent(words[slot], true));
    }

    /** The directory part of Map: the entry of an absent table is filled in. */
    method OpenTable(va: Word, writable: bool)
      requires Ready() && Admissible(va / 0x40_0000)
      modifies words, `tlb
      ensures Ready() && Mapped() == old(Mapped())
      ensures words[va / 0x40_0000] != 0 && Grows(old(words[..]), words[..])
    {
      var d := va / 0x40_0000;
      FlagBits(words[d]);
      if !IsPresent(words[d]) {
        var table: Word;
        if d == 0 {
          table := KernelVirtualToPhysical(KERNEL_VIRTUAL, KERNEL_PHYSICAL, self + 0x1000);
        } else {
          var tablesIndex := Wrap(va - virtualStartAddress) / 0x40_0000;
          table := KernelVirtualToPhysical(KERNEL_VIRTUAL, KERNEL_PHYSICAL, self + 0x2000 + 0x1000 * tablesIndex);
        }
        assert table == TableAddress(self, d);
        TableAligned(self, d);
        hide And, IsPresent, KernelVirtualToPhysical, Wrap;
        ghost var t := words[..];
        LinkTable(d, table, writable);
        AddTable(t, self, d);
        SameBlockKeeps(t[d := Entry(table)], words[..], self);
      }
    }

    /** GetTable: the virtual address that the directory entry leads to. */
    function GetTable(va: Word): Word
      requires Laid()
      reads words
    {
      KernelPhysicalToVirtual(KERNEL_VIRTUAL, KERNEL_PHYSICAL, GetAddress(words[va / 0x40_0000]))
    }

    /** The word that PageTable::GetEntry points at, for a table inside the block. */
    function EntryOf(table: Word, va: Word): int {
      (table - self) / 4 + va % 0x40_0000 / 0x1000
    }

    lemma EntryPointer(va: Word)
      requires Valid() && words[va / 0x40_0000] != 0
      ensures Admissible(va / 0x40_0000) && GetTable(va) != 0
      ensures EntryOf(GetTable(va), va) == EntrySlot(va / 0x1000)
      ensures var e := words[EntrySlot(va / 0x1000)];
        (IsPresent(e) <==> va / 0x1000 in Mapped()) && (e != 0 <==> IsPresent(e)) &&
        (IsPresent(e) ==> GetAddress(e) == Mapped()[va / 0x1000] * 0x1000)
    {
      LoadEntry(words[..], self, va / 0x1000);
      AbsentIsZero(words[..], self, EntrySlot(va / 0x1000));
      AddressBits(words[EntrySlot(va / 0x1000)]);
      assert va / 0x40_0000 == va / 0x1000 / 1024 && va % 0x40_0000 / 0x1000 == va / 0x1000 % 1024;
    }

    method Map(va: Word, pa: Word, writable: bool) returns (ok: bool)
      requires Ready()
      modifies words, `tlb
      ensures Ready() && Grows(old(words[..]), words[..])
      ensures ok <==> va % 0x1000 == 0 && pa % 0x1000 == 0
                      && (va / 0x40_0000 == 0 || va / 0x40_0000 >= 768) && va / 0x1000 !in old(Mapped())
      ensures ok <==> CanMap(old(Mapped()), va, pa)
      ensures Mapped() == if ok then old(Mapped())[va / 0x1000 := pa / 0x1000] else old(Mapped())
    {
      if pa % 0x1000 != 0 || va % 0x1000 != 0 { return false; }
      var d := va / 0x40_0000;
      if d != 0 && (d < 768 || d > 1023) { return false; }
      OpenTable(va, writable);
      var table := GetTable(va);
      EntryPointer(va);
      if table == 0 { return false; }
      var slot := EntryOf(table, va);
      hide Mapping, Well, And, IsPresent, GetTable, EntryOf, EntrySlot;
      if IsPresent(words[slot]) { return false; }
      ghost var t, page := words[..], va / 0x1000;
      FillEntry(slot, pa, writable);
      AddEntry(t, self, page, pa);
      SameBlockKeeps(t[slot := Entry(pa)], words[..], self);
      return true;
    }

    /** One iteration of MapRange. */
    method MapNext(va: Word, pa: Word, writable: bool, ghost before: seq<Word>) returns (ok: bool)
      requires Ready() && Grows(before, words[..])
      modifies words, `tlb
      ensures Ready() && Grows(before, words[..])
      ensures ok <==> CanMap(old(Mapped()), va, pa)
      ensures Mapped() == if ok then old(Mapped())[va / 0x1000 := pa / 0x1000] else old(Mapped())
    {
      ghost var t := words[..];
      hide Well, Mapping, CanMap, Grows, Walk, Cached;
      ok := Map(va, pa, writable);
      GrowsTransitive(before, t, words[..]);
    }

    method MapRange(va: Word, pa: Word, writable: bool, count: Word) returns (ok: bool)
      requires Ready()
      modifies words, `tlb
      ensures Ready() && Grows(old(words[..]), words[..])
      ensures (Mapped(), ok) == AfterMapRange(old(Mapped()), va, pa, count)
    {
      var virtualAddress, physicalAddress := va, pa;
      assert Grows(words[..], words[..]);
      hide Well, Mapping, CanMap, Grows, Walk, AfterMapRange, Plus, Cached, MapLeads;
      ghost var before, m := words[..], Mapped();
      MapStarts(m, va, pa, count);
      var i: nat := 0;
      while i < count
        invariant i <= count && Ready() && Grows(before, words[..])
        invariant MapLeads(m, va, pa, count, Mapped(), virtualAddress, physicalAddress, count - i)
      {
        MapContinues(m, va, pa, count, Mapped(), virtualAddress, physicalAddress, count - i);
        var mapped := MapNext(virtualAddress, physicalAddress, writable, before);
        if !mapped { return false; }
        virtualAddress := Plus(virtualAddress, 0x1000);
        physicalAddress := Plus(physicalAddress, 0x1000);
        i := i + 1;
      }
      MapContinues(m, va, pa, count, Mapped(), virtualAddress, physicalAddress, 0);
      return true;
    }

    method Unmap(va: Word) returns (ok: bool)
      requires Ready()
      modifies words, `tlb
      ensures Valid() && (if ok then CoherentBut(va / 0x1000) else Coherent())
      ensures DirectoryKept(old(words[..]), words[..])
      ensures ok <==> va % 0x1000 == 0 && va / 0x1000 in old(Mapped())
      ensures ok <==> CanUnmap(old(Mapped()), va)
      ensures Mapped() == if ok then old(Mapped()) - {va / 0x1000} else old(Mapped())
    {
      if va % 0x1000 != 0 { return false; }
      var d := va / 0x40_0000;
      if d != 0 && (d < 768 || d > 1023) { return false; }
      AbsentIsZero(words[..], self, d);
      if !IsPresent(words[d]) { return false; }
      EntryPointer(va);
      var table := GetTable(va);
      if table == 0 { return false; }
      var slot := EntryOf(table, va);
      if !IsPresent(words[slot]) { return false; }
      ghost var t, page := words[..], va / 0x1000;
      hide IsPresent, GetTable, EntryOf;
      words[slot] := 0;
      assert words[..] == t[slot := 0];
      DropEntry(t, self, page);
      hide Mapping, Well, EntrySlot;
      if loaded { CacheSurvivesDrop(t, words[..], self, tlb, page); }
      ghost var u := words[..];
      Hardware(page);
      SameBlockKeeps(u, words[..], self);
      return true;
    }

    /** invlpg: the cached translation of one page is dropped. */
    method FlushTLB(va: Word)
      requires Laid() && CoherentBut(va / 0x1000)
      modifies `tlb
      ensures Coherent()
    {
      tlb := tlb - {va / 0x1000};
    }

    /** One iteration of UnmapRange. */
    method UnmapNext(va: Word, ghost before: seq<Word>) returns (ok: bool)
      requires Ready() && DirectoryKept(before, words[..])
      modifies words, `tlb
      ensures Ready() && DirectoryKept(before, words[..])
      ensures ok <==> CanUnmap(old(Mapped()), va)
      ensures Mapped() == if ok then old(Mapped()) - {va / 0x1000} else old(Mapped())
    {
      ghost var t := words[..];
      hide Well, Mapping, CanUnmap, DirectoryKept, Walk, Cached;
      ok := Unmap(va);
      DirectoryKeptTransitive(before, t, words[..]);
      if ok { FlushTLB(va); }
    }

    method UnmapRange(va: Word, count: Word) returns (ok: bool)
      requires Ready()
      modifies words, `tlb
      ensures Ready() && DirectoryKept(old(words[..]), words[..])
      ensures (Mapped(), ok) == AfterUnmapRange(old(Mapped()), va, count)
    {
      var virtualAddress := va;
      assert DirectoryKept(words[..], words[..]);
      hide Well, Mapping, CanUnmap, DirectoryKept, Walk, AfterUnmapRange, Plus, Cached, UnmapLeads;
      ghost var before, m := words[..], Mapped();
      UnmapStarts(m, va, count);
      var i: nat := 0;
      while i < count
        invariant i <= count && Ready() && DirectoryKept(before, words[..])
        invariant UnmapLeads(m, va, count, Mapped(), virtualAddress, count - i)
      {
        UnmapContinues(m, va, count, Mapped(), virtualAddress, count - i);
        var unmapped := UnmapNext(virtualAddress, before);
        if !unmapped { return false; }
        virtualAddress := Plus(virtualAddress, 0x1000);
        i := i + 1;
      }
      UnmapContinues(m, va, count, Mapped(), virtualAddress, 0);
      return true;
    }

    method GetPhysicalAddress(va: Word) returns (pa: Word)
      requires Valid()
      ensures pa == if va % 0x1000 == 0 && va / 0x1000 in Mapped() then Mapped()[va / 0x1000] * 0x1000 else 0
      ensures pa == PhysicalAddressOf(Mapped(), va)
    {
      pa := 0;
      if va % 0x1000 != 0 { return; }
      var d := va / 0x40_0000;
      if d != 0 && (d < 768 || d > 1023) { return; }
      AbsentIsZero(words[..], self, d);
      if !IsPresent(words[d]) { return; }
      EntryPointer(va);
      var table := GetTable(va);
      if table == 0 { return; }
      var slot := EntryOf(table, va);
      if !IsPresent(words[slot]) { return; }
      return GetAddress(words[slot]);
    }
  }
}
