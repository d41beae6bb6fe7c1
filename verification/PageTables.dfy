/** The two-level tables as one block of memory, the walk that the processor makes through it, and the partial map
    from page to frame that the block stands for. */
module PageTables {
  import opened Words
  import opened PageEntries

  const KERNEL_VIRTUAL: Word := 0xC000_0000
  const KERNEL_PHYSICAL: Word := 0x0020_0000

  const PAGES: nat := 0x10_0000

  // m_PageDirectory, m_PageTable0 and m_PageTables768[256] follow each other in the object, 1024 words each.
  const BLOCK: nat := 0x4_0800

  // The same, in bytes.
  const BLOCK_BYTES: nat := 0x10_2000

  type Page = p: nat | p < PAGES

  function KernelVirtualToPhysical(virtualStart: Word, physicalStart: Word, a: Word): Word {
    Wrap(Wrap(a - virtualStart) + physicalStart)
  }

  function KernelPhysicalToVirtual(virtualStart: Word, physicalStart: Word, a: Word): Word {
    Wrap(Wrap(a + virtualStart) - physicalStart)
  }

  /** The two conversions undo each other for every pair of bases, wrap-around included. */
  lemma ConversionsAreInverse(virtualStart: Word, physicalStart: Word, a: Word)
    ensures KernelPhysicalToVirtual(virtualStart, physicalStart, KernelVirtualToPhysical(virtualStart, physicalStart, a)) == a
    ensures KernelVirtualToPhysical(virtualStart, physicalStart, KernelPhysicalToVirtual(virtualStart, physicalStart, a)) == a
  {
  }

  /** The directory indices that have a table: 0 and the upper quarter of the address space. */
  predicate Admissible(d: nat) {
    d == 0 || 768 <= d <= 1023
  }

  /** Which of the 257 tables serves directory index d. */
  function TableNumber(d: nat): nat
    requires Admissible(d)
  {
    if d == 0 then 0 else d - 767
  }

  /** The word of the block that holds the entry of a page. */
  function EntrySlot(page: nat): (slot: nat)
    requires page < PAGES && Admissible(page / 1024)
    ensures 1024 <= slot < BLOCK
  {
    1024 + 1024 * TableNumber(page / 1024) + page % 1024
  }

  /** The tables never alias: two pages with the same entry are the same page. */
  lemma EntrySlotIsInjective(p: nat, q: nat)
    requires p < PAGES && q < PAGES && Admissible(p / 1024) && Admissible(q / 1024)
    requires EntrySlot(p) == EntrySlot(q)
    ensures p == q
  {
    assert TableNumber(p / 1024) == TableNumber(q / 1024);
  }

  /** Every word above the directory is the entry of some page. */
  lemma EntrySlotIsOnto(slot: nat) returns (page: Page)
    requires 1024 <= slot < BLOCK
    ensures Admissible(page / 1024) && EntrySlot(page) == slot
  {
    var table, index := (slot - 1024) / 1024, slot % 1024;
    var d := if table == 0 then 0 else table + 767;
    page := 1024 * d + index;
    assert page / 1024 == d && page % 1024 == index;
  }

  /** Physical address of the table that serves directory index d, for a block at virtual address `self`. */
  function TableAddress(self: nat, d: nat): nat
    requires Admissible(d) && self >= KERNEL_VIRTUAL
  {
    self - KERNEL_VIRTUAL + KERNEL_PHYSICAL + 0x1000 + 0x1000 * TableNumber(d)
  }

  lemma TableAligned(self: nat, d: nat)
    requires Placed(self) && Admissible(d)
    ensures TableAddress(self, d) % 0x1000 == 0 && TableAddress(self, d) < 0x8000_0000
  {
  }

  /** The block lies, page-aligned, in the 4 MB that the kernel image occupies. */
  predicate Placed(self: nat) {
    KERNEL_VIRTUAL <= self && self + BLOCK_BYTES <= KERNEL_VIRTUAL + 0x40_0000 && self % 0x1000 == 0
  }

  /** What every step of the manager keeps. An absent entry is zero; a present one is writable and not for user
      mode; a present directory entry points at its own table, and a table without one is empty. */
  ghost predicate Well(t: seq<Word>, self: nat)
    requires Placed(self)
  {
    && |t| == BLOCK
    && (forall d: nat :: d < 1024 && t[d] != 0 ==>
          Admissible(d) && t[d] % 8 == 3 && t[d] / 0x1000 == TableAddress(self, d) / 0x1000)
    && (forall i: nat :: 1024 <= i < BLOCK && t[i] != 0 ==> t[i] % 8 == 3)
    && (forall p: nat :: p < PAGES && Admissible(p / 1024) && t[EntrySlot(p)] != 0 ==> t[p / 1024] != 0)
  }

  /** A word without the present flag is zero, so there is nothing that a store into it could leave behind. */
  lemma AbsentIsZero(t: seq<Word>, self: nat, i: nat)
    requires Placed(self) && Well(t, self) && i < BLOCK
    ensures IsPresent(t[i]) <==> t[i] != 0
  {
    FlagBits(t[i]);
    if t[i] != 0 { LowFlags(t[i]); }
  }

  /** The partial map that the block stands for. */
  ghost function Mapping(t: seq<Word>): map<nat, nat>
    requires |t| == BLOCK
  {
    map p: nat | p < PAGES && Admissible(p / 1024) && t[EntrySlot(p)] != 0 :: t[EntrySlot(p)] / 0x1000
  }

  datatype Translation = Fault | To(frame: nat, writable: bool, user: bool)

  datatype Read = Outside | Value(word: Word)

  /** Reading physical memory of which only `mem`, at physical address `base`, is known. */
  function Load(mem: seq<Word>, base: nat, a: nat): Read {
    if base <= a && (a - base) % 4 == 0 && (a - base) / 4 < |mem| then Value(mem[(a - base) / 4]) else Outside
  }

  /** The processor's walk from the directory at physical address `root`. */
  function Walk(mem: seq<Word>, base: nat, root: nat, page: Page): Translation {
    var directory := Load(mem, base, root + 4 * (page / 1024));
    if directory == Outside || !IsPresent(directory.word) then Fault
    else
      var entry := Load(mem, base, GetAddress(directory.word) + 4 * (page % 1024));
      if entry == Outside || !IsPresent(entry.word) then Fault
      else To(GetAddress(entry.word) / 0x1000,
              IsWritable(directory.word) && IsWritable(entry.word),
              IsUser(directory.word) && IsUser(entry.word))
  }

  function Root(self: nat): nat
    requires self >= KERNEL_VIRTUAL
  {
    self - KERNEL_VIRTUAL + KERNEL_PHYSICAL
  }

  function WalkBlock(t: seq<Word>, self: nat, page: Page): Translation
    requires self >= KERNEL_VIRTUAL
  {
    Walk(t, Root(self), Root(self), page)
  }

  /** Reading an entry of the table that a well-formed directory entry points at. */
  lemma LoadEntry(t: seq<Word>, self: nat, page: Page)
    requires Placed(self) && Well(t, self) && t[page / 1024] != 0
    ensures Admissible(page / 1024)
    ensures Load(t, Root(self), Root(self) + 4 * (page / 1024)) == Value(t[page / 1024])
    ensures IsPresent(t[page / 1024]) && GetAddress(t[page / 1024]) == TableAddress(self, page / 1024)
    ensures Load(t, Root(self), TableAddress(self, page / 1024) + 4 * (page % 1024)) == Value(t[EntrySlot(page)])
  {
    var d := page / 1024;
    TableAligned(self, d);
    FlagBits(t[d]);
    LowFlags(t[d]);
    AddressBits(t[d]);
    hide And, IsPresent, GetAddress;
    assert t[d] / 0x1000 * 0x1000 == TableAddress(self, d);
    SlotOfEntry(self, page);
  }

  lemma SlotOfEntry(self: nat, page: Page)
    requires Placed(self) && Admissible(page / 1024)
    ensures var a := TableAddress(self, page / 1024) + 4 * (page % 1024);
      Root(self) <= a && (a - Root(self)) % 4 == 0 && (a - Root(self)) / 4 == EntrySlot(page)
  {
    assert TableAddress(self, page / 1024) + 4 * (page % 1024) - Root(self) == 4 * EntrySlot(page);
  }

  /** In a well-formed block the processor's walk is the map: pages outside it fault, the others translate to their
      frame, writable and for the supervisor only. */
  lemma WalkIsMapping(t: seq<Word>, self: nat, page: Page)
    requires Placed(self) && Well(t, self)
    ensures WalkBlock(t, self, page) == if page in Mapping(t) then To(Mapping(t)[page], true, false) else Fault
  {
    hide IsPresent, IsWritable, IsUser, GetAddress, And;
    FlagBits(0);
    if t[page / 1024] != 0 {
      LoadEntry(t, self, page);
      var d, e := t[page / 1024], t[EntrySlot(page)];
      FlagBits(d);
      LowFlags(d);
      FlagBits(e);
      LowFlags(e);
      AddressBits(e);
    }
  }

  /** Every word of `t` that is present is the same in `u`. */
  ghost predicate Grows(t: seq<Word>, u: seq<Word>) {
    |t| == |u| && forall i :: 0 <= i < |t| && t[i] % 2 == 1 ==> Same(t[i], u[i])
  }

  /** Directory entries are written once. */
  ghost predicate DirectoryKept(t: seq<Word>, u: seq<Word>) {
    |t| == |u| == BLOCK && forall d: nat :: d < 1024 && t[d] % 2 == 1 ==> Same(t[d], u[d])
  }

  /** A walk that succeeds keeps its result while present words are not overwritten. */
  lemma WalkGrows(t: seq<Word>, u: seq<Word>, self: nat, page: Page)
    requires self >= KERNEL_VIRTUAL && Grows(t, u)
    requires WalkBlock(t, self, page) != Fault
    ensures WalkBlock(u, self, page) == WalkBlock(t, self, page)
  {
    var a := Root(self) + 4 * (page / 1024);
    var d, d' := Load(t, Root(self), a).word, Load(u, Root(self), a).word;
    SameEntry(d, d');
    var b := GetAddress(d) + 4 * (page % 1024);
    SameEntry(Load(t, Root(self), b).word, Load(u, Root(self), b).word);
  }

  lemma GrowsTransitive(t: seq<Word>, u: seq<Word>, v: seq<Word>)
    requires Grows(t, u) && Grows(u, v)
    ensures Grows(t, v)
  {
    forall i | 0 <= i < |t| && t[i] % 2 == 1 ensures Same(t[i], v[i]) {
      assert Same(t[i], u[i]);
      LowFlags(t[i]);
      LowFlags(u[i]);
      assert Same(u[i], v[i]);
    }
  }

  lemma DirectoryKeptTransitive(t: seq<Word>, u: seq<Word>, v: seq<Word>)
    requires DirectoryKept(t, u) && DirectoryKept(u, v)
    ensures DirectoryKept(t, v)
  {
    GrowsTransitive(t[..1024], u[..1024], v[..1024]);
    assert forall d: nat :: d < 1024 ==> t[..1024][d] == t[d] && v[..1024][d] == v[d];
  }

  lemma SameEntry(e: Word, f: Word)
    requires IsPresent(e) && (e % 2 == 1 ==> Same(e, f))
    ensures GetAddress(e) == GetAddress(f) && IsPresent(f)
    ensures IsWritable(e) == IsWritable(f) && IsUser(e) == IsUser(f)
  {
    hide IsPresent, IsWritable, IsUser, GetAddress;
    FlagBits(e);
    FlagBits(f);
    AddressBits(e);
    AddressBits(f);
    LowFlags(e);
    LowFlags(f);
  }

  ghost predicate SameBlock(t: seq<Word>, u: seq<Word>) {
    |t| == |u| && forall i :: 0 <= i < |t| ==> Same(t[i], u[i])
  }

  /** Accessed and dirty flags change nothing that the manager relies on. */
  lemma SameBlockKeeps(t: seq<Word>, u: seq<Word>, self: nat)
    requires Placed(self) && Well(t, self) && SameBlock(t, u)
    ensures Well(u, self) && Mapping(u) == Mapping(t)
  {
    forall i | 0 <= i < BLOCK ensures u[i] == 0 <==> t[i] == 0 {
      assert Same(t[i], u[i]);
    }
    assert Mapping(u).Keys == Mapping(t).Keys;
  }

  /** Filling in a directory entry of an empty table changes no translation. */
  lemma AddTable(t: seq<Word>, self: nat, d: nat)
    requires Placed(self) && Well(t, self) && d < 1024 && Admissible(d) && t[d] == 0
    ensures TableAddress(self, d) % 0x1000 == 0 && TableAddress(self, d) < 0x8000_0000
    ensures var u := t[d := Entry(TableAddress(self, d))]; Well(u, self) && Mapping(u) == Mapping(t)
  {
    TableAligned(self, d);
    AlignedEntry(TableAddress(self, d));
  }

  /** Filling in an absent entry adds one page to the map. */
  lemma AddEntry(t: seq<Word>, self: nat, page: Page, a: Word)
    requires Placed(self) && Well(t, self) && t[page / 1024] != 0 && a % 0x1000 == 0
    ensures var u := t[EntrySlot(page) := Entry(a)]; Well(u, self) && Mapping(u) == Mapping(t)[page := a / 0x1000]
  {
    AddEntryKeepsWell(t, self, page, a);
    OtherSlots(page);
    AlignedEntry(a);
    hide EntrySlot, Admissible, Well, TableAddress;
    var u := t[EntrySlot(page) := Entry(a)];
    assert Mapping(u).Keys == Mapping(t).Keys + {page};
  }

  lemma AddEntryKeepsWell(t: seq<Word>, self: nat, page: Page, a: Word)
    requires Placed(self) && Well(t, self) && t[page / 1024] != 0 && a % 0x1000 == 0
    ensures Admissible(page / 1024) && Well(t[EntrySlot(page) := Entry(a)], self)
  {
    OtherSlots(page);
    AlignedEntry(a);
    hide EntrySlot, Admissible, TableAddress;
  }

  /** Clearing an entry removes one page from the map. */
  lemma DropEntry(t: seq<Word>, self: nat, page: Page)
    requires Placed(self) && Well(t, self) && Admissible(page / 1024)
    ensures var u := t[EntrySlot(page) := 0]; Well(u, self) && Mapping(u) == Mapping(t) - {page}
  {
    OtherSlots(page);
    var u := t[EntrySlot(page) := 0];
    assert Mapping(u).Keys == Mapping(t).Keys - {page};
  }

  lemma OtherSlots(page: Page)
    requires Admissible(page / 1024)
    ensures forall q: nat :: q < PAGES && Admissible(q / 1024) && q != page ==> EntrySlot(q) != EntrySlot(page)
  {
    forall q: nat | q < PAGES && Admissible(q / 1024) && q != page ensures EntrySlot(q) != EntrySlot(page) {
      if EntrySlot(q) == EntrySlot(page) { EntrySlotIsInjective(q, page); }
    }
  }
}
