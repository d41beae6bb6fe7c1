/** The packed 32-bit words of page directories and page tables (32-bit paging, section 4.3 of the Intel SDM,
    Volume 3A). PageTableEntry and PageDirectoryEntry have the same layout for the fields used here. */
module PageEntries {
  import opened Words

  const PRESENT: Word := 0x1
  const READ_WRITE: Word := 0x2
  const USER: Word := 0x4

  predicate IsPresent(e: Word) {
    And(e, PRESENT) != 0
  }

  predicate IsWritable(e: Word) {
    And(e, READ_WRITE) != 0
  }

  predicate IsUser(e: Word) {
    And(e, USER) != 0
  }

  lemma OrFits(a: nat, b: nat, bound: nat)
    requires a < Pow2(bound) && b < Pow2(bound)
    ensures Or(a, b) < Pow2(bound)
  {
    if bound > 0 { OrFits(a / 2, b / 2, bound - 1); }
  }

  function OrWord(a: Word, b: Word): (w: Word)
    ensures w == a + b - And(a, b)
  {
    Powers();
    OrFits(a, b, 32);
    Or(a, b)
  }

  /** The argument is ignored, as in the source: the flag can be set but not cleared. */
  function SetPresent(e: Word, value: bool): Word {
    OrWord(e, PRESENT)
  }

  function SetWritable(e: Word, value: bool): Word {
    OrWord(e, READ_WRITE)
  }

  function GetAddress(e: Word): Word {
    And(e, 0xFFFF_F000)
  }

  /** The mask is ~0x7FFFF000, which keeps bit 31 of the old word. */
  function SetAddress(e: Word, address: Word): Word {
    OrWord(And(e, 0x8000_0FFF), address)
  }

  /** The masks as arithmetic. The setters set their flag whatever they are given, so false does not clear it. */
  lemma FlagBits(e: Word)
    ensures IsPresent(e) <==> e % 2 == 1
    ensures IsWritable(e) <==> e % 4 >= 2
    ensures IsUser(e) <==> e % 8 >= 4
    ensures SetPresent(e, true) == if e % 2 == 1 then e else e + 1
    ensures SetWritable(e, true) == if e % 4 >= 2 then e else e + 2
    ensures SetPresent(e, false) == SetPresent(e, true) && SetWritable(e, false) == SetWritable(e, true)
  {
    assert And(e / 2, 1) == e / 2 % 2;
    assert And(e / 4, 1) == e / 4 % 2;
    assert And(e / 2, 2) == 2 * And(e / 4, 1);
  }

  lemma AddressBits(e: Word)
    ensures GetAddress(e) == e / 4096 * 4096
  {
    hide And;
    Split12(e / 4096, e % 4096, 0xF_FFFF, 0);
    Ones(e / 4096);
  }

  lemma KeptBits(e: Word)
    ensures And(e, 0x8000_0FFF) == e / 0x8000_0000 * 0x8000_0000 + e % 4096
  {
    var top, rest := e / 0x8000_0000, e % 0x8000_0000;
    assert And(top, 1) == top;
    hide And;
    Split31(top, rest, 1, 0xFFF);
    Split12(rest / 4096, rest % 4096, 0, 0xFFF);
    Ones(rest % 4096);
  }

  lemma CommonBits(top: nat, low: nat, aTop: nat, frame: nat)
    requires top < 2 && low < 4096 && aTop < 2 && frame < 0x8_0000
    ensures And(top * 0x8000_0000 + low, aTop * 0x8000_0000 + frame * 4096) == And(top, aTop) * 0x8000_0000
  {
    hide *;
    Split31(top, low, aTop, frame * 4096);
    Split12(0, low, frame, 0);
  }

  lemma StoredWord(e: Word, a: Word)
    requires a % 4096 == 0
    ensures SetAddress(e, a) == e % 4096 + a + (if e >= 0x8000_0000 && a < 0x8000_0000 then 0x8000_0000 else 0)
  {
    var top, aTop, frame := e / 0x8000_0000, a / 0x8000_0000, a / 4096 % 0x8_0000;
    assert And(top, aTop) == if top == 1 && aTop == 1 then 1 else 0;
    hide And;
    assert a == aTop * 0x8000_0000 + frame * 4096;
    KeptBits(e);
    CommonBits(top, e % 4096, aTop, frame);
  }

  /** Storing an address keeps the flags and reads back as stored exactly when the address is aligned and bit 31
      of the old word is clear or wanted. */
  lemma SetAddressIsExact(e: Word, a: Word)
    ensures GetAddress(SetAddress(e, a)) == a && SetAddress(e, a) % 4096 == e % 4096
            <==> a % 4096 == 0 && (e < 0x8000_0000 || a >= 0x8000_0000)
  {
    AddressBits(SetAddress(e, a));
    hide *;
    if a % 4096 == 0 {
      StoredWord(e, a);
    }
  }

  lemma LowFlags(e: nat)
    ensures e % 2 == e % 8 % 2 && e % 4 == e % 8 % 4
  {
    var q, r := e / 8, e % 8;
    Remainder2(4 * q, r);
    Remainder4(2 * q, r);
  }

  lemma Remainder2(q: nat, r: nat)
    ensures (2 * q + r) % 2 == r % 2
  {
  }

  lemma Remainder4(q: nat, r: nat)
    ensures (4 * q + r) % 4 == r % 4
  {
  }

  lemma Remainder8(q: nat, r: nat)
    ensures (8 * q + r) % 8 == r % 8
  {
  }

  lemma InFrame(q: nat, r: nat)
    requires r < 4096
    ensures (4096 * q + r) / 4096 == q
  {
  }

  lemma AlignedEntry(a: nat)
    requires a % 4096 == 0
    ensures (a + 3) % 8 == 3 && (a + 3) / 4096 == a / 4096
  {
    Frames(a / 4096);
  }

  lemma Frames(n: nat)
    ensures (4096 * n + 3) / 4096 == n && (8 * (512 * n) + 3) % 8 == 3
  {
  }

  /** A page-aligned address with the present and writable flags. */
  function Entry(a: Word): Word
    requires a % 0x1000 == 0
  {
    a + 3
  }

  /** The word that Map leaves in an entry whose raw word was zero. */
  lemma FreshEntry(a: Word)
    requires a % 4096 == 0
    ensures SetAddress(0, a) == a
    ensures SetWritable(a, true) == a + 2 && SetAddress(SetWritable(0, true), a) == a + 2
    ensures SetPresent(a + 2, true) == a + 3
  {
    FlagBits(0);
    FlagBits(a);
    FlagBits(a + 2);
    KeptBits(2);
    Split12(0, 2, a / 4096, 0);
  }

  /** Equal as far as translation is concerned: absent words are identical, present ones agree on frame and on the
      present, writable and user flags. */
  predicate Same(e: Word, f: Word) {
    f == e || (e % 2 == 1 && f / 4096 == e / 4096 && f % 8 == e % 8)
  }

  /** Setting the accessed flag (0x20) where it is clear. */
  lemma MarkAccessed(e: Word)
    requires e % 2 == 1 && e % 64 < 32
    ensures e + 32 < 0x1_0000_0000 && Same(e, e + 32)
  {
    MiddleFlag(32, e / 64, e % 64);
  }

  /** Setting the dirty flag (0x40) where it is clear. */
  lemma MarkDirty(e: Word)
    requires e % 2 == 1 && e % 128 < 64
    ensures e + 64 < 0x1_0000_0000 && Same(e, e + 64)
  {
    MiddleFlag(64, e / 128, e % 128);
  }

  lemma MiddleFlag(flag: nat, m: nat, r: nat)
    requires (flag == 32 || flag == 64) && r < flag
    ensures var e := 2 * flag * m + r; (e + flag) / 4096 == e / 4096 && (e + flag) % 8 == e % 8
  {
    if flag == 32 {
      FlagInFrame(m / 64, 64 * (m % 64) + r, 32);
    } else {
      FlagInFrame(m / 32, 128 * (m % 32) + r, 64);
    }
  }

  /** Adding a multiple of eight within a frame. */
  lemma FlagInFrame(frame: nat, low: nat, flag: nat)
    requires low + flag < 4096 && flag % 8 == 0
    ensures var e := 4096 * frame + low; (e + flag) / 4096 == e / 4096 && (e + flag) % 8 == e % 8
  {
    InFrame(frame, low);
    InFrame(frame, low + flag);
    Remainder8(512 * frame + flag / 8, low);
    Remainder8(512 * frame, low);
  }
}
