/** What MapRange and UnmapRange do to a range that does not wrap around: exactly the longest admissible prefix. */
module PageRanges {
  import opened Words
  import opened PageTables
  import opened VirtualMemory
  import opened Bitmaps

  /** Consecutive pages from `page` on consecutive frames from `frame`. */
  ghost function Run(page: nat, frame: nat, count: nat): map<nat, nat> {
    map p | p in Range(page, count) :: frame + (p - page)
  }

  /** The first k pages of the range are acceptable to Map, and the next one, if there is one, is not. */
  ghost predicate MappablePrefix(m: map<nat, nat>, va: Word, pa: Word, count: nat, k: nat)
    requires va + count * 0x1000 <= 0x1_0000_0000 && pa + count * 0x1000 <= 0x1_0000_0000
  {
    k <= count
    && (forall i: nat :: i < k ==> CanMap(m, va + i * 0x1000, pa + i * 0x1000))
    && (k < count ==> !CanMap(m, va + k * 0x1000, pa + k * 0x1000))
  }

  ghost predicate UnmappablePrefix(m: map<nat, nat>, va: Word, count: nat, k: nat)
    requires va + count * 0x1000 <= 0x1_0000_0000
  {
    k <= count
    && (forall i: nat :: i < k ==> CanUnmap(m, va + i * 0x1000))
    && (k < count ==> !CanUnmap(m, va + k * 0x1000))
  }

  /** MapRange maps the longest prefix of the range whose pages Map would accept in the state before the call, each
      page on the frame at the same offset, and answers whether that was all of them. */
  lemma {:induction false} MapRangeMapsLongestPrefix(m: map<nat, nat>, va: Word, pa: Word, count: nat) returns (k: nat)
    requires va + count * 0x1000 <= 0x1_0000_0000 && pa + count * 0x1000 <= 0x1_0000_0000
    ensures MappablePrefix(m, va, pa, count, k)
    ensures AfterMapRange(m, va, pa, count) == (m + Run(va / 0x1000, pa / 0x1000, k), k == count)
    decreases count
  {
    k := 0;
    NothingMapped(m, va, pa, count);
    UnfoldMapRange(m, va, pa, count);
    hide CanMap, Run, MappablePrefix, AfterMapRange;
    if count > 0 && CanMap(m, va, pa) {
      var m', va', pa' := m[va / 0x1000 := pa / 0x1000], Plus(va, 0x1000), Plus(pa, 0x1000);
      assert count > 1 ==> va' == va + 0x1000 && pa' == pa + 0x1000;
      k := MapRangeMapsLongestPrefix(m', va', pa', count - 1);
      ExtendMappable(m, va, pa, count, va', pa', k);
      ExtendRun(m, va / 0x1000, pa / 0x1000, va' / 0x1000, pa' / 0x1000, k);
      k := k + 1;
    }
  }

  lemma NothingMapped(m: map<nat, nat>, va: Word, pa: Word, count: nat)
    requires va + count * 0x1000 <= 0x1_0000_0000 && pa + count * 0x1000 <= 0x1_0000_0000
    ensures m + Run(va / 0x1000, pa / 0x1000, 0) == m
    ensures count == 0 || !CanMap(m, va, pa) ==> MappablePrefix(m, va, pa, count, 0)
    ensures CanMap(m, va, pa) ==> va % 0x1000 == 0 && pa % 0x1000 == 0
  {
  }

  lemma ExtendMappable(m: map<nat, nat>, va: Word, pa: Word, count: nat, va': Word, pa': Word, k: nat)
    requires count > 0 && va + count * 0x1000 <= 0x1_0000_0000 && pa + count * 0x1000 <= 0x1_0000_0000
    requires va' == Plus(va, 0x1000) && pa' == Plus(pa, 0x1000) && CanMap(m, va, pa)
    requires MappablePrefix(m[va / 0x1000 := pa / 0x1000], va', pa', count - 1, k)
    ensures MappablePrefix(m, va, pa, count, k + 1)
  {
    var m' := m[va / 0x1000 := pa / 0x1000];
    LaterPages(va, count);
    hide Admissible;
    forall i: nat | i < k + 1 ensures CanMap(m, va + i * 0x1000, pa + i * 0x1000) {
      if i > 0 { assert CanMap(m', va' + (i - 1) * 0x1000, pa' + (i - 1) * 0x1000); }
    }
    if k + 1 < count {
      assert (va + (k + 1) * 0x1000) / 0x1000 != va / 0x1000;
      assert va' + k * 0x1000 == va + (k + 1) * 0x1000 && pa' + k * 0x1000 == pa + (k + 1) * 0x1000;
    }
  }

  lemma LaterPages(va: nat, count: nat)
    requires va % 0x1000 == 0
    ensures forall i: nat :: i < count ==> (va + i * 0x1000) / 0x1000 == va / 0x1000 + i
  {
  }

  lemma ExtendRun(m: map<nat, nat>, v: nat, f: nat, v': nat, f': nat, k: nat)
    requires k > 0 ==> v' == v + 1 && f' == f + 1
    ensures m[v := f] + Run(v', f', k) == m + Run(v, f, k + 1)
  {
  }

  lemma {:induction false} UnmapRangeUnmapsLongestPrefix(m: map<nat, nat>, va: Word, count: nat) returns (k: nat)
    requires va + count * 0x1000 <= 0x1_0000_0000
    ensures UnmappablePrefix(m, va, count, k)
    ensures AfterUnmapRange(m, va, count) == (m - Range(va / 0x1000, k), k == count)
    decreases count
  {
    k := 0;
    assert m - Range(va / 0x1000, 0) == m;
    assert count == 0 || !CanUnmap(m, va) ==> UnmappablePrefix(m, va, count, 0);
    assert CanUnmap(m, va) ==> va % 0x1000 == 0;
    UnfoldUnmapRange(m, va, count);
    hide CanUnmap, UnmappablePrefix, AfterUnmapRange;
    if count > 0 && CanUnmap(m, va) {
      var m', va' := m - {va / 0x1000}, Plus(va, 0x1000);
      assert count > 1 ==> va' == va + 0x1000;
      k := UnmapRangeUnmapsLongestPrefix(m', va', count - 1);
      ExtendUnmappable(m, va, count, va', k);
      ExtendGap(m, va / 0x1000, va' / 0x1000, k);
      k := k + 1;
    }
  }

  /** A range is mapped like its first part and then, if that succeeded, the rest, which begins where the addresses
      have wrapped to. */
  lemma {:induction false} MapRangeSplits(m: map<nat, nat>, va: Word, pa: Word, a: nat, b: nat)
    ensures var (m', ok) := AfterMapRange(m, va, pa, a);
      AfterMapRange(m, va, pa, a + b) ==
      if ok then AfterMapRange(m', (va + a * 0x1000) % 0x1_0000_0000, (pa + a * 0x1000) % 0x1_0000_0000, b) else (m', false)
    decreases a
  {
    hide *;
    UnfoldMapRange(m, va, pa, a);
    UnfoldMapRange(m, va, pa, a + b);
    AddressesAhead(va, a);
    AddressesAhead(pa, a);
    if a > 0 && CanMap(m, va, pa) {
      MapRangeSplits(m[va / 0x1000 := pa / 0x1000], Plus(va, 0x1000), Plus(pa, 0x1000), a - 1, b);
    }
  }

  lemma {:induction false} UnmapRangeSplits(m: map<nat, nat>, va: Word, a: nat, b: nat)
    ensures var (m', ok) := AfterUnmapRange(m, va, a);
      AfterUnmapRange(m, va, a + b) ==
      if ok then AfterUnmapRange(m', (va + a * 0x1000) % 0x1_0000_0000, b) else (m', false)
    decreases a
  {
    hide *;
    UnfoldUnmapRange(m, va, a);
    UnfoldUnmapRange(m, va, a + b);
    AddressesAhead(va, a);
    if a > 0 && CanUnmap(m, va) {
      UnmapRangeSplits(m - {va / 0x1000}, Plus(va, 0x1000), a - 1, b);
    }
  }

  lemma AddressesAhead(x: Word, a: nat)
    ensures a == 0 ==> (x + a * 0x1000) % 0x1_0000_0000 == x
    ensures a > 0 ==> (Plus(x, 0x1000) + (a - 1) * 0x1000) % 0x1_0000_0000 == (x + a * 0x1000) % 0x1_0000_0000
  {
    if a > 0 { Remainders(x + 0x1000, (a - 1) * 0x1000); }
  }

  lemma Remainders(x: nat, y: nat)
    ensures (x % 0x1_0000_0000 + y) % 0x1_0000_0000 == (x + y) % 0x1_0000_0000
  {
    var q, r := x / 0x1_0000_0000, x % 0x1_0000_0000;
    assert x + y == q * 0x1_0000_0000 + (r + y);
  }

  lemma ExtendGap(m: map<nat, nat>, v: nat, v': nat, k: nat)
    requires k > 0 ==> v' == v + 1
    ensures m - {v} - Range(v', k) == m - Range(v, k + 1)
  {
  }

  lemma ExtendUnmappable(m: map<nat, nat>, va: Word, count: nat, va': Word, k: nat)
    requires count > 0 && va + count * 0x1000 <= 0x1_0000_0000 && va' == Plus(va, 0x1000) && CanUnmap(m, va)
    requires UnmappablePrefix(m - {va / 0x1000}, va', count - 1, k)
    ensures UnmappablePrefix(m, va, count, k + 1)
  {
    LaterPages(va, count);
    forall i: nat | i < k + 1 ensures CanUnmap(m, va + i * 0x1000) {
      if i > 0 { assert CanUnmap(m - {va / 0x1000}, va' + (i - 1) * 0x1000); }
    }
    if k + 1 < count {
      assert (va + (k + 1) * 0x1000) / 0x1000 != va / 0x1000;
      assert va' + k * 0x1000 == va + (k + 1) * 0x1000;
    }
  }
}
