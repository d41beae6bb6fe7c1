/** The page bitmap: bytes on the heap that stand for a set of page numbers. */
module Bitmaps {
  import opened Words

  predicate Within(p: nat, start: nat, count: nat) {
    start <= p < start + count
  }

  function Range(start: nat, count: nat): set<nat> {
    set p: nat | p < start + count && Within(p, start, count)
  }

  lemma AddRange(s: set<nat>, start: nat, n: nat)
    ensures s + Range(start, n) + {start + n} == s + Range(start, n + 1)
  {
  }

  lemma DropRange(s: set<nat>, start: nat, n: nat)
    ensures s - Range(start, n) - {start + n} == s - Range(start, n + 1)
  {
  }

  /** `count` clear positions in a row, beginning at `start`. */
  ghost predicate ClearRun(used: set<nat>, start: nat, count: nat) {
    forall p :: start <= p < start + count ==> p !in used
  }

  ghost predicate RunFits(used: set<nat>, size: nat, start: nat, count: nat) {
    start + count <= size && ClearRun(used, start, count)
  }

  /** Some run of `count` clear positions lies below `size`. */
  ghost predicate Fits(used: set<nat>, size: nat, count: nat) {
    exists start :: RunFits(used, size, start, count)
  }

  /** `start` begins the clear run that reaches up to `size`. */
  ghost predicate Trailing(used: set<nat>, size: nat, start: nat) {
    start < size && ClearRun(used, start, size - start) && (start == 0 || start - 1 in used)
  }

  /** The one answer that FindUnsetBits may give. */
  ghost predicate SearchResult(used: set<nat>, size: nat, count: nat, r: int) {
    if count > 0 && Fits(used, size, count) then
      r >= 0 && RunFits(used, size, r, count) && forall a: nat :: a < r ==> !RunFits(used, size, a, count)
    else if size == 0 || size - 1 in used then r == -1
    else r >= 0 && Trailing(used, size, r)
  }

  ghost function TrailingStart(used: set<nat>, size: nat): (r: int)
    ensures if size == 0 || size - 1 in used then r == -1 else r >= 0 && Trailing(used, size, r)
  {
    if size == 0 || size - 1 in used then -1
    else if size == 1 || size - 2 in used then size - 1
    else TrailingStart(used, size - 1)
  }

  /** The lowest fitting start at or above `from`, or -1. */
  ghost function LowestFit(used: set<nat>, size: nat, count: nat, from: nat): (r: int)
    ensures r == -1 || r >= from
    ensures r >= 0 ==> RunFits(used, size, r, count) && forall a: nat :: from <= a < r ==> !RunFits(used, size, a, count)
    ensures r == -1 ==> forall a: nat :: from <= a ==> !RunFits(used, size, a, count)
    decreases size - from
  {
    if from + count > size || from >= size then
      if RunFits(used, size, from, count) then from else -1
    else if RunFits(used, size, from, count) then from
    else LowestFit(used, size, count, from + 1)
  }

  /** What FindUnsetBits computes, as a function of the set of used positions. */
  ghost function Search(used: set<nat>, size: nat, count: nat): (r: int)
    ensures SearchResult(used, size, count, r)
  {
    if count > 0 && Fits(used, size, count) then LowestFit(used, size, count, 0) else TrailingStart(used, size)
  }

  lemma SearchIsDetermined(used: set<nat>, size: nat, count: nat, r: int)
    requires SearchResult(used, size, count, r)
    ensures r == Search(used, size, count)
  {
    var s := Search(used, size, count);
    if count > 0 && Fits(used, size, count) {
      assert r <= s && s <= r;
    } else if !(size == 0 || size - 1 in used) {
      assert s > 0 ==> s - 1 in used;
      assert r > 0 ==> r - 1 in used;
    }
  }

  /** For a positive count the search finds the lowest run when there is one; otherwise its answer is -1 or a start
      whose range overruns the bitmap. */
  lemma SearchFindsLowestOrOverruns(used: set<nat>, size: nat, count: nat)
    requires count > 0
    ensures var r := Search(used, size, count);
      && (r >= 0 && r + count <= size <==> Fits(used, size, count))
      && (Fits(used, size, count) ==> forall a: nat :: RunFits(used, size, a, count) ==> r <= a)
      && (!Fits(used, size, count) ==> (r == -1 <==> size == 0 || size - 1 in used))
  {
    var r := Search(used, size, count);
    if Fits(used, size, count) {
    } else if r >= 0 && r + count <= size {
      assert RunFits(used, size, r, count);
    }
  }

  /** Without a fitting run, and for count 0, the answer is the start of the clear positions at the end, if there are any. */
  lemma SearchFallsBackToTheEnd(used: set<nat>, size: nat, count: nat)
    requires count == 0 || !Fits(used, size, count)
    ensures var r := Search(used, size, count);
      if size == 0 || size - 1 in used then r == -1
      else 0 <= r < size && (forall p :: r <= p < size ==> p !in used) && (r == 0 || r - 1 in used)
  {
    assert SearchResult(used, size, count, Search(used, size, count));
  }

  /** The loop of FindUnsetBits before position i: no run of `count` positions ended so far, and `first` begins the
      clear positions just passed, or is -1 when the last one was used. */
  ghost predicate Scan(used: set<nat>, i: nat, first: int, count: nat) {
    && -1 <= first < i + (if first == -1 then 1 else 0)
    && (first == -1 ==> i == 0 || i - 1 in used)
    && (first >= 0 ==> Trailing(used, i, first) && (count > 0 ==> i - first < count))
    && (count > 0 ==> forall a: nat :: a < (if first == -1 then i else first) ==> !ClearRun(used, a, count))
  }

  lemma ScanStart(used: set<nat>, count: nat)
    ensures Scan(used, 0, -1, count)
  {
  }

  lemma ScanNext(used: set<nat>, size: nat, i: nat, first: int, count: nat)
    requires Scan(used, i, first, count) && i < size
    ensures i in used ==> Scan(used, i + 1, -1, count)
    ensures var f := if first == -1 then i else first;
      i !in used ==> f >= 0 && if i + 1 - f == count then SearchResult(used, size, count, f) else Scan(used, i + 1, f, count)
  {
    var f := if first == -1 then i else first;
    if i !in used {
      assert Trailing(used, i + 1, f);
      if i + 1 - f == count { assert RunFits(used, size, f, count); }
    } else if count > 0 {
      forall a: nat | a < i + 1 ensures !ClearRun(used, a, count) {
        if a >= f { assert a <= i < a + count; }
      }
    }
  }

  lemma ScanEnd(used: set<nat>, size: nat, first: int, count: nat)
    requires Scan(used, size, first, count)
    ensures SearchResult(used, size, count, first)
  {
  }

  /** SetAll stores the byte value 1 everywhere, so it sets one position in eight. */
  ghost function AfterSetAll(size: nat): set<nat> {
    set p: nat | p <= size && p % 8 == 0
  }

  ghost function AfterSetBits(used: set<nat>, size: nat, start: nat, count: nat): set<nat> {
    if start + count <= size then used + Range(start, count) else used
  }

  ghost function AfterClearBits(used: set<nat>, size: nat, start: nat, count: nat): set<nat> {
    if start + count <= size then used - Range(start, count) else used
  }

  /** The mask 1 << i. */
  function Mask(i: nat): bv8
    requires i < 8
  {
    (1 as bv8) << i
  }

  /** Bit k of a byte. */
  predicate On(b: bv8, k: nat)
    requires k < 8
  {
    b & Mask(k) != 0
  }

  lemma SetBit(b: bv8, i: nat, k: nat)
    requires i < 8 && k < 8
    ensures On(b | Mask(i), k) <==> k == i || On(b, k)
  {
  }

  lemma ResetBit(b: bv8, i: nat, k: nat)
    requires i < 8 && k < 8
    ensures On(b & !Mask(i), k) <==> k != i && On(b, k)
  {
  }

  lemma ToggleBit(b: bv8, i: nat, k: nat)
    requires i < 8 && k < 8
    ensures On(b ^ Mask(i), k) <==> ((k == i) != On(b, k))
  {
    hide On;
    if k == i { ToggleHere(b, i); } else { ToggleThere(b, i, k); }
  }

  lemma ToggleHere(b: bv8, i: nat)
    requires i < 8
    ensures On(b ^ Mask(i), i) <==> !On(b, i)
  {
    OneBit(b, i);
    XorSame(b, Mask(i));
  }

  lemma ToggleThere(b: bv8, i: nat, k: nat)
    requires i < 8 && k < 8 && i != k
    ensures On(b ^ Mask(i), k) <==> On(b, k)
  {
    BitsApart(i, k);
    XorOther(b, Mask(i), Mask(k));
  }

  lemma OneBit(b: bv8, i: nat)
    requires i < 8
    ensures var m := Mask(i); m != 0 && (b & m == 0 || b & m == m)
  {
  }

  lemma BitsApart(i: nat, k: nat)
    requires i < 8 && k < 8 && i != k
    ensures Mask(i) & Mask(k) == 0
  {
  }

  lemma XorSame(b: bv8, m: bv8)
    requires m != 0 && (b & m == 0 || b & m == m)
    ensures (b ^ m) & m != 0 <==> b & m == 0
  {
  }

  lemma XorOther(b: bv8, m: bv8, n: bv8)
    requires m & n == 0
    ensures (b ^ m) & n == b & n
  {
  }

  /** ESTD::Bitmap<TSize>. The storage has TSize bytes, eight times what TSize bits need, and the bounds tests
      admit position TSize itself. */
  class Bitmap {
    const size: Word
    const bits: array<bv8>

    ghost predicate Valid() {
      0 < size <= 0x8000_0000 && bits.Length == size
    }

    predicate BitAt(pos: nat)
      requires Valid() && pos <= size
      reads bits
    {
      On(bits[pos / 8], pos % 8)
    }

    ghost function Contents(): set<nat>
      requires Valid()
      reads bits
    {
      set p: nat | p <= size && BitAt(p)
    }

    constructor (n: Word)
      requires 0 < n <= 0x8000_0000
      ensures Valid() && size == n && fresh(bits)
    {
      size := n;
      bits := new bv8[n];
    }

    method Set(pos: Word)
      requires Valid()
      modifies bits
      ensures Contents() == if pos > size then old(Contents()) else old(Contents()) + {pos}
    {
      if pos > size { return; }
      hide On, Mask;
      var byteIndex, bitIndex := pos / 8, pos % 8;
      bits[byteIndex] := bits[byteIndex] | Mask(bitIndex);
      forall q: nat | q <= size ensures BitAt(q) <==> q == pos || old(BitAt(q)) {
        SetBit(old(bits[byteIndex]), bitIndex, q % 8);
      }
    }

    method SetAll()
      requires Valid()
      modifies bits
      ensures Contents() == AfterSetAll(size)
    {
      for i := 0 to bits.Length
        invariant forall j :: 0 <= j < i ==> bits[j] == 1
      {
        bits[i] := 1;
      }
      forall q: nat | q <= size ensures BitAt(q) <==> q % 8 == 0 {
        SetBit(0, 0, q % 8);
      }
    }

    predicate Test(pos: Word): (b: bool)
      requires Valid()
      reads bits
      ensures b <==> pos in Contents()
    {
      if pos > size then false else BitAt(pos)
    }

    method Reset(pos: Word)
      requires Valid()
      modifies bits
      ensures Contents() == old(Contents()) - {pos}
    {
      if pos > size { return; }
      hide On, Mask;
      var byteIndex, bitIndex := pos / 8, pos % 8;
      bits[byteIndex] := bits[byteIndex] & !Mask(bitIndex);
      forall q: nat | q <= size ensures BitAt(q) <==> q != pos && old(BitAt(q)) {
        ResetBit(old(bits[byteIndex]), bitIndex, q % 8);
      }
    }

    method ResetAll()
      requires Valid()
      modifies bits
      ensures Contents() == {}
    {
      for i := 0 to bits.Length
        invariant forall j :: 0 <= j < i ==> bits[j] == 0
      {
        bits[i] := 0;
      }
    }

    method Toggle(pos: Word)
      requires Valid()
      modifies bits
      ensures Contents() == if pos > size then old(Contents())
                            else if pos in old(Contents()) then old(Contents()) - {pos}
                            else old(Contents()) + {pos}
    {
      if pos > size { return; }
      hide On, Mask;
      var byteIndex, bitIndex := pos / 8, pos % 8;
      bits[byteIndex] := bits[byteIndex] ^ Mask(bitIndex);
      forall q: nat | q <= size ensures BitAt(q) <==> ((q == pos) != old(BitAt(q))) {
        ToggleBit(old(bits[byteIndex]), bitIndex, q % 8);
      }
    }

    method FindUnsetBits(count: Word) returns (r: int)
      requires Valid()
      ensures r == Search(Contents(), size, count)
    {
      var firstBit: int := -1;
      var currentBit: nat := 0;
      var i: nat := 0;
      hide Contents, BitAt, Scan;
      ScanStart(Contents(), count);
      while i < size
        invariant i <= size && Scan(Contents(), i, firstBit, count)
        invariant currentBit == if firstBit == -1 then 0 else i - firstBit
      {
        ScanNext(Contents(), size, i, firstBit, count);
        if Test(i) {
          firstBit, currentBit := -1, 0;
          i := i + 1;
          continue;
        }
        if firstBit == -1 { firstBit := i; }
        currentBit := currentBit + 1;
        if currentBit == count { break; }
        i := i + 1;
      }
      if i == size { ScanEnd(Contents(), size, firstBit, count); }
      SearchIsDetermined(Contents(), size, count, firstBit);
      if firstBit == -1 { return -1; }
      return firstBit;
    }

    method SetBits(start: Word, count: Word)
      requires Valid()
      modifies bits
      ensures Contents() == AfterSetBits(old(Contents()), size, start, count)
    {
      hide Contents, BitAt;
      var end := Plus(start, count);
      if end > size { return; }
      var i: nat := start;
      while i < end
        invariant start <= i && (i <= end || i == start)
        invariant Contents() == old(Contents()) + Range(start, i - start)
      {
        AddRange(old(Contents()), start, i - start);
        Set(i);
        i := i + 1;
      }
    }

    method ClearBits(start: Word, count: Word)
      requires Valid()
      modifies bits
      ensures Contents() == AfterClearBits(old(Contents()), size, start, count)
    {
      hide Contents, BitAt;
      var end := Plus(start, count);
      if end > size { return; }
      var i: nat := start;
      while i < end
        invariant start <= i && (i <= end || i == start)
        invariant Contents() == old(Contents()) - Range(start, i - start)
      {
        DropRange(old(Contents()), start, i - start);
        Reset(i);
        i := i + 1;
      }
    }
  }
}
