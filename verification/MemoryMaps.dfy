/** The boot loader's memory map and the frames that are free at the start: which bytes are available, which frames the
    code releases, and exactly when the two agree. */
module MemoryMaps {
  import opened Words
  import opened Bitmaps
  import opened PhysicalMemory

  /** All bytes of frame p lie in the region, and it is available. Nothing is truncated here. */
  ghost predicate Covers(r: Region, start: Word, p: nat) {
    r.available && r.base <= start + p * 0x1000 && start + (p + 1) * 0x1000 <= r.base + r.length
  }

  ghost predicate Available(regions: seq<Region>, start: Word, p: nat) {
    exists r :: r in regions && Covers(r, start, p)
  }

  /** The frames that InitFreeMemory hands out for one region: the truncated region's pages, if they fit. */
  ghost predicate Releases(r: Region, start: Word, p: nat) {
    var first, count := PageNumber(start, r.base % 0x1_0000_0000), r.length % 0x1_0000_0000 / 0x1000;
    r.available && r.length > 0 && first + count <= SIZE && p in Range(first, count)
  }

  ghost predicate Released(regions: seq<Region>, start: Word, p: nat) {
    exists r :: r in regions && Releases(r, start, p)
  }

  /** Whatever the bitmap held before, the released ranges are free afterwards and nothing else changes; when every
      available region is exact, those are the available frames. */
  lemma {:induction false} RegionsReleaseExactly(used: set<nat>, start: Word, regions: seq<Region>, p: nat)
    ensures p in AfterRegions(used, start, regions) <==> p in used && !Released(regions, start, p)
    ensures AllExact(regions, start) && p < SIZE ==>
      (p in AfterRegions(used, start, regions) <==> p in used && !Available(regions, start, p))
  {
    if AllExact(regions, start) && p < SIZE { ExactRegionsRelease(regions, start, p); }
    hide AllExact, Available;
    if regions != [] {
      var front, last := regions[..|regions| - 1], regions[|regions| - 1];
      assert regions == front + [last];
      RegionsReleaseExactly(used, start, front, p);
      assert Released(regions, start, p) <==> Released(front, start, p) || Releases(last, start, p) by {
        if Releases(last, start, p) { assert last in regions; }
        if Released(front, start, p) { var r :| r in front && Releases(r, start, p); assert r in regions; }
      }
    }
  }

  /** The first frame that lies in the region, if any does. */
  function FirstCovered(r: Region, start: Word): nat {
    if r.base <= start then 0 else (r.base - start + 0xFFF) / 0x1000
  }

  /** One past the last frame of the bitmap that lies in the region, if any does. */
  function EndCovered(r: Region, start: Word): nat {
    var end := if r.base + r.length < start then 0 else (r.base + r.length - start) / 0x1000;
    if end < SIZE then end else SIZE
  }

  /** The truncated page range is not released and no frame lies in the region, or it is released and holds the frames
      from the first to the last that lie in the region. */
  predicate Exact(r: Region, start: Word) {
    var first, count := PageNumber(start, r.base % 0x1_0000_0000), r.length % 0x1_0000_0000 / 0x1000;
    if r.length > 0 && count > 0 && first + count <= SIZE
    then FirstCovered(r, start) == first && EndCovered(r, start) == first + count
    else EndCovered(r, start) <= FirstCovered(r, start)
  }

  lemma CoveredRange(r: Region, start: Word, p: nat)
    requires r.available && p < SIZE
    ensures Covers(r, start, p) <==> FirstCovered(r, start) <= p < EndCovered(r, start)
  {
  }

  /** An available region releases exactly the frames that lie in it if and only if it is exact. */
  lemma RegionIsExactIff(r: Region, start: Word)
    requires r.available
    ensures (forall p: nat :: p < SIZE ==> (Releases(r, start, p) <==> Covers(r, start, p))) <==> Exact(r, start)
  {
    var first, count := PageNumber(start, r.base % 0x1_0000_0000), r.length % 0x1_0000_0000 / 0x1000;
    var low, end := FirstCovered(r, start), EndCovered(r, start);
    forall p: nat | p < SIZE ensures Covers(r, start, p) <==> low <= p < end { CoveredRange(r, start, p); }
    hide Covers, FirstCovered, EndCovered, PageNumber;
    if !Exact(r, start) {
      if low < end {
        assert Covers(r, start, low) && Covers(r, start, end - 1);
        assert low > 0 ==> !Covers(r, start, low - 1);
        assert end < SIZE ==> !Covers(r, start, end);
      }
      if r.length > 0 && count > 0 && first + count <= SIZE {
        assert Releases(r, start, first) && Releases(r, start, first + count - 1);
      }
    }
  }

  ghost predicate AllExact(regions: seq<Region>, start: Word) {
    forall r :: r in regions && r.available ==> Exact(r, start)
  }

  /** No frame is released by one region and lies in, or is released by, another. */
  ghost predicate Separate(regions: seq<Region>, start: Word) {
    forall r, q, p: nat :: r in regions && q in regions && p < SIZE && r != q ==>
      !(Claims(r, start, p) && Claims(q, start, p))
  }

  ghost predicate Claims(r: Region, start: Word, p: nat) {
    Releases(r, start, p) || Covers(r, start, p)
  }

  /** What a start state is for: of the frames of the bitmap, exactly the available ones are free. */
  ghost predicate Right(used: set<nat>, regions: seq<Region>, start: Word) {
    forall p: nat :: p < SIZE ==> (p !in used <==> Available(regions, start, p))
  }

  lemma ExactRegionsRelease(regions: seq<Region>, start: Word, p: nat)
    requires AllExact(regions, start) && p < SIZE
    ensures Released(regions, start, p) <==> Available(regions, start, p)
  {
    forall r | r in regions ensures Releases(r, start, p) <==> Covers(r, start, p) {
      if r.available { RegionIsExactIff(r, start); }
    }
  }

  lemma InexactRegionIsSeen(regions: seq<Region>, start: Word, r: Region) returns (p: nat)
    requires Separate(regions, start) && r in regions && r.available && !Exact(r, start)
    ensures p < SIZE && !(Released(regions, start, p) <==> Available(regions, start, p))
  {
    RegionIsExactIff(r, start);
    p :| p < SIZE && !(Releases(r, start, p) <==> Covers(r, start, p));
    assert Claims(r, start, p);
    forall q | q in regions && q != r ensures !Releases(q, start, p) && !Covers(q, start, p) {
      assert !Claims(q, start, p);
    }
  }

  /** Had SetAll set every bit, exactly the available frames would be free whenever every available region is exact;
      on a map whose regions do not get in each other's way, only then. */
  lemma FullBitmapFreesExactlyAvailable(start: Word, regions: seq<Region>)
    ensures Right(AfterRegions(Range(0, SIZE + 1), start, regions), regions, start)
            <==> forall p: nat :: p < SIZE ==> (Released(regions, start, p) <==> Available(regions, start, p))
    ensures AllExact(regions, start) ==> Right(AfterRegions(Range(0, SIZE + 1), start, regions), regions, start)
    ensures Separate(regions, start) ==>
      (Right(AfterRegions(Range(0, SIZE + 1), start, regions), regions, start) <==> AllExact(regions, start))
  {
    var used := AfterRegions(Range(0, SIZE + 1), start, regions);
    forall p: nat | p < SIZE ensures p !in used <==> Released(regions, start, p) {
      RegionsReleaseExactly(Range(0, SIZE + 1), start, regions, p);
    }
    hide AfterRegions, Released, Available, Exact;
    if AllExact(regions, start) {
      forall p: nat | p < SIZE ensures p !in used <==> Available(regions, start, p) {
        ExactRegionsRelease(regions, start, p);
      }
    } else if Separate(regions, start) {
      var r :| r in regions && r.available && !Exact(r, start);
      var p := InexactRegionIsSeen(regions, start, r);
      assert !Right(used, regions, start);
    }
  }

  /** As written, exactly the available frames are free at the start if and only if all frames that SetAll skips are
      available, and of those it marks the available ones are released and no other. */
  lemma InitialFreeSetIsAvailableIff(start: Word, regions: seq<Region>)
    ensures Right(AfterRegions(AfterSetAll(SIZE), start, regions), regions, start)
            <==> (forall p: nat :: p < SIZE && p % 8 != 0 ==> Available(regions, start, p))
                 && forall p: nat :: p < SIZE && p % 8 == 0 ==> (Released(regions, start, p) <==> Available(regions, start, p))
  {
    forall p: nat | p < SIZE ensures p !in AfterRegions(AfterSetAll(SIZE), start, regions)
                                     <==> p % 8 != 0 || Released(regions, start, p) {
      RegionsReleaseExactly(AfterSetAll(SIZE), start, regions, p);
    }
  }

  /** When every available region is exact, that is so exactly when every other frame number is divisible by eight. */
  lemma ExactMapIsRightIff(start: Word, regions: seq<Region>)
    requires AllExact(regions, start)
    ensures Right(AfterRegions(AfterSetAll(SIZE), start, regions), regions, start)
            <==> forall p: nat :: p < SIZE ==> Available(regions, start, p) || p % 8 == 0
  {
    InitialFreeSetIsAvailableIff(start, regions);
    hide AfterRegions, Released, Available, AllExact;
    forall p: nat | p < SIZE ensures Released(regions, start, p) <==> Available(regions, start, p) {
      ExactRegionsRelease(regions, start, p);
    }
  }

  /** The available regions are whole pages that lie in the bitmap and below 4 GB. */
  ghost predicate Fitting(regions: seq<Region>) {
    var low := LowestBase(regions);
    && low % 0x1_0000_0000 % 0x1000 == 0
    && forall r :: r in regions && r.available && r.length > 0 ==>
         && r.base % 0x1000 == 0 && r.length % 0x1000 == 0
         && r.base + r.length <= low + SIZE * 0x1000 && r.base + r.length <= 0x1_0000_0000
  }

  /** On a map of page-aligned available regions that fit the bitmap, a frame is released exactly when all of its bytes
      are available. */
  lemma FittingMapIsExact(regions: seq<Region>)
    requires (forall r :: r in regions ==> r.base < 0x1_0000_0000_0000_0000) && Fitting(regions)
    ensures AllExact(regions, LowestBase(regions) % 0x1_0000_0000)
  {
    LowestBaseIsMinimum(regions);
    var low := LowestBase(regions);
    hide LowestBase;
    forall r | r in regions && r.available ensures Exact(r, low % 0x1_0000_0000) {
      if r.length == 0 {
        EmptyRegionIsExact(r, low % 0x1_0000_0000);
      } else {
        FittingRegionIsExact(r, low);
      }
    }
  }

  lemma EmptyRegionIsExact(r: Region, start: Word)
    requires r.length == 0
    ensures Exact(r, start)
  {
  }

  lemma FittingRegionIsExact(r: Region, start: Word)
    requires r.length > 0 && start % 0x1000 == 0 && r.base % 0x1000 == 0 && r.length % 0x1000 == 0
    requires start <= r.base && r.base + r.length <= start + SIZE * 0x1000 && r.base + r.length <= 0x1_0000_0000
    ensures Exact(r, start)
  {
    var i, n := (r.base - start) / 0x1000, r.length / 0x1000;
    PagesOf(r.base - start);
    PagesOf(r.length);
    PageRangeIsExact(r, start, i, n);
  }

  lemma PagesOf(x: nat)
    requires x % 0x1000 == 0
    ensures x == x / 0x1000 * 0x1000
  {
  }

  lemma PageRangeIsExact(r: Region, start: Word, i: nat, n: nat)
    requires n > 0 && i + n <= SIZE && start + (i + n) * 0x1000 <= 0x1_0000_0000
    requires r.base == start + i * 0x1000 && r.length == n * 0x1000
    ensures Exact(r, start)
  {
    FirstPage(r, start, i);
    EndPage(r, start, i + n);
    WholePages(i);
    WholePages(n);
    hide FirstCovered, EndCovered;
    assert PageNumber(start, r.base) == i;
  }

  lemma FirstPage(r: Region, start: Word, i: nat)
    requires r.base == start + i * 0x1000
    ensures FirstCovered(r, start) == i
  {
    WholePages(i);
  }

  lemma EndPage(r: Region, start: Word, end: nat)
    requires r.base + r.length == start + end * 0x1000 && end <= SIZE
    ensures EndCovered(r, start) == end
  {
    WholePages(end);
  }

  lemma WholePages(i: nat)
    ensures i * 0x1000 / 0x1000 == i && (i * 0x1000 + 0xFFF) / 0x1000 == i
  {
  }

  /** What Init leaves for such a map, with every bit set first and as written. */
  lemma FittingMapIsRight(regions: seq<Region>)
    requires (forall r :: r in regions ==> r.base < 0x1_0000_0000_0000_0000) && Fitting(regions)
    ensures var start := LowestBase(regions) % 0x1_0000_0000;
      && Right(AfterRegions(Range(0, SIZE + 1), start, regions), regions, start)
      && (Right(AfterRegions(AfterSetAll(SIZE), start, regions), regions, start)
          <==> forall p: nat :: p < SIZE ==> Available(regions, start, p) || p % 8 == 0)
  {
    FittingMapIsExact(regions);
    FullBitmapFreesExactlyAvailable(LowestBase(regions) % 0x1_0000_0000, regions);
    ExactMapIsRightIff(LowestBase(regions) % 0x1_0000_0000, regions);
  }

  /** With no available region at all, frame 1 still counts as free. */
  lemma UnavailableFrameIsFree()
    ensures 1 !in AfterRegions(AfterSetAll(SIZE), 0, [Region(0, 0x8000_0000, false)])
    ensures !Available([Region(0, 0x8000_0000, false)], 0, 1)
  {
    RegionsReleaseExactly(AfterSetAll(SIZE), 0, [Region(0, 0x8000_0000, false)], 1);
  }

  /** A region above 4 GB is released at its address modulo 2^32: all frames of the bitmap count as free, whether SetAll
      sets every bit or not, and none of them is available. */
  lemma HighRegionFreesLowFrames(p: nat)
    requires p < SIZE
    ensures var regions := [Region(0, 0x1000, false), Region(0x1_0000_0000, 0x2000_0000, true)];
      && LowestBase(regions) == 0 && !Available(regions, 0, p) && !Exact(regions[1], 0)
      && p !in AfterRegions(Range(0, SIZE + 1), 0, regions) && p !in AfterRegions(AfterSetAll(SIZE), 0, regions)
  {
    var regions := [Region(0, 0x1000, false), Region(0x1_0000_0000, 0x2000_0000, true)];
    assert regions[..1][..0] == [] && regions[..1][0] == regions[0];
    assert LowestBase(regions[..1]) == 0;
    assert Releases(regions[1], 0, p);
    RegionsReleaseExactly(Range(0, SIZE + 1), 0, regions, p);
    RegionsReleaseExactly(AfterSetAll(SIZE), 0, regions, p);
  }

  /** A region that does not begin at a page boundary is released from the page before on. */
  lemma UnalignedRegionFreesTooMuch()
    ensures var regions := [Region(0, 0x800, false), Region(0x800, 0x1000, true)];
      !Available(regions, 0, 0) && !Exact(regions[1], 0) && 0 !in AfterRegions(Range(0, SIZE + 1), 0, regions)
  {
    var regions := [Region(0, 0x800, false), Region(0x800, 0x1000, true)];
    assert Releases(regions[1], 0, 0);
    RegionsReleaseExactly(Range(0, SIZE + 1), 0, regions, 0);
  }
}
