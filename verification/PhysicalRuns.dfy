/** What the physical allocator promises over whole runs, and exactly when one call keeps the promise. */
module PhysicalRuns {
  import opened Words
  import opened Bitmaps
  import opened PhysicalMemory
  import opened Ledger

  /** What a caller of AllocatePages relies on: 0 and no change, or an aligned address whose frames were free, lie in
      the bitmap and are now the only new ones in use. */
  ghost predicate Honest(used: set<nat>, count: Word) {
    var (used', address) := AfterAllocate(used, 0, count);
    (address == 0 && used' == used) ||
    (address != 0 && address % 0x1000 == 0 &&
     RunFits(used, SIZE, address / 0x1000, count) && used' == used + Range(address / 0x1000, count))
  }

  /** The search succeeds with a full run, or it fails outright because the last frame is in use. */
  ghost predicate Grantable(used: set<nat>, count: Word) {
    count == 0 || Fits(used, SIZE, count) || SIZE - 1 in used
  }

  /** A found frame is answered with its address; the answer is honest exactly when the run it begins fits. */
  lemma FoundRunIsHonestIff(used: set<nat>, count: Word)
    requires 0 in used && count > 0 && Search(used, SIZE, count) >= 0
    ensures Honest(used, count) <==> RunFits(used, SIZE, Search(used, SIZE, count), count)
  {
    FoundIsClear(used, count);
    FrameZeroIsNotFound(used, count);
    var first := Search(used, SIZE, count);
    hide SearchResult, Search;
    assert PageAddress(0, first) == first * 0x1000;
    if first + count > SIZE {
      assert AfterAllocate(used, 0, count) == (used, first * 0x1000);
    } else {
      assert first in Range(first, count);
    }
  }

  /** With frame 0 in use, AllocatePages is honest exactly when the request is grantable: a request that fits nowhere
      while the last frame is free is answered with frames that stay free. */
  lemma AllocateIsHonestIffGrantable(used: set<nat>, count: Word)
    requires 0 in used
    ensures Honest(used, count) <==> Grantable(used, count)
  {
    if count > 0 {
      SearchFindsLowestOrOverruns(used, SIZE, count);
      if Search(used, SIZE, count) >= 0 {
        FoundRunIsHonestIff(used, count);
        hide Honest, Search;
      }
    }
  }

  /** A search that does not come back empty points at a clear position. */
  lemma FoundIsClear(used: set<nat>, count: Word)
    requires count > 0 && Search(used, SIZE, count) >= 0
    ensures Search(used, SIZE, count) < SIZE && Search(used, SIZE, count) !in used
    ensures !Fits(used, SIZE, count) ==> Search(used, SIZE, count) + count > SIZE
  {
    SearchFindsLowestOrOverruns(used, SIZE, count);
  }

  lemma FrameZeroIsNotFound(used: set<nat>, count: Word)
    requires 0 in used && count > 0
    ensures Search(used, SIZE, count) != 0
  {
    if Search(used, SIZE, count) >= 0 { FoundIsClear(used, count); }
  }

  /** A request that fits gets the lowest run of frames. */
  lemma FittingRequestIsGranted(used: set<nat>, count: Word) returns (frame: nat)
    requires 0 in used && count > 0 && Fits(used, SIZE, count)
    ensures RunFits(used, SIZE, frame, count) && frame > 0
    ensures AfterAllocate(used, 0, count) == (used + Range(frame, count), frame * 0x1000)
  {
    frame := Search(used, SIZE, count);
    SearchFindsLowestOrOverruns(used, SIZE, count);
    FrameZeroIsNotFound(used, count);
  }

  /** For every start address a fitting request is answered with the address of the lowest run, and giving that back
      restores the bitmap exactly when the address is not 0, which the caller takes for a failure. */
  lemma AllocateAtAnyStart(used: set<nat>, start: Word, count: Word) returns (frame: nat)
    requires count > 0 && Fits(used, SIZE, count)
    ensures RunFits(used, SIZE, frame, count)
    ensures var address := (start + frame * 0x1000) % 0x1_0000_0000;
      && AfterAllocate(used, start, count) == (used + Range(frame, count), address)
      && (AfterFree(used + Range(frame, count), start, address, count) == used <==> address != 0)
  {
    SearchFindsLowestOrOverruns(used, SIZE, count);
    frame := Search(used, SIZE, count);
    PageNumberOfByte(start, frame, 0);
    hide SearchResult, PageNumber;
    assert frame in Range(frame, count) && frame !in used;
    assert used + Range(frame, count) - Range(frame, count) == used;
  }

  /** Freeing address 0 changes nothing. */
  lemma FreeOfNullIsIgnored(used: set<nat>, start: Word, count: nat)
    ensures AfterFree(used, start, 0, count) == used
  {
  }

  /** The failing family is not empty: asking for the whole bitmap answers frame 1 again and again. */
  lemma OverrunningAllocation()
    ensures AfterAllocate({0}, 0, SIZE) == ({0}, 0x1000) && !Honest({0}, SIZE)
  {
    assert !Fits({0}, SIZE, SIZE) by {
      forall a: nat ensures !RunFits({0}, SIZE, a, SIZE) {
        assert a == 0 ==> a in {0};
      }
    }
    assert Trailing({0}, SIZE, 1);
    SearchIsDetermined({0}, SIZE, SIZE, 1);
    AllocateIsHonestIffGrantable({0}, SIZE);
  }

  datatype State = State(used: set<nat>, live: set<Block>)

  datatype Op = Allocate(count: Word) | Free(block: Block)

  ghost function Next(s: State, op: Op): State {
    match op
    case Allocate(count) =>
      var (used', address) := AfterAllocate(s.used, 0, count);
      if address == 0 then State(used', s.live)
      else State(used', s.live + {Block(0, address / 0x1000, count)})
    case Free(b) => State(AfterFree(s.used, 0, b.frame * 0x1000 % 0x1_0000_0000, b.count), s.live - {b})
  }

  /** Requests are grantable and only live allocations are freed. */
  ghost predicate Allowed(s: State, op: Op) {
    match op
    case Allocate(count) => Grantable(s.used, count)
    case Free(b) => b in s.live
  }

  ghost predicate AllowedRun(s: State, ops: seq<Op>)
    decreases |ops|
  {
    ops == [] || (Allowed(s, ops[0]) && AllowedRun(Next(s, ops[0]), ops[1..]))
  }

  ghost function AfterRun(s: State, ops: seq<Op>): State
    decreases |ops|
  {
    if ops == [] then s else AfterRun(Next(s, ops[0]), ops[1..])
  }

  /** The 16 MB below 0x1000000 are reserved; the rest of what is in use is owned by exactly one allocation. */
  ghost predicate Invariant(s: State, reserved: set<nat>) {
    && Range(0, 4096) <= reserved
    && s.used <= Range(0, SIZE + 1)
    && Accounts(s.used, reserved, s.live, Physical)
    && forall b :: b in s.live ==> 0 < b.count && b.frame + b.count <= SIZE
  }

  lemma StepKeepsInvariant(s: State, reserved: set<nat>, op: Op)
    requires Invariant(s, reserved) && Allowed(s, op)
    ensures Invariant(Next(s, op), reserved)
    ensures op.Allocate? ==> var address := AfterAllocate(s.used, 0, op.count).1;
      address != 0 ==> 0x100_0000 <= address && address + op.count * 0x1000 <= SIZE * 0x1000
  {
    match op
    case Allocate(count) => AllocateStep(s, reserved, count);
    case Free(b) => FreeStep(s, reserved, b);
  }

  lemma AllocateStep(s: State, reserved: set<nat>, count: Word)
    requires Invariant(s, reserved) && Grantable(s.used, count)
    ensures Invariant(Next(s, Allocate(count)), reserved)
    ensures var address := AfterAllocate(s.used, 0, count).1;
      address != 0 ==> 0x100_0000 <= address && address + count * 0x1000 <= SIZE * 0x1000
  {
    hide Grantable, Search, AfterSetBits, Covered;
    assert 0 in Range(0, 4096);
    AllocateIsHonestIffGrantable(s.used, count);
    var (used', address) := AfterAllocate(s.used, 0, count);
    if address != 0 {
      assert count > 0;
      var b := Block(0, address / 0x1000, count);
      assert Extent(b, Physical) !! s.used && b.frame in Extent(b, Physical);
      Grant(s.used, reserved, s.live, Physical, b);
      assert b.frame !in Range(0, 4096);
    }
  }

  lemma FreeStep(s: State, reserved: set<nat>, b: Block)
    requires Invariant(s, reserved) && b in s.live
    ensures Invariant(Next(s, Free(b)), reserved)
  {
    hide Covered, AfterFree, Extent;
    Revoke(s.used, reserved, s.live, Physical, b);
    FreeIsExact(s.used, reserved, b);
  }

  /** Freeing the frames of an allocation clears exactly them. */
  lemma FreeIsExact(used: set<nat>, reserved: set<nat>, b: Block)
    requires Range(0, 4096) <= reserved && Extent(b, Physical) !! reserved
    requires 0 < b.count && b.frame + b.count <= SIZE
    ensures b.frame >= 4096 && b.frame * 0x1000 < 0x1_0000_0000
    ensures AfterFree(used, 0, b.frame * 0x1000, b.count) == used - Extent(b, Physical)
  {
    assert b.frame in Extent(b, Physical);
    assert b.frame !in Range(0, 4096);
    assert PageNumber(0, b.frame * 0x1000) == b.frame;
  }

  /** In every allowed run live allocations stay pairwise disjoint and apart from the reserved frames, and free, live
      and reserved frames add up to the whole bitmap. */
  lemma {:induction false} RunsKeepInvariant(s: State, reserved: set<nat>, ops: seq<Op>)
    requires Invariant(s, reserved) && AllowedRun(s, ops)
    ensures var e := AfterRun(s, ops);
      && Invariant(e, reserved)
      && |Range(0, SIZE + 1) - e.used| + |Covered(e.live, Physical)| + |reserved| == SIZE + 1
    decreases |ops|
  {
    if ops == [] {
      Conservation(s.used, reserved, s.live, Physical, SIZE + 1);
    } else {
      StepKeepsInvariant(s, reserved, ops[0]);
      RunsKeepInvariant(Next(s, ops[0]), reserved, ops[1..]);
    }
  }
}
