/** Who owns which pages: allocations as extents of virtual pages and of frames, and what it means for a bitmap to
    account for them. */
module Ledger {
  import opened Bitmaps

  datatype Side = Virtual | Physical

  /** One allocation: `count` pages from `page` on, backed by the frames from `frame` on. */
  datatype Block = Block(page: nat, frame: nat, count: nat)

  function Extent(b: Block, side: Side): set<nat> {
    Range(if side.Virtual? then b.page else b.frame, b.count)
  }

  ghost function Covered(live: set<Block>, side: Side): set<nat> {
    set b, p | b in live && p in Extent(b, side) :: p
  }

  /** The used set is the disjoint union of the reserved set and of the extents of the live allocations. */
  ghost predicate Accounts(used: set<nat>, reserved: set<nat>, live: set<Block>, side: Side) {
    && used == reserved + Covered(live, side)
    && reserved !! Covered(live, side)
    && (forall b, c :: b in live && c in live && b != c ==> Extent(b, side) !! Extent(c, side))
  }

  lemma Grant(used: set<nat>, reserved: set<nat>, live: set<Block>, side: Side, b: Block)
    requires Accounts(used, reserved, live, side) && Extent(b, side) !! used
    ensures Accounts(used + Extent(b, side), reserved, live + {b}, side)
  {
    assert Covered(live + {b}, side) == Covered(live, side) + Extent(b, side);
    forall c | c in live ensures Extent(b, side) !! Extent(c, side) {
      assert Extent(c, side) <= Covered(live, side);
    }
  }

  lemma Revoke(used: set<nat>, reserved: set<nat>, live: set<Block>, side: Side, b: Block)
    requires Accounts(used, reserved, live, side) && b in live
    ensures Extent(b, side) <= used && Extent(b, side) !! reserved
    ensures Accounts(used - Extent(b, side), reserved, live - {b}, side)
  {
    assert Extent(b, side) <= Covered(live, side);
    assert Covered(live - {b}, side) == Covered(live, side) - Extent(b, side) by {
      forall p | p in Covered(live, side) - Extent(b, side) ensures p in Covered(live - {b}, side) {
        var c :| c in live && p in Extent(c, side);
      }
    }
  }

  lemma {:induction false} RangeSize(start: nat, count: nat)
    ensures |Range(start, count)| == count
  {
    if count == 0 {
      assert Range(start, count) == {};
    } else {
      RangeSize(start, count - 1);
      assert Range(start, count) == Range(start, count - 1) + {start + count - 1};
    }
  }

  /** Free, live and reserved pages add up to the whole. */
  lemma Conservation(used: set<nat>, reserved: set<nat>, live: set<Block>, side: Side, size: nat)
    requires Accounts(used, reserved, live, side) && used <= Range(0, size)
    ensures |Range(0, size) - used| + |Covered(live, side)| + |reserved| == size
  {
    RangeSize(0, size);
    assert Range(0, size) == (Range(0, size) - used) + used;
  }
}
