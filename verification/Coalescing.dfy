/** The merges of Free as intended: the lower header takes over the upper block, header bytes included. Over every run
    of requests and returns the heap then stays tiled and no two neighbours are free. */
module Coalescing {
  import opened Words
  import opened Heaps

  /** `a` has a next block, and the block after that one, if there is any, has a header. */
  ghost predicate HasNext(nodes: map<Word, Node>, a: Word) {
    a in nodes && var next := nodes[a].next;
    next in nodes && next != a && nodes[next].next != next && (nodes[next].next != 0 ==> nodes[next].next in nodes)
  }

  /** The header at `a` takes over the next block, is linked past it, and the next header is gone. */
  ghost function Absorb(nodes: map<Word, Node>, a: Word): map<Word, Node>
    requires HasNext(nodes, a)
  {
    var next := nodes[a].next;
    var after := nodes[next].next;
    var grown := nodes[a := nodes[a].(size := Wrap(nodes[a].size + HEADER + nodes[next].size), next := after)];
    (if after != 0 then grown[after := grown[after].(prev := a)] else grown) - {next}
  }

  lemma StaysIn<T>(s: seq<T>, k: nat, a: T)
    requires k < |s| && a in s && a != s[k]
    ensures a in Without(s, k)
  {
    var i :| 0 <= i < |s| && s[i] == a;
    assert Without(s, k)[if i < k then i else i - 1] == a;
  }

  lemma BlockHasNext(h: Heap, blocks: seq<Word>, k: nat)
    requires Tiled(h, blocks) && k + 1 < |blocks|
    ensures HasNext(h.nodes, blocks[k]) && h.nodes[blocks[k]].next == blocks[k + 1]
    ensures h.nodes[blocks[k + 1]].next == if k + 2 < |blocks| then blocks[k + 2] else 0
    ensures blocks[k] + HEADER + h.nodes[blocks[k]].size + HEADER + h.nodes[blocks[k + 1]].size < 0x1_0000_0000
  {
    AddressesIncrease(h, blocks);
    assert InOrder(h, blocks, k) && InOrder(h, blocks, k + 1);
    if k + 2 < |blocks| { assert InOrder(h, blocks, k + 2); }
  }

  /** The headers after Absorb, one by one. */
  lemma AbsorbedHeaders(nodes: map<Word, Node>, a: Word)
    requires HasNext(nodes, a) && nodes[nodes[a].next].next != a
    ensures var r, next := Absorb(nodes, a), nodes[a].next;
      var after := nodes[next].next;
      && r.Keys == nodes.Keys - {next} && a in r && (after != 0 ==> after in r)
      && r[a] == nodes[a].(size := Wrap(nodes[a].size + HEADER + nodes[next].size), next := after)
      && (after != 0 ==> r[after] == nodes[after].(prev := a))
      && forall b :: b in r && b != a && b != after ==> r[b] == nodes[b]
  {
  }

  lemma AbsorbedBlock(h: Heap, blocks: seq<Word>, k: nat, j: nat)
    requires Tiled(h, blocks) && k + 1 < |blocks| && j < |blocks| && j != k + 1
    ensures HasNext(h.nodes, blocks[k]) && blocks[j] in h.nodes && blocks[j] in Absorb(h.nodes, blocks[k])
    ensures blocks[k + 1] in h.nodes
    ensures var node, upper := h.nodes[blocks[j]], h.nodes[blocks[k + 1]];
      Absorb(h.nodes, blocks[k])[blocks[j]] ==
        if j == k then node.(size := Wrap(node.size + HEADER + upper.size), next := upper.next)
        else if j == k + 2 then node.(prev := blocks[k]) else node
  {
    AddressesIncrease(h, blocks);
    BlockHasNext(h, blocks, k);
    AbsorbedHeaders(h.nodes, blocks[k]);
    assert InOrder(h, blocks, j);
    hide *;
  }

  lemma AbsorbKeepsOrder(h: Heap, blocks: seq<Word>, k: nat, i: nat)
    requires Tiled(h, blocks) && k + 1 < |blocks| && i < |blocks| - 1
    ensures HasNext(h.nodes, blocks[k]) && InOrder(h.(nodes := Absorb(h.nodes, blocks[k])), Without(blocks, k + 1), i)
  {
    BlockHasNext(h, blocks, k);
    AbsorbedBlock(h, blocks, k, if i <= k then i else i + 1);
    assert InOrder(h, blocks, k) && InOrder(h, blocks, k + 1) && InOrder(h, blocks, if i <= k then i else i + 1);
    hide Absorb, Tiled, HasNext;
  }

  /** Absorbing the next block keeps a heap tiled: the absorbed address leaves the tiling, and no other block changes
      its size or its state. */
  lemma AbsorbKeepsTiling(h: Heap, blocks: seq<Word>, k: nat)
    requires Tiled(h, blocks) && k + 1 < |blocks|
    ensures HasNext(h.nodes, blocks[k])
    ensures var g := h.(nodes := Absorb(h.nodes, blocks[k]));
      && Tiled(g, Without(blocks, k + 1)) && g.nodes.Keys == h.nodes.Keys - {blocks[k + 1]}
      && forall a :: a in g.nodes ==>
           g.nodes[a].state == h.nodes[a].state && (a != blocks[k] ==> g.nodes[a].size == h.nodes[a].size)
  {
    BlockHasNext(h, blocks, k);
    AddressesIncrease(h, blocks);
    AbsorbedHeaders(h.nodes, blocks[k]);
    var g, others := h.(nodes := Absorb(h.nodes, blocks[k])), Without(blocks, k + 1);
    hide Absorb, HasNext, InOrder;
    forall a | a in g.nodes ensures a in others { StaysIn(blocks, k + 1, a); }
    hide Without;
    assert |others| == |blocks| - 1 && others[0] == blocks[0] by { WithoutAt(blocks, k + 1, 0); }
    forall i | 0 <= i < |others| ensures InOrder(g, others, i) {
      AbsorbKeepsOrder(h, blocks, k, i);
    }
  }

  /** Block k takes over block k + 1. */
  ghost function Merge(s: Machine, k: nat): (t: Machine)
    requires Tiled(s.heap, s.blocks) && k + 1 < |s.blocks|
    ensures Tiled(t.heap, t.blocks)
  {
    AbsorbKeepsTiling(s.heap, s.blocks, k);
    Machine(s.heap.(nodes := Absorb(s.heap.nodes, s.blocks[k])), Without(s.blocks, k + 1))
  }

  ghost predicate BothFree(s: Machine, k: int)
    requires Tiled(s.heap, s.blocks)
  {
    IsFree(s.heap, s.blocks, k) && IsFree(s.heap, s.blocks, k + 1)
  }

  ghost function MergeIfFree(s: Machine, k: int): (t: Machine)
    requires Tiled(s.heap, s.blocks)
    ensures Tiled(t.heap, t.blocks)
  {
    if BothFree(s, k) then Merge(s, k) else s
  }

  ghost function Marked(s: Machine, k: nat): (t: Machine)
    requires Tiled(s.heap, s.blocks) && k < |s.blocks|
    ensures t.blocks == s.blocks
    ensures Tiled(t.heap, t.blocks)
  {
    assert InOrder(s.heap, s.blocks, k);
    var t := Machine(s.heap.(nodes := s.heap.nodes[s.blocks[k] := s.heap.nodes[s.blocks[k]].(state := Free)]), s.blocks);
    MarkKeepsTiling(s.heap, s.blocks, k);
    t
  }

  lemma MarkKeepsTiling(h: Heap, blocks: seq<Word>, k: nat)
    requires Tiled(h, blocks) && k < |blocks|
    ensures blocks[k] in h.nodes
    ensures Tiled(h.(nodes := h.nodes[blocks[k] := h.nodes[blocks[k]].(state := Free)]), blocks)
  {
    assert InOrder(h, blocks, k);
    var g := h.(nodes := h.nodes[blocks[k] := h.nodes[blocks[k]].(state := Free)]);
    AddressesIncrease(h, blocks);
    forall i | 0 <= i < |blocks| ensures InOrder(g, blocks, i) {
      assert InOrder(h, blocks, i);
    }
  }

  /** Free as intended: the block is marked, takes over a free next block and is taken over by a free previous one. */
  ghost function GivenBack(s: Machine, k: nat): (t: Machine)
    requires Tiled(s.heap, s.blocks) && k < |s.blocks|
    ensures Tiled(t.heap, t.blocks)
  {
    MergeIfFree(MergeIfFree(Marked(s, k), k), k - 1)
  }

  /** The live blocks: their sizes by header address. */
  ghost function Live(h: Heap): map<Word, Word> {
    map a | a in h.nodes && h.nodes[a].state == Reserved :: h.nodes[a].size
  }

  ghost predicate Coalesced(s: Machine)
    requires Tiled(s.heap, s.blocks)
  {
    forall i :: !BothFree(s, i)
  }

  lemma MergeKeepsLive(s: Machine, k: int)
    requires Tiled(s.heap, s.blocks)
    ensures Live(MergeIfFree(s, k).heap) == Live(s.heap)
  {
    if BothFree(s, k) {
      AbsorbKeepsTiling(s.heap, s.blocks, k);
      assert InOrder(s.heap, s.blocks, k) && InOrder(s.heap, s.blocks, k + 1);
    }
  }

  /** Which blocks are free after a merge. */
  lemma FreeAfterMerge(s: Machine, k: int, i: int)
    requires Tiled(s.heap, s.blocks) && BothFree(s, k)
    ensures var t := Merge(s, k); IsFree(t.heap, t.blocks, i) <==> IsFree(s.heap, s.blocks, if i <= k then i else i + 1)
  {
    AbsorbKeepsTiling(s.heap, s.blocks, k);
    var t := Merge(s, k);
    if 0 <= i < |t.blocks| {
      assert InOrder(t.heap, t.blocks, i) && InOrder(s.heap, s.blocks, if i <= k then i else i + 1);
    }
  }

  /** After the merge at k no two neighbours are free that were not before, and those at k are no longer. */
  lemma MergeLeaves(s: Machine, k: int, i: int)
    requires Tiled(s.heap, s.blocks) && BothFree(MergeIfFree(s, k), i)
    ensures if i < k then BothFree(s, i) else BothFree(s, i + 1) || (i > k && BothFree(s, i))
  {
    if BothFree(s, k) {
      FreeAfterMerge(s, k, i);
      FreeAfterMerge(s, k, i + 1);
    }
  }

  lemma MarkedLeaves(s: Machine, k: nat, i: int)
    requires Tiled(s.heap, s.blocks) && k < |s.blocks| && Coalesced(s) && BothFree(Marked(s, k), i)
    ensures i == k || i == k - 1
  {
    FreeAfterMark(s, k, i);
    FreeAfterMark(s, k, i + 1);
    assert !BothFree(s, i);
    hide Marked, Tiled;
  }

  lemma GivenBackIsCoalesced(s: Machine, k: nat)
    requires Tiled(s.heap, s.blocks) && k < |s.blocks| && Coalesced(s)
    ensures Coalesced(GivenBack(s, k))
  {
    hide Tiled, Marked, MergeIfFree, BothFree, IsFree;
    var t := Marked(s, k);
    var u := MergeIfFree(t, k);
    forall i ensures !BothFree(GivenBack(s, k), i) {
      if BothFree(GivenBack(s, k), i) {
        MergeLeaves(u, k - 1, i);
        forall j | BothFree(u, j) ensures j == k - 1 {
          MergeLeaves(t, k, j);
          forall l | BothFree(t, l) ensures l == k || l == k - 1 { MarkedLeaves(s, k, l); }
        }
      }
    }
  }

  /** Giving back a live block of a heap without free neighbours keeps the heap tiled and without free neighbours, and
      every other live block stays live at its address with its size. */
  lemma GiveBackIsExact(s: Machine, k: nat)
    requires Tiled(s.heap, s.blocks) && k < |s.blocks| && Coalesced(s)
    ensures Coalesced(GivenBack(s, k)) && Live(GivenBack(s, k).heap) == Live(s.heap) - {s.blocks[k]}
    ensures GivenBack(s, k).heap == s.heap.(nodes := GivenBack(s, k).heap.nodes)
  {
    hide Tiled, Marked, MergeIfFree, BothFree, Live, Coalesced;
    GivenBackIsCoalesced(s, k);
    OnlyHeadersChange(s, k);
    MarkedIsNotLive(s, k);
    MergeKeepsLive(Marked(s, k), k);
    MergeKeepsLive(MergeIfFree(Marked(s, k), k), k - 1);
  }

  lemma OnlyHeadersChange(s: Machine, k: nat)
    requires Tiled(s.heap, s.blocks) && k < |s.blocks|
    ensures GivenBack(s, k).heap == s.heap.(nodes := GivenBack(s, k).heap.nodes)
  {
    hide Tiled, Absorb, Without;
  }

  lemma FreeAfterMark(s: Machine, k: nat, i: int)
    requires Tiled(s.heap, s.blocks) && k < |s.blocks|
    ensures var t := Marked(s, k); IsFree(t.heap, t.blocks, i) <==> i == k || IsFree(s.heap, s.blocks, i)
  {
    AddressesIncrease(s.heap, s.blocks);
  }

  lemma MarkedIsNotLive(s: Machine, k: nat)
    requires Tiled(s.heap, s.blocks) && k < |s.blocks|
    ensures Live(Marked(s, k).heap) == Live(s.heap) - {s.blocks[k]}
  {
    assert InOrder(s.heap, s.blocks, k);
  }

  /** A request is answered as Allocate does, if there is room, and else refused; a return names a payload. */
  datatype Op = Request(size: Word) | Return(payload: Word)

  /** Only null and live payloads are returned. Requests are not restricted. */
  ghost predicate Legal(s: Machine, op: Op) {
    op.Return? && op.payload != 0 ==> exists a :: a in Live(s.heap) && a + HEADER == op.payload
  }

  ghost function Answer(s: Machine, size: Word): Word
    requires Tiled(s.heap, s.blocks)
  {
    if HasRoom(s.heap, s.blocks, size) then AfterAllocate(s.heap, s.blocks, size).1 else 0
  }

  /** The number of the block with this payload. */
  ghost function BlockAt(s: Machine, payload: Word): (k: nat)
    requires Tiled(s.heap, s.blocks) && payload != 0 && Legal(s, Return(payload))
    ensures k < |s.blocks| && s.blocks[k] + HEADER == payload && s.blocks[k] in Live(s.heap)
  {
    var a :| a in Live(s.heap) && a + HEADER == payload;
    var k: nat :| k < |s.blocks| && s.blocks[k] == a;
    k
  }

  ghost function Step(s: Machine, op: Op): (t: Machine)
    requires Tiled(s.heap, s.blocks) && Legal(s, op)
    ensures Tiled(t.heap, t.blocks)
  {
    match op
    case Request(size) =>
      if HasRoom(s.heap, s.blocks, size) then TakeKeepsBlocks(s, size); Next(s, Take(size)) else s
    case Return(payload) =>
      if payload == 0 then s
      else
        GivenBack(s, BlockAt(s, payload))
  }

  /** What one call does to the live blocks: a granted request adds one that was not live and is large enough, a return
      removes its own, and all others stay at their address with their size. */
  ghost predicate LiveAfter(s: Machine, op: Op, t: Machine)
    requires Tiled(s.heap, s.blocks)
  {
    var live, live' := Live(s.heap), Live(t.heap);
    match op
    case Request(size) =>
      if size == 0 || !HasRoom(s.heap, s.blocks, size) then live' == live && Answer(s, size) == 0
      else
        exists a :: a !in live && a in live' && a + HEADER == Answer(s, size) && live' == live[a := live'[a]]
                    && if a == s.heap.current then live'[a] == size
                       else a in s.heap.nodes && live'[a] == s.heap.nodes[a].size >= size
    case Return(payload) =>
      if payload == 0 then live' == live
      else exists a :: a in live && a + HEADER == payload && live' == live - {a}
  }

  lemma LiveGrows(h: Heap, g: Heap, a: Word)
    requires a in g.nodes && g.nodes[a].state == Reserved && !(a in h.nodes && h.nodes[a].state == Reserved)
    requires forall b :: b != a ==> (b in g.nodes <==> b in h.nodes)
    requires forall b :: b != a && b in h.nodes ==> g.nodes[b].state == h.nodes[b].state && g.nodes[b].size == h.nodes[b].size
    ensures a !in Live(h) && Live(g) == Live(h)[a := g.nodes[a].size]
  {
  }

  lemma RequestAddsLive(s: Machine, size: Word)
    requires Tiled(s.heap, s.blocks) && size > 0 && HasRoom(s.heap, s.blocks, size)
    ensures var t, k := Next(s, Take(size)), Chosen(s.heap, s.blocks, size);
      && k < |t.blocks| && t.blocks[k] in t.heap.nodes && t.blocks[k] !in Live(s.heap)
      && Live(t.heap) == Live(s.heap)[t.blocks[k] := t.heap.nodes[t.blocks[k]].size]
      && if k == |s.blocks| then t.blocks[k] == s.heap.current && t.heap.nodes[t.blocks[k]].size == size
         else t.blocks[k] != s.heap.current && t.blocks[k] in s.heap.nodes
              && t.heap.nodes[t.blocks[k]].size == s.heap.nodes[t.blocks[k]].size
  {
    AddressesIncrease(s.heap, s.blocks);
    var t, k := Next(s, Take(size)), Chosen(s.heap, s.blocks, size);
    if k < |s.blocks| {
      assert InOrder(s.heap, s.blocks, k);
    } else if s.blocks != [] {
      assert InOrder(s.heap, s.blocks, |s.blocks| - 1);
    }
    hide InOrder, Live;
    LiveGrows(s.heap, t.heap, t.blocks[k]);
  }

  lemma RequestIsExact(s: Machine, size: Word)
    requires Tiled(s.heap, s.blocks) && Coalesced(s)
    ensures var t := Step(s, Request(size)); Coalesced(t) && LiveAfter(s, Request(size), t)
    ensures var t := Step(s, Request(size)); t.heap.start == s.heap.start && t.heap.end == s.heap.end
  {
    hide Chosen;
    if HasRoom(s.heap, s.blocks, size) {
      TakeKeepsBlocks(s, size);
      var t := Next(s, Take(size));
      forall i ensures !BothFree(t, i) {
        assert !BothFree(s, i);
        NothingFreed(s, size, i);
        NothingFreed(s, size, i + 1);
      }
      if size > 0 {
        TakeAnswersLowestFit(s, size);
        RequestAddsLive(s, size);
      }
    }
  }

  lemma NothingFreed(s: Machine, size: Word, i: int)
    requires Tiled(s.heap, s.blocks) && HasRoom(s.heap, s.blocks, size)
    ensures var t := Next(s, Take(size)); Tiled(t.heap, t.blocks) && (IsFree(t.heap, t.blocks, i) ==> IsFree(s.heap, s.blocks, i))
  {
    TakeKeepsBlocks(s, size);
    var t := Next(s, Take(size));
    AddressesIncrease(s.heap, s.blocks);
    if 0 <= i < |s.blocks| { assert KeepsBlock(s, t, -1, i); }
  }

  lemma ReturnIsExact(s: Machine, payload: Word)
    requires Tiled(s.heap, s.blocks) && Coalesced(s) && Legal(s, Return(payload))
    ensures var t := Step(s, Return(payload)); Coalesced(t) && LiveAfter(s, Return(payload), t) && t.heap == s.heap.(nodes := t.heap.nodes)
  {
    hide GivenBack, Coalesced, IsFree, Live;
    if payload != 0 {
      GiveBackIsExact(s, BlockAt(s, payload));
    }
  }

  /** One call keeps the heap free of adjacent free blocks and does to the live blocks what it should. */
  lemma StepIsExact(s: Machine, op: Op)
    requires Tiled(s.heap, s.blocks) && Coalesced(s) && Legal(s, op)
    ensures var t := Step(s, op);
      Coalesced(t) && LiveAfter(s, op, t) && t.heap.start == s.heap.start && t.heap.end == s.heap.end
  {
    hide Tiled, Coalesced, LiveAfter, Step, Legal;
    match op
    case Request(size) => RequestIsExact(s, size);
    case Return(payload) => ReturnIsExact(s, payload);
  }

  /** Payload bytes of the first n blocks. */
  ghost function PayloadTotal(h: Heap, blocks: seq<Word>, n: nat): nat
    requires Tiled(h, blocks) && n <= |blocks|
  {
    if n == 0 then 0
    else
      assert InOrder(h, blocks, n - 1);
      PayloadTotal(h, blocks, n - 1) + h.nodes[blocks[n - 1]].size
  }

  /** Payload and header bytes add up to the used part of the heap. */
  lemma {:induction false} BytesAddUp(h: Heap, blocks: seq<Word>, n: nat)
    requires Tiled(h, blocks) && n <= |blocks|
    ensures h.start + PayloadTotal(h, blocks, n) + HEADER * n == if n < |blocks| then blocks[n] else h.current
  {
    if n > 0 {
      BytesAddUp(h, blocks, n - 1);
      assert InOrder(h, blocks, n - 1);
    }
  }

  /** Every live block lies in the used part and ends before the next header, whoever owns that. */
  ghost predicate LiveApart(h: Heap) {
    forall a :: a in Live(h) ==>
      && h.start <= a && EndOf(h, a) <= h.current <= h.end
      && forall b :: b in h.nodes && a < b ==> EndOf(h, a) <= b
  }

  lemma TiledIsApart(h: Heap, blocks: seq<Word>)
    requires Tiled(h, blocks)
    ensures LiveApart(h)
  {
    forall a | a in Live(h)
      ensures h.start <= a && EndOf(h, a) <= h.current && forall b :: b in h.nodes && a < b ==> EndOf(h, a) <= b
    {
      var k :| 0 <= k < |blocks| && blocks[k] == a;
      BlocksAreApart(h, blocks, k, |blocks|);
      if k > 0 { BlocksAreApart(h, blocks, 0, k); }
      forall b | b in h.nodes && a < b ensures EndOf(h, a) <= b { NoHeaderInside(h, blocks, k, b); }
    }
  }

  ghost predicate LegalRun(s: Machine, ops: seq<Op>)
    requires Tiled(s.heap, s.blocks)
    decreases |ops|
  {
    ops == [] || (Legal(s, ops[0]) && LegalRun(Step(s, ops[0]), ops[1..]))
  }

  ghost function AfterRun(s: Machine, ops: seq<Op>): (e: Machine)
    requires Tiled(s.heap, s.blocks) && LegalRun(s, ops)
    ensures Tiled(e.heap, e.blocks)
    decreases |ops|
  {
    if ops == [] then s else AfterRun(Step(s, ops[0]), ops[1..])
  }

  /** Over every run of requests and of returns of live payloads, whatever their neighbours: the headers tile the used
      part, no two neighbours are free, payload and header bytes add up to the used part, and live payloads lie apart
      from each other and from all headers. */
  lemma {:induction false} RunsKeepHeap(s: Machine, ops: seq<Op>)
    requires Tiled(s.heap, s.blocks) && Coalesced(s) && LegalRun(s, ops)
    ensures var e := AfterRun(s, ops);
      && Tiled(e.heap, e.blocks) && Coalesced(e) && LiveApart(e.heap)
      && e.heap.start == s.heap.start && e.heap.end == s.heap.end
      && PayloadTotal(e.heap, e.blocks, |e.blocks|) + HEADER * |e.blocks| == e.heap.current - e.heap.start
    decreases |ops|
  {
    hide Tiled, Coalesced, LiveApart, PayloadTotal, Step, LiveAfter;
    if ops == [] {
      BytesAddUp(s.heap, s.blocks, |s.blocks|);
      TiledIsApart(s.heap, s.blocks);
    } else {
      StepIsExact(s, ops[0]);
      RunsKeepHeap(Step(s, ops[0]), ops[1..]);
    }
  }

  /** Over every such run a live payload that is not returned is still live, at its address and with its size. */
  lemma {:induction false} RunsKeepLive(s: Machine, ops: seq<Op>, a: Word)
    requires Tiled(s.heap, s.blocks) && Coalesced(s) && LegalRun(s, ops) && a in Live(s.heap)
    requires forall op :: op in ops && op.Return? ==> op.payload != a + HEADER
    ensures var e := AfterRun(s, ops); a in Live(e.heap) && Live(e.heap)[a] == Live(s.heap)[a]
    decreases |ops|
  {
    hide Tiled, Coalesced, Step, Live, HasRoom, Answer;
    if ops != [] {
      StepIsExact(s, ops[0]);
      RunsKeepLive(Step(s, ops[0]), ops[1..], a);
    }
  }

  /** Once nothing is live the whole used part is one free block. */
  lemma NothingLiveIsOneBlock(s: Machine)
    requires Tiled(s.heap, s.blocks) && Coalesced(s) && Live(s.heap) == map[]
    ensures |s.blocks| <= 1
  {
    if |s.blocks| > 1 {
      assert InOrder(s.heap, s.blocks, 0) && InOrder(s.heap, s.blocks, 1);
      assert s.blocks[0] !in Live(s.heap) && s.blocks[1] !in Live(s.heap);
      assert BothFree(s, 0);
    }
  }

  /** Free as written does what is intended exactly when neither neighbour is free. */
  lemma AsWrittenIsIntendedIff(s: Machine, k: nat)
    requires Tiled(s.heap, s.blocks) && k < |s.blocks|
    ensures Freed(s.heap, s.blocks, k) == GivenBack(s, k).heap
            <==> !IsFree(s.heap, s.blocks, k - 1) && !IsFree(s.heap, s.blocks, k + 1)
  {
    FreeKeepsTilingIff(s.heap, s.blocks, k);
    if !IsFree(s.heap, s.blocks, k - 1) && !IsFree(s.heap, s.blocks, k + 1) {
      FreeWithoutMerge(s.heap, s.blocks, k);
      FreeAfterMark(s, k, k + 1);
      FreeAfterMark(s, k, k - 1);
    } else {
      var t := GivenBack(s, k);
      assert Tiled(t.heap, t.blocks);
    }
  }
}
