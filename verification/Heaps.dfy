/** The kernel heap: headers in the heap's own memory, walked in address order and linked both ways. */
module Heaps {
  import opened Words
  import opened PageEntries

  /** sizeof(HeapNode): the structure is packed. */
  const HEADER: Word := 13

  datatype NodeState = Free | Reserved

  datatype Node = Node(size: Word, state: NodeState, next: Word, prev: Word)

  /** The fields of Heap, and the headers in its memory by address. 0 stands for the null pointer. */
  datatype Heap = Heap(start: Word, end: Word, current: Word, nodes: map<Word, Node>)

  /** One past the last payload byte of the block whose header is at `a`. */
  ghost function EndOf(h: Heap, a: Word): nat
    requires a in h.nodes
  {
    a + HEADER + h.nodes[a].size
  }

  /** The header at `order[i]` is linked to its neighbours in `order`. */
  ghost predicate LinkedAt(nodes: map<Word, Node>, order: seq<Word>, i: nat)
    requires i < |order|
  {
    && order[i] in nodes
    && nodes[order[i]].next == (if i + 1 < |order| then order[i + 1] else 0)
    && nodes[order[i]].prev == (if i > 0 then order[i - 1] else 0)
  }

  /** Block i ends where the next one begins, or at the current address, and is linked to its neighbours. */
  ghost predicate InOrder(h: Heap, blocks: seq<Word>, i: nat)
    requires i < |blocks|
  {
    var a := blocks[i];
    && a in h.nodes && h.nodes[a].size > 0
    && EndOf(h, a) == (if i + 1 < |blocks| then blocks[i + 1] else h.current)
    && LinkedAt(h.nodes, blocks, i)
  }

  /** The headers at `blocks` tile the used part [start, current) without gaps, nothing else is a header, and the
      next and prev links are the address order. */
  ghost predicate Tiled(h: Heap, blocks: seq<Word>) {
    && 0 < h.start <= h.current <= h.end
    && if blocks == [] then h.current == h.start && h.nodes == map[h.start := Node(0, Free, 0, 0)]
       else blocks[0] == h.start && (forall a :: a in h.nodes ==> a in blocks)
            && forall i :: 0 <= i < |blocks| ==> InOrder(h, blocks, i)
  }

  /** Blocks never overlap: each ends at or before the header of every later one, and before the current address. */
  lemma {:induction false} BlocksAreApart(h: Heap, blocks: seq<Word>, i: nat, j: nat)
    requires Tiled(h, blocks) && i < j <= |blocks|
    ensures blocks[i] in h.nodes
    ensures EndOf(h, blocks[i]) <= if j < |blocks| then blocks[j] else h.current
    decreases j
  {
    assert InOrder(h, blocks, j - 1);
    if j > i + 1 { BlocksAreApart(h, blocks, i, j - 1); }
  }

  /** Two tilings of a heap with the same sizes up to block k agree up to block k. */
  lemma {:induction false} TilingsAgree(h: Heap, blocks: seq<Word>, g: Heap, others: seq<Word>, k: nat)
    requires Tiled(h, blocks) && Tiled(g, others) && g.start == h.start && g.current == h.current
    requires k < |blocks| && h.nodes.Keys <= g.nodes.Keys
    requires forall i :: 0 <= i < k ==>
      blocks[i] in h.nodes && blocks[i] in g.nodes && g.nodes[blocks[i]].size == h.nodes[blocks[i]].size
    ensures k < |others| && others[k] == blocks[k]
    decreases k
  {
    BlocksAreApart(h, blocks, k, |blocks|);
    assert InOrder(h, blocks, k);
    if k > 0 {
      TilingsAgree(h, blocks, g, others, k - 1);
      assert InOrder(h, blocks, k - 1) && InOrder(g, others, k - 1);
    }
  }

  ghost predicate FitsAt(h: Heap, blocks: seq<Word>, i: nat, size: Word)
    requires Tiled(h, blocks) && i < |blocks|
  {
    assert InOrder(h, blocks, i);
    h.nodes[blocks[i]].state == Free && h.nodes[blocks[i]].size >= size
  }

  /** The first block in address order that is free and large enough, or the number of blocks. */
  ghost function Chosen(h: Heap, blocks: seq<Word>, size: Word): (k: nat)
    requires Tiled(h, blocks)
    ensures k <= |blocks|
    ensures k < |blocks| ==> FitsAt(h, blocks, k, size)
    ensures forall i :: 0 <= i < k ==> !FitsAt(h, blocks, i, size)
  {
    ChosenFrom(h, blocks, size, 0)
  }

  ghost function ChosenFrom(h: Heap, blocks: seq<Word>, size: Word, from: nat): (k: nat)
    requires Tiled(h, blocks) && from <= |blocks|
    ensures from <= k <= |blocks|
    ensures k < |blocks| ==> FitsAt(h, blocks, k, size)
    ensures forall i :: from <= i < k ==> !FitsAt(h, blocks, i, size)
    decreases |blocks| - from
  {
    if from == |blocks| || FitsAt(h, blocks, from, size) then from
    else ChosenFrom(h, blocks, size, from + 1)
  }

  /** The heap and the answer after Allocate: the chosen block is reserved whole, or a new one is put at the current
      address, whatever the end address is. */
  ghost function AfterAllocate(h: Heap, blocks: seq<Word>, size: Word): (Heap, Word)
    requires Tiled(h, blocks)
  {
    var k := Chosen(h, blocks, size);
    if size == 0 then (h, 0)
    else if k < |blocks| then
      var a := blocks[k];
      assert InOrder(h, blocks, k);
      (h.(nodes := h.nodes[a := h.nodes[a].(state := Reserved)]), Wrap(a + HEADER))
    else
      var last := if blocks == [] then 0 else blocks[|blocks| - 1];
      assert blocks != [] ==> InOrder(h, blocks, |blocks| - 1);
      var added := h.nodes[h.current := Node(size, Reserved, 0, last)];
      (h.(nodes := if last == 0 then added else added[last := added[last].(next := h.current)],
          current := Wrap(h.current + size + HEADER)),
       Wrap(h.current + HEADER))
  }

  ghost function BlocksAfterAllocate(h: Heap, blocks: seq<Word>, size: Word): seq<Word>
    requires Tiled(h, blocks)
  {
    if size == 0 || Chosen(h, blocks, size) < |blocks| then blocks else blocks + [h.current]
  }

  /** A free block fits, or a new one ends within the heap. */
  ghost predicate HasRoom(h: Heap, blocks: seq<Word>, size: Word)
    requires Tiled(h, blocks)
  {
    size == 0 || Chosen(h, blocks, size) < |blocks| || h.current + HEADER + size <= h.end
  }

  lemma AllocateKeepsTiling(h: Heap, blocks: seq<Word>, size: Word)
    requires Tiled(h, blocks) && HasRoom(h, blocks, size)
    ensures Tiled(AfterAllocate(h, blocks, size).0, BlocksAfterAllocate(h, blocks, size))
  {
    var g, others := AfterAllocate(h, blocks, size).0, BlocksAfterAllocate(h, blocks, size);
    AddressesIncrease(h, blocks);
    forall i | 0 <= i < |others| && others != [] ensures InOrder(g, others, i) {
      if i < |blocks| { assert InOrder(h, blocks, i); }
    }
  }

  lemma AddressesIncrease(h: Heap, blocks: seq<Word>)
    requires Tiled(h, blocks)
    ensures forall i :: 0 <= i < |blocks| ==> 0 < blocks[i] < h.current
    ensures forall i, j :: 0 <= i < j < |blocks| ==> blocks[i] < blocks[j]
  {
    forall i | 0 <= i < |blocks| ensures 0 < blocks[i] < h.current {
      BlocksAreApart(h, blocks, i, |blocks|);
      if i > 0 { BlocksAreApart(h, blocks, 0, i); }
    }
    forall i, j | 0 <= i < j < |blocks| ensures blocks[i] < blocks[j] {
      BlocksAreApart(h, blocks, i, j);
    }
  }

  /** When no free block is large enough, room or no room, Allocate puts a header of exactly the size asked for at the
      current address, links it behind the last block, and moves the current address by exactly header and size. */
  lemma AllocateExtendsExactly(h: Heap, blocks: seq<Word>, size: Word)
    requires Tiled(h, blocks) && size > 0
    requires forall a :: a in blocks && a in h.nodes ==> !(h.nodes[a].state == NodeState.Free && h.nodes[a].size >= size)
    ensures var (g, address) := AfterAllocate(h, blocks, size);
      var last := if blocks == [] then 0 else blocks[|blocks| - 1];
      && address == (h.current + 13) % 0x1_0000_0000
      && g.current == (h.current + 13 + size) % 0x1_0000_0000 && g.start == h.start && g.end == h.end
      && g.nodes.Keys == h.nodes.Keys + {h.current}
      && g.nodes[h.current] == Node(size, NodeState.Reserved, 0, last)
      && forall a :: a in h.nodes && a != h.current ==>
           g.nodes[a] == if a == last then h.nodes[a].(next := h.current) else h.nodes[a]
  {
    AddressesIncrease(h, blocks);
    AllHaveHeaders(h, blocks);
  }

  /** When a free block is large enough, the lowest such is reserved, whole, and nothing else changes. */
  lemma AllocateReusesExactly(h: Heap, blocks: seq<Word>, size: Word, k: nat)
    requires Tiled(h, blocks) && size > 0 && k < |blocks| && blocks[k] in h.nodes
    requires h.nodes[blocks[k]].state == NodeState.Free && h.nodes[blocks[k]].size >= size
    requires forall i :: 0 <= i < k && blocks[i] in h.nodes ==>
      !(h.nodes[blocks[i]].state == NodeState.Free && h.nodes[blocks[i]].size >= size)
    ensures AfterAllocate(h, blocks, size).0 == h.(nodes := h.nodes[blocks[k] := h.nodes[blocks[k]].(state := NodeState.Reserved)])
    ensures AfterAllocate(h, blocks, size).1 - 13 == blocks[k]
  {
    AllHaveHeaders(h, blocks);
    BlocksAreApart(h, blocks, k, |blocks|);
    assert FitsAt(h, blocks, k, size);
    assert Chosen(h, blocks, size) == k;
  }

  lemma AllocateOfNothing(h: Heap, blocks: seq<Word>)
    requires Tiled(h, blocks)
    ensures AfterAllocate(h, blocks, 0) == (h, 0)
  {
  }

  /** Allocate keeps a tiled heap tiled exactly when it has room. */
  lemma AllocateKeepsTilingIff(h: Heap, blocks: seq<Word>, size: Word)
    requires Tiled(h, blocks)
    ensures (exists others :: Tiled(AfterAllocate(h, blocks, size).0, others)) <==> HasRoom(h, blocks, size)
  {
    if HasRoom(h, blocks, size) {
      AllocateKeepsTiling(h, blocks, size);
    } else {
      var g := AfterAllocate(h, blocks, size).0;
      forall others | Tiled(g, others) ensures false {
        assert h.current in g.nodes && g.nodes[h.current].size == size && g.nodes[h.current].state == Reserved;
        assert others != [];
        var i :| 0 <= i < |others| && others[i] == h.current;
        BlocksAreApart(g, others, i, |others|);
      }
    }
  }

  /** The failing family is not empty: an empty heap of one page answers a request for 4096 bytes. */
  lemma AllocateOverrunsHeap()
    ensures var h := Heap(0x1000, 0x2000, 0x1000, map[0x1000 := Node(0, Free, 0, 0)]);
      Tiled(h, []) && AfterAllocate(h, [], 0x1000).1 == 0x100D
      && !exists others :: Tiled(AfterAllocate(h, [], 0x1000).0, others)
  {
    var h := Heap(0x1000, 0x2000, 0x1000, map[0x1000 := Node(0, Free, 0, 0)]);
    AllocateKeepsTilingIff(h, [], 0x1000);
  }

  /** The block whose payload is at `address`, and the neighbours its links name, have headers. */
  ghost predicate Known(nodes: map<Word, Node>, a: Word) {
    && a in nodes
    && (nodes[a].next != 0 ==> nodes[a].next in nodes)
    && (nodes[a].prev != 0 ==> nodes[a].prev in nodes)
  }

  /** Merging with a free next block, as written: the upper header takes the size and the lower one stays in memory. */
  ghost function MergeNext(nodes: map<Word, Node>, a: Word): (r: map<Word, Node>)
    requires Known(nodes, a)
    ensures r.Keys == nodes.Keys && r[a].next == nodes[a].next && r[a].prev == nodes[a].prev
  {
    var node, next := nodes[a], nodes[a].next;
    if next != 0 && nodes[next].state == Free then
      var grown := nodes[next := nodes[next].(size := Wrap(nodes[next].size + node.size), prev := node.prev)];
      if node.prev != 0 then grown[node.prev := grown[node.prev].(next := next)] else grown
    else nodes
  }

  /** Merging with a free previous block, as written: the size of the vanished header is not added. */
  ghost function MergePrevious(nodes: map<Word, Node>, a: Word): map<Word, Node>
    requires Known(nodes, a)
  {
    var node, prev := nodes[a], nodes[a].prev;
    if prev != 0 && nodes[prev].state == Free then
      var grown := nodes[prev := nodes[prev].(size := Wrap(nodes[prev].size + node.size), next := node.next)];
      if node.next != 0 then grown[node.next := grown[node.next].(prev := prev)] else grown
    else nodes
  }

  /** The headers after Free. */
  ghost function AfterFree(nodes: map<Word, Node>, a: Word): map<Word, Node>
    requires Known(nodes, a)
  {
    MergePrevious(MergeNext(nodes[a := nodes[a].(state := Free)], a), a)
  }

  lemma BlockIsKnown(h: Heap, blocks: seq<Word>, k: nat)
    requires Tiled(h, blocks) && k < |blocks|
    ensures Known(h.nodes, blocks[k])
    ensures k + 1 < |blocks| ==> h.nodes[blocks[k]].next == blocks[k + 1] && blocks[k] < blocks[k + 1]
    ensures k + 1 == |blocks| ==> h.nodes[blocks[k]].next == 0
    ensures k > 0 ==> h.nodes[blocks[k]].prev == blocks[k - 1] && 0 < blocks[k - 1] < blocks[k]
    ensures k == 0 ==> h.nodes[blocks[k]].prev == 0
  {
    AddressesIncrease(h, blocks);
    assert InOrder(h, blocks, k);
    if k + 1 < |blocks| { assert InOrder(h, blocks, k + 1); }
    if k > 0 { assert InOrder(h, blocks, k - 1); }
  }

  ghost predicate IsFree(h: Heap, blocks: seq<Word>, i: int)
    requires Tiled(h, blocks)
  {
    0 <= i < |blocks| && assert InOrder(h, blocks, i); h.nodes[blocks[i]].state == Free
  }

  ghost function Freed(h: Heap, blocks: seq<Word>, k: nat): Heap
    requires Tiled(h, blocks) && k < |blocks|
  {
    BlockIsKnown(h, blocks, k);
    h.(nodes := AfterFree(h.nodes, blocks[k]))
  }

  function Without<T>(s: seq<T>, i: nat): seq<T>
    requires i < |s|
  {
    s[..i] + s[i + 1..]
  }

  lemma WithoutAt<T>(s: seq<T>, k: nat, i: nat)
    requires k < |s| && i < |s| - 1
    ensures |Without(s, k)| == |s| - 1 && Without(s, k)[i] == s[if i < k then i else i + 1]
  {
  }

  /** The next and prev links of these headers are their order. */
  ghost predicate Chained(nodes: map<Word, Node>, order: seq<Word>) {
    forall i :: 0 <= i < |order| ==> LinkedAt(nodes, order, i)
  }

  /** The links of a block other than k after the forward merge. */
  lemma MergeNextHeaders(h: Heap, blocks: seq<Word>, k: nat, j: nat)
    requires Tiled(h, blocks) && k < |blocks| && IsFree(h, blocks, k + 1) && j < |blocks| && j != k
    ensures Known(h.nodes, blocks[k]) && blocks[j] in h.nodes
    ensures var r := MergeNext(h.nodes, blocks[k])[blocks[j]];
      && r.next == (if j + 1 == k then blocks[k + 1] else h.nodes[blocks[j]].next)
      && r.prev == (if j == k + 1 then h.nodes[blocks[k]].prev else h.nodes[blocks[j]].prev)
  {
    BlockIsKnown(h, blocks, k);
    AddressesIncrease(h, blocks);
    assert InOrder(h, blocks, j);
    hide Tiled, InOrder;
  }

  lemma MergeNextLinks(h: Heap, blocks: seq<Word>, k: nat, i: nat)
    requires Tiled(h, blocks) && k < |blocks| && IsFree(h, blocks, k + 1) && i < |blocks| - 1
    ensures Known(h.nodes, blocks[k]) && LinkedAt(MergeNext(h.nodes, blocks[k]), Without(blocks, k), i)
  {
    BlockIsKnown(h, blocks, k);
    MergeNextHeaders(h, blocks, k, if i < k then i else i + 1);
    assert InOrder(h, blocks, if i < k then i else i + 1);
    hide Tiled, Without, MergeNext;
    WithoutAt(blocks, k, i);
    if i > 0 { WithoutAt(blocks, k, i - 1); }
    if i + 1 < |blocks| - 1 { WithoutAt(blocks, k, i + 1); }
  }

  /** What the forward merge leaves of a tiled heap: the links skip the freed block, whose header stays as it was, and
      the upper block now ends too late by the freed block's size. */
  lemma MergeNextUnlinks(h: Heap, blocks: seq<Word>, k: nat)
    requires Tiled(h, blocks) && k < |blocks| && IsFree(h, blocks, k + 1)
    ensures Known(h.nodes, blocks[k])
    ensures var r := MergeNext(h.nodes, blocks[k]);
      && Chained(r, Without(blocks, k)) && r[blocks[k]] == h.nodes[blocks[k]]
      && blocks[k + 1] in r && blocks[k + 1] in h.nodes
      && EndOf(h.(nodes := r), blocks[k + 1]) == EndOf(h, blocks[k + 1]) + h.nodes[blocks[k]].size
      && forall a :: a in r ==> a in h.nodes && r[a].state == h.nodes[a].state
                                && (a != blocks[k + 1] ==> r[a].size == h.nodes[a].size)
  {
    BlockIsKnown(h, blocks, k);
    AddressesIncrease(h, blocks);
    BlocksAreApart(h, blocks, k, |blocks|);
    BlocksAreApart(h, blocks, k + 1, |blocks|);
    assert InOrder(h, blocks, k) && InOrder(h, blocks, k + 1);
    var order := Without(blocks, k);
    hide Tiled, InOrder, LinkedAt;
    forall i | 0 <= i < |order| ensures LinkedAt(MergeNext(h.nodes, blocks[k]), order, i) {
      MergeNextLinks(h, blocks, k, i);
    }
  }

  lemma MergePreviousLinks(h: Heap, blocks: seq<Word>, k: nat, i: nat)
    requires Tiled(h, blocks) && k < |blocks| && IsFree(h, blocks, k - 1) && i < |blocks| - 1
    ensures Known(h.nodes, blocks[k]) && LinkedAt(MergePrevious(h.nodes, blocks[k]), Without(blocks, k), i)
  {
    BlockIsKnown(h, blocks, k);
    AddressesIncrease(h, blocks);
    assert InOrder(h, blocks, if i < k then i else i + 1);
    hide Tiled, Without, InOrder, Wrap, EndOf;
    WithoutAt(blocks, k, i);
    if i > 0 { WithoutAt(blocks, k, i - 1); }
    if i + 1 < |blocks| - 1 { WithoutAt(blocks, k, i + 1); }
  }

  /** What the backward merge leaves: the links skip the freed block, and the lower block ends a header too early. */
  lemma MergePreviousUnlinks(h: Heap, blocks: seq<Word>, k: nat)
    requires Tiled(h, blocks) && k < |blocks| && IsFree(h, blocks, k - 1)
    ensures Known(h.nodes, blocks[k])
    ensures var r := MergePrevious(h.nodes, blocks[k]);
      && Chained(r, Without(blocks, k)) && r.Keys == h.nodes.Keys && r[blocks[k]] == h.nodes[blocks[k]]
      && blocks[k - 1] in r && EndOf(h.(nodes := r), blocks[k - 1]) + HEADER == EndOf(h, blocks[k])
      && forall a :: a in r ==> r[a].state == h.nodes[a].state && (a != blocks[k - 1] ==> r[a].size == h.nodes[a].size)
  {
    BlockIsKnown(h, blocks, k);
    AddressesIncrease(h, blocks);
    BlocksAreApart(h, blocks, k, |blocks|);
    assert InOrder(h, blocks, k) && InOrder(h, blocks, k - 1);
    var order := Without(blocks, k);
    hide Tiled, InOrder, LinkedAt;
    forall i | 0 <= i < |order| ensures LinkedAt(MergePrevious(h.nodes, blocks[k]), order, i) {
      MergePreviousLinks(h, blocks, k, i);
    }
  }

  /** The headers after Free, one by one, when the three blocks concerned are distinct. */
  lemma HeadersAfterFree(nodes: map<Word, Node>, a: Word, b: Word)
    requires Known(nodes, a) && b in nodes && nodes[a].next != a && nodes[a].prev != a
    requires nodes[a].next != 0 ==> nodes[a].next != nodes[a].prev
    ensures var node, r := nodes[a], AfterFree(nodes, a);
      var nextFree := node.next != 0 && nodes[node.next].state == NodeState.Free;
      var prevFree := node.prev != 0 && nodes[node.prev].state == NodeState.Free;
      && r.Keys == nodes.Keys
      && r[b].state == (if b == a then NodeState.Free else nodes[b].state)
      && r[b].size == (if (nextFree && b == node.next) || (prevFree && b == node.prev)
                       then Wrap(nodes[b].size + node.size) else nodes[b].size)
      && r[b].next == (if (nextFree || prevFree) && b == node.prev && b != 0 then node.next else nodes[b].next)
      && r[b].prev == (if (nextFree || prevFree) && b == node.next && b != 0 then node.prev else nodes[b].prev)
  {
  }

  /** What Free leaves, whatever the neighbours. The freed header is marked free and otherwise as it was. Each free
      neighbour grows by the freed block's size, without its header. With any free neighbour the two neighbours are
      linked to each other, past the freed block. All other headers, and the used part, are as they were. */
  lemma FreedIsExact(h: Heap, blocks: seq<Word>, k: nat, i: nat)
    requires Tiled(h, blocks) && k < |blocks| && i < |blocks|
    ensures blocks[i] in h.nodes && blocks[k] in h.nodes
    ensures k + 1 < |blocks| ==> blocks[k + 1] in h.nodes
    ensures k > 0 ==> blocks[k - 1] in h.nodes
    ensures var g, old', freed := Freed(h, blocks, k), h.nodes[blocks[i]], h.nodes[blocks[k]];
      var nextFree := k + 1 < |blocks| && h.nodes[blocks[k + 1]].state == NodeState.Free;
      var prevFree := k > 0 && h.nodes[blocks[k - 1]].state == NodeState.Free;
      && g.nodes.Keys == h.nodes.Keys && g.start == h.start && g.end == h.end && g.current == h.current
      && g.nodes[blocks[i]].state == (if i == k then NodeState.Free else old'.state)
      && g.nodes[blocks[i]].size == (if (nextFree && i == k + 1) || (prevFree && i == k - 1)
                                     then old'.size + freed.size else old'.size)
      && g.nodes[blocks[i]].next == (if (nextFree || prevFree) && i == k - 1
                                     then (if k + 1 < |blocks| then blocks[k + 1] else 0) else old'.next)
      && g.nodes[blocks[i]].prev == (if (nextFree || prevFree) && i == k + 1
                                     then (if k > 0 then blocks[k - 1] else 0) else old'.prev)
  {
    AddressesIncrease(h, blocks);
    AllHaveHeaders(h, blocks);
    BlockIsKnown(h, blocks, k);
    BlockLinks(h, blocks, k, i);
    HeadersAfterFree(h.nodes, blocks[k], blocks[i]);
    hide Tiled, AfterFree, InOrder;
  }

  /** Where a block stands to block k, and no sum of two sizes wraps. */
  lemma BlockLinks(h: Heap, blocks: seq<Word>, k: nat, i: nat)
    requires Tiled(h, blocks) && k < |blocks| && i < |blocks|
    ensures blocks[i] in h.nodes && blocks[k] in h.nodes && 0 < blocks[i] && (blocks[i] == blocks[k] <==> i == k)
    ensures i != k ==> h.nodes[blocks[i]].size + h.nodes[blocks[k]].size < 0x1_0000_0000
  {
    AddressesIncrease(h, blocks);
    assert InOrder(h, blocks, i) && InOrder(h, blocks, k);
    BlocksAreApart(h, blocks, i, |blocks|);
    BlocksAreApart(h, blocks, k, |blocks|);
    if i < k { BlocksAreApart(h, blocks, i, k); }
    if k < i { BlocksAreApart(h, blocks, k, i); }
  }

  /** Without a free neighbour only the block's state changes. */
  lemma FreeWithoutMerge(h: Heap, blocks: seq<Word>, k: nat)
    requires Tiled(h, blocks) && k < |blocks| && !IsFree(h, blocks, k - 1) && !IsFree(h, blocks, k + 1)
    ensures blocks[k] in h.nodes
    ensures Freed(h, blocks, k) == h.(nodes := h.nodes[blocks[k] := h.nodes[blocks[k]].(state := Free)])
    ensures Tiled(Freed(h, blocks, k), blocks)
  {
    BlockIsKnown(h, blocks, k);
    AddressesIncrease(h, blocks);
    var g := Freed(h, blocks, k);
    forall i | 0 <= i < |blocks| ensures InOrder(g, blocks, i) {
      assert InOrder(h, blocks, i);
    }
  }

  lemma LinkedBack(h: Heap, blocks: seq<Word>, i: nat)
    requires Tiled(h, blocks) && 0 < i < |blocks|
    ensures blocks[i] in h.nodes && h.nodes[blocks[i]].prev == blocks[i - 1]
  {
    assert InOrder(h, blocks, i);
  }

  /** A merge with the next block leaves it linked past the freed block, whose header the walk still meets. */
  lemma MergeNextBreaksTiling(h: Heap, blocks: seq<Word>, k: nat, others: seq<Word>)
    requires Tiled(h, blocks) && k < |blocks| && !IsFree(h, blocks, k - 1) && IsFree(h, blocks, k + 1)
    ensures !Tiled(Freed(h, blocks, k), others)
  {
    BlockIsKnown(h, blocks, k);
    AddressesIncrease(h, blocks);
    var g := Freed(h, blocks, k);
    if Tiled(g, others) {
      forall i | 0 <= i < k + 1
        ensures blocks[i] in h.nodes && blocks[i] in g.nodes && g.nodes[blocks[i]].size == h.nodes[blocks[i]].size
      {
        assert InOrder(h, blocks, i);
      }
      TilingsAgree(h, blocks, g, others, k + 1);
      TilingsAgree(h, blocks, g, others, k);
      LinkedBack(g, others, k + 1);
    }
  }

  /** Between the header of a block and its end there is no other header. */
  lemma NoHeaderInside(h: Heap, blocks: seq<Word>, k: nat, a: Word)
    requires Tiled(h, blocks) && k < |blocks| && a in h.nodes && blocks[k] < a
    ensures blocks[k] in h.nodes && EndOf(h, blocks[k]) <= a
  {
    var j :| 0 <= j < |blocks| && blocks[j] == a;
    AddressesIncrease(h, blocks);
    if j > k { BlocksAreApart(h, blocks, k, j); }
  }

  /** After a merge with the previous block, that block ends a header short: inside the freed one, at no header. */
  lemma MergedBlockEndsShort(h: Heap, blocks: seq<Word>, k: nat)
    requires Tiled(h, blocks) && k < |blocks| && IsFree(h, blocks, k - 1)
    ensures var g := Freed(h, blocks, k);
      && g.nodes.Keys == h.nodes.Keys && blocks[k - 1] in g.nodes
      && EndOf(g, blocks[k - 1]) < h.current && EndOf(g, blocks[k - 1]) !in g.nodes
      && forall i :: 0 <= i < k - 1 ==>
           blocks[i] in h.nodes && blocks[i] in g.nodes && g.nodes[blocks[i]].size == h.nodes[blocks[i]].size
  {
    BlockIsKnown(h, blocks, k);
    BlocksAreApart(h, blocks, k, |blocks|);
    assert InOrder(h, blocks, k) && InOrder(h, blocks, k - 1);
    NoHeaderAt(h, blocks, k, EndOf(h, blocks[k]) - HEADER);
    AllHaveHeaders(h, blocks);
    hide Tiled, InOrder;
    MergedSizes(h.nodes, blocks[k]);
  }

  lemma AllHaveHeaders(h: Heap, blocks: seq<Word>)
    requires Tiled(h, blocks)
    ensures forall i :: 0 <= i < |blocks| ==> blocks[i] in h.nodes
    ensures forall i, j :: 0 <= i < j < |blocks| ==> blocks[i] < blocks[j]
  {
    AddressesIncrease(h, blocks);
    forall i | 0 <= i < |blocks| ensures blocks[i] in h.nodes { assert InOrder(h, blocks, i); }
  }

  /** The sizes after Free when the previous block is free. */
  lemma MergedSizes(nodes: map<Word, Node>, a: Word)
    requires Known(nodes, a) && nodes[a].prev != 0 && nodes[a].prev != a && nodes[a].next != a
    requires nodes[nodes[a].prev].state == NodeState.Free && nodes[a].next != nodes[a].prev
    ensures var r := AfterFree(nodes, a);
      && r.Keys == nodes.Keys && r[nodes[a].prev].size == Wrap(nodes[nodes[a].prev].size + nodes[a].size)
      && forall b :: b in nodes && b != nodes[a].prev && b != nodes[a].next ==> r[b].size == nodes[b].size
  {
  }

  lemma NoHeaderAt(h: Heap, blocks: seq<Word>, k: nat, a: nat)
    requires Tiled(h, blocks) && k < |blocks| && blocks[k] in h.nodes && blocks[k] < a < EndOf(h, blocks[k])
    ensures a !in h.nodes
  {
    if a in h.nodes { NoHeaderInside(h, blocks, k, a); }
  }

  lemma EndIsNextHeader(g: Heap, blocks: seq<Word>, i: nat)
    requires Tiled(g, blocks) && i < |blocks| && InOrder(g, blocks, i) && EndOf(g, blocks[i]) < g.current
    ensures EndOf(g, blocks[i]) in g.nodes
  {
    assert InOrder(g, blocks, i + 1);
  }

  lemma MergePreviousBreaksTiling(h: Heap, blocks: seq<Word>, k: nat, others: seq<Word>)
    requires Tiled(h, blocks) && k < |blocks| && IsFree(h, blocks, k - 1)
    ensures !Tiled(Freed(h, blocks, k), others)
  {
    var g := Freed(h, blocks, k);
    MergedBlockEndsShort(h, blocks, k);
    if Tiled(g, others) {
      TilingsAgree(h, blocks, g, others, k - 1);
      assert InOrder(g, others, k - 1);
      EndIsNextHeader(g, others, k - 1);
    }
  }

  /** Free keeps a tiled heap tiled exactly when neither neighbour of the block is free. */
  lemma FreeKeepsTilingIff(h: Heap, blocks: seq<Word>, k: nat)
    requires Tiled(h, blocks) && k < |blocks|
    ensures (exists others :: Tiled(Freed(h, blocks, k), others)) <==> !IsFree(h, blocks, k - 1) && !IsFree(h, blocks, k + 1)
  {
    if IsFree(h, blocks, k - 1) {
      forall others ensures !Tiled(Freed(h, blocks, k), others) { MergePreviousBreaksTiling(h, blocks, k, others); }
    } else if IsFree(h, blocks, k + 1) {
      forall others ensures !Tiled(Freed(h, blocks, k), others) { MergeNextBreaksTiling(h, blocks, k, others); }
    } else {
      FreeWithoutMerge(h, blocks, k);
    }
  }

  /** The failing family is not empty: two adjacent 16-byte blocks, the first free, the second given back. */
  lemma AdjacentFreeBreaksHeap()
    ensures var h := Heap(0x1000, 0x2000, 0x103A,
                          map[0x1000 := Node(16, Free, 0x101D, 0), 0x101D := Node(16, Reserved, 0, 0x1000)]);
      Tiled(h, [0x1000, 0x101D]) && !exists others :: Tiled(Freed(h, [0x1000, 0x101D], 1), others)
  {
    var h := Heap(0x1000, 0x2000, 0x103A,
                  map[0x1000 := Node(16, Free, 0x101D, 0), 0x101D := Node(16, Reserved, 0, 0x1000)]);
    assert InOrder(h, [0x1000, 0x101D], 0) && InOrder(h, [0x1000, 0x101D], 1);
    FreeKeepsTilingIff(h, [0x1000, 0x101D], 1);
    assert IsFree(h, [0x1000, 0x101D], 0);
  }

  datatype Op = Take(size: Word) | Give(block: nat)

  /** A heap and its blocks in address order. */
  datatype Machine = Machine(heap: Heap, blocks: seq<Word>)

  ghost function Next(s: Machine, op: Op): Machine
    requires Tiled(s.heap, s.blocks) && (op.Give? ==> op.block < |s.blocks|)
  {
    match op
    case Take(size) => Machine(AfterAllocate(s.heap, s.blocks, size).0, BlocksAfterAllocate(s.heap, s.blocks, size))
    case Give(k) => Machine(Freed(s.heap, s.blocks, k), s.blocks)
  }

  /** Requests have room, and only live blocks without a free neighbour are freed. */
  ghost predicate Allowed(s: Machine, op: Op)
    requires Tiled(s.heap, s.blocks)
  {
    match op
    case Take(size) => HasRoom(s.heap, s.blocks, size)
    case Give(k) => k < |s.blocks| && !IsFree(s.heap, s.blocks, k)
                    && !IsFree(s.heap, s.blocks, k - 1) && !IsFree(s.heap, s.blocks, k + 1)
  }

  /** Every block of s is still there in t, at the same address with the same size, and the live ones, except
      possibly block `but`, are still live. */
  ghost predicate Keeps(s: Machine, t: Machine, but: int)
    requires Tiled(s.heap, s.blocks) && Tiled(t.heap, t.blocks)
  {
    s.blocks <= t.blocks && forall i: nat :: i < |s.blocks| ==> KeepsBlock(s, t, but, i)
  }

  ghost predicate KeepsBlock(s: Machine, t: Machine, but: int, i: nat)
    requires Tiled(s.heap, s.blocks) && Tiled(t.heap, t.blocks) && s.blocks <= t.blocks && i < |s.blocks|
  {
    assert InOrder(s.heap, s.blocks, i) && InOrder(t.heap, t.blocks, i);
    && t.heap.nodes[t.blocks[i]].size == s.heap.nodes[s.blocks[i]].size
    && (i != but && IsFree(t.heap, t.blocks, i) ==> IsFree(s.heap, s.blocks, i))
  }

  /** With room the heap stays tiled, and every block is kept. */
  lemma TakeKeepsBlocks(s: Machine, size: Word)
    requires Tiled(s.heap, s.blocks) && HasRoom(s.heap, s.blocks, size)
    ensures var t := Next(s, Take(size)); Tiled(t.heap, t.blocks) && Keeps(s, t, -1)
  {
    var t := Next(s, Take(size));
    AllocateKeepsTiling(s.heap, s.blocks, size);
    forall i: nat | i < |s.blocks| ensures KeepsBlock(s, t, -1, i) {
      TakeKeepsBlock(s, size, i);
    }
    hide Tiled, AfterAllocate, HasRoom, KeepsBlock;
  }

  lemma TakeKeepsBlock(s: Machine, size: Word, i: nat)
    requires Tiled(s.heap, s.blocks) && HasRoom(s.heap, s.blocks, size) && i < |s.blocks|
    ensures var t := Next(s, Take(size)); Tiled(t.heap, t.blocks) && s.blocks <= t.blocks && KeepsBlock(s, t, -1, i)
  {
    AddressesIncrease(s.heap, s.blocks);
    AllocateKeepsTiling(s.heap, s.blocks, size);
    assert InOrder(s.heap, s.blocks, i);
  }

  /** With room the answer is the payload of the lowest free block that is large enough, or of a new one at the end;
      it is now live, large enough and ends within the heap. */
  lemma TakeAnswersLowestFit(s: Machine, size: Word)
    requires Tiled(s.heap, s.blocks) && HasRoom(s.heap, s.blocks, size) && size > 0
    ensures var t, k := Next(s, Take(size)), Chosen(s.heap, s.blocks, size);
      && Tiled(t.heap, t.blocks) && k < |t.blocks| && t.blocks[k] in t.heap.nodes
      && (if k < |s.blocks| then IsFree(s.heap, s.blocks, k) else t.blocks == s.blocks + [s.heap.current])
      && !IsFree(t.heap, t.blocks, k)
      && AfterAllocate(s.heap, s.blocks, size).1 == t.blocks[k] + HEADER
      && t.heap.nodes[t.blocks[k]].size >= size && EndOf(t.heap, t.blocks[k]) <= t.heap.end
  {
    var t, k := Next(s, Take(size)), Chosen(s.heap, s.blocks, size);
    AddressesIncrease(s.heap, s.blocks);
    AllocateKeepsTiling(s.heap, s.blocks, size);
    assert InOrder(t.heap, t.blocks, k);
    BlocksAreApart(t.heap, t.blocks, k, |t.blocks|);
  }

  lemma GiveKeepsBlocks(s: Machine, k: nat)
    requires Tiled(s.heap, s.blocks) && Allowed(s, Give(k))
    ensures var t := Next(s, Give(k)); Tiled(t.heap, t.blocks) && Keeps(s, t, k) && IsFree(t.heap, t.blocks, k)
  {
    var t := Next(s, Give(k));
    FreeWithoutMerge(s.heap, s.blocks, k);
    AddressesIncrease(s.heap, s.blocks);
    forall i: nat | i < |s.blocks| ensures KeepsBlock(s, t, k, i) {
      assert InOrder(s.heap, s.blocks, i);
    }
  }

  lemma StepKeepsTiling(s: Machine, op: Op)
    requires Tiled(s.heap, s.blocks) && Allowed(s, op)
    ensures Tiled(Next(s, op).heap, Next(s, op).blocks)
  {
    match op
    case Take(size) => TakeKeepsBlocks(s, size);
    case Give(k) => GiveKeepsBlocks(s, k);
  }

  ghost predicate AllowedRun(s: Machine, ops: seq<Op>)
    requires Tiled(s.heap, s.blocks)
    decreases |ops|
  {
    ops == [] || (Allowed(s, ops[0]) && (StepKeepsTiling(s, ops[0]); AllowedRun(Next(s, ops[0]), ops[1..])))
  }

  ghost function AfterRun(s: Machine, ops: seq<Op>): Machine
    requires Tiled(s.heap, s.blocks) && AllowedRun(s, ops)
    decreases |ops|
  {
    if ops == [] then s
    else
      StepKeepsTiling(s, ops[0]);
      AfterRun(Next(s, ops[0]), ops[1..])
  }

  /** Over every allowed run the heap stays tiled, no block moves or changes its size, and a live block that is not
      given back is still live. */
  lemma {:induction false} RunsKeepBlocks(s: Machine, ops: seq<Op>, i: nat)
    requires Tiled(s.heap, s.blocks) && AllowedRun(s, ops) && i < |s.blocks|
    ensures var e := AfterRun(s, ops);
      && Tiled(e.heap, e.blocks) && s.blocks <= e.blocks
      && s.blocks[i] in s.heap.nodes && s.blocks[i] in e.heap.nodes
      && e.heap.nodes[s.blocks[i]].size == s.heap.nodes[s.blocks[i]].size
      && (!IsFree(s.heap, s.blocks, i) && Give(i) !in ops ==> !IsFree(e.heap, e.blocks, i))
    decreases |ops|
  {
    assert InOrder(s.heap, s.blocks, i);
    if ops != [] {
      match ops[0] {
        case Take(size) => TakeKeepsBlocks(s, size);
        case Give(k) => GiveKeepsBlocks(s, k);
      }
      var t := Next(s, ops[0]);
      assert KeepsBlock(s, t, if ops[0].Give? then ops[0].block else -1, i);
      RunsKeepBlocks(t, ops[1..], i);
    }
  }

  lemma TilingIsUnique(h: Heap, blocks: seq<Word>, others: seq<Word>)
    requires Tiled(h, blocks) && Tiled(h, others)
    ensures blocks == others
  {
    AllHaveHeaders(h, blocks);
    AllHaveHeaders(h, others);
    forall k | 0 <= k < |blocks| ensures k < |others| && others[k] == blocks[k] {
      TilingsAgree(h, blocks, h, others, k);
    }
    if blocks != [] { TilingsAgree(h, blocks, h, others, |blocks| - 1); }
    if |blocks| < |others| { TilingsAgree(h, others, h, blocks, |blocks|); }
  }

  ghost predicate NamesLive(s: Machine, op: Op)
    requires Tiled(s.heap, s.blocks)
  {
    op.Give? ==> op.block < |s.blocks| && !IsFree(s.heap, s.blocks, op.block)
  }

  /** Only live blocks are freed, and after each call the heap has a tiling. */
  ghost predicate StaysTiled(s: Machine, ops: seq<Op>)
    requires Tiled(s.heap, s.blocks)
    decreases |ops|
  {
    ops == [] ||
    (NamesLive(s, ops[0]) &&
     exists others :: Tiled(Next(s, ops[0]).heap, others) && StaysTiled(Machine(Next(s, ops[0]).heap, others), ops[1..]))
  }

  /** One call of the code as written leaves a tiled heap exactly when it is allowed. */
  lemma StepStaysTiledIff(s: Machine, op: Op)
    requires Tiled(s.heap, s.blocks) && NamesLive(s, op)
    ensures (exists others :: Tiled(Next(s, op).heap, others)) <==> Allowed(s, op)
  {
    match op
    case Take(size) =>
      AllocateKeepsTilingIff(s.heap, s.blocks, size);
      assert Next(s, op).heap == AfterAllocate(s.heap, s.blocks, size).0;
    case Give(k) =>
      FreeKeepsTilingIff(s.heap, s.blocks, k);
      assert Next(s, op).heap == Freed(s.heap, s.blocks, k);
  }

  /** A run of the code as written stays tiled exactly when every request has room and no freed block has a free
      neighbour. */
  lemma {:induction false} RunStaysTiledIff(s: Machine, ops: seq<Op>)
    requires Tiled(s.heap, s.blocks)
    ensures StaysTiled(s, ops) <==> AllowedRun(s, ops)
    decreases |ops|
  {
    hide Next, Tiled, IsFree, HasRoom;
    if ops != [] && NamesLive(s, ops[0]) {
      StepStaysTiledIff(s, ops[0]);
      if Allowed(s, ops[0]) {
        var t := Next(s, ops[0]);
        StepKeepsTiling(s, ops[0]);
        forall others | Tiled(t.heap, others) ensures others == t.blocks { TilingIsUnique(t.heap, t.blocks, others); }
        assert Machine(t.heap, t.blocks) == t;
        RunStaysTiledIff(t, ops[1..]);
      }
    }
  }

  /** No payload byte of a block lies in a header or in another block's payload. */
  lemma PayloadsAreApart(h: Heap, blocks: seq<Word>, i: nat, j: nat, byte: nat)
    requires Tiled(h, blocks) && i < |blocks| && j < |blocks|
    requires blocks[i] in h.nodes && blocks[i] + HEADER <= byte < EndOf(h, blocks[i])
    ensures h.start + HEADER <= byte < h.current <= h.end
    ensures blocks[j] in h.nodes && (j != i ==> !(blocks[j] <= byte < EndOf(h, blocks[j]))) && !(blocks[j] <= byte < blocks[j] + HEADER)
  {
    assert InOrder(h, blocks, i) && InOrder(h, blocks, j);
    BlocksAreApart(h, blocks, i, |blocks|);
    AddressesIncrease(h, blocks);
    if i < j { BlocksAreApart(h, blocks, i, j); }
    if j < i { BlocksAreApart(h, blocks, j, i); }
  }
}
