/** The heap object: the walk of Allocate and the merges of Free, written to memory in place. */
module HeapManager {
  import opened Words
  import opened PageEntries
  import opened Allocator
  import opened Heaps
  import opened Coalescing

  /** ESTD::AlignDown to a page. */
  function AlignDown(size: Word): (r: Word)
    ensures r == size / 0x1000 * 0x1000 && r / 0x1000 == size / 0x1000
  {
    AddressBits(size);
    if size % 0x1000 != 0 then And(size, 0xFFFF_F000) else size
  }

  lemma EmptyHeap(h: Heap)
    requires h.current == h.start && h.nodes == map[h.start := Node(0, NodeState.Free, 0, 0)]
    ensures Tiled(h, []) <==> 0 < h.start <= h.end
  {
  }

  class KernelHeap {
    var memorySizeBytes: Word
    var startAddress: Word
    var endAddress: Word
    var currentAddress: Word
    // The headers in the heap's memory, by address.
    var nodes: map<Word, Node>
    // Their addresses in address order.
    ghost var blocks: seq<Word>

    ghost function State(): Heap
      reads this
    {
      Heap(startAddress, endAddress, currentAddress, nodes)
    }

    ghost predicate Valid()
      reads this
    {
      Tiled(State(), blocks)
    }

    /** The heap takes its pages, rounded down, from g_KernelVMA. It is well formed unless they reach past the end of
        the address space. */
    method Init(sizeBytes: Word, allocator: VirtualMemoryAllocator) returns (ok: bool)
      requires allocator.Valid()
      modifies this, allocator.bitmap.bits, allocator.physical.bitmap.bits, allocator.tables.words, allocator.tables`tlb
      ensures allocator.Valid()
      ensures sizeBytes == 0 ==> !ok && allocator.Layers() == old(allocator.Layers())
      ensures sizeBytes > 0 ==> var pages := sizeBytes / 0x1000;
        var (layers, va) := AfterAllocatePages(old(allocator.Layers()), allocator.startAddress,
                                               allocator.physical.startAddress, pages);
        && allocator.Layers() == layers && (ok <==> va != 0)
        && (ok ==> startAddress == va && endAddress == Wrap(va + pages * 0x1000) && blocks == []
                   && (Valid() <==> va + pages * 0x1000 < 0x1_0000_0000))
    {
      if sizeBytes == 0 { return false; }
      memorySizeBytes := AlignDown(sizeBytes);
      hide AfterAllocatePages, AlignDown, Tiled;
      var granted := allocator.AllocatePages(memorySizeBytes / 0x1000);
      if granted == 0 { return false; }
      Place(granted);
      return true;
    }

    /** The end of Init: the fields, and the first header zeroed. */
    method Place(address: Word)
      requires address != 0
      modifies this
      ensures startAddress == address && endAddress == Wrap(address + old(memorySizeBytes)) && blocks == []
      ensures Valid() <==> address + old(memorySizeBytes) < 0x1_0000_0000
    {
      startAddress := address;
      endAddress := Wrap(address + memorySizeBytes);
      currentAddress := startAddress;
      nodes := map[startAddress := Node(0, NodeState.Free, 0, 0)];
      blocks := [];
      EmptyHeap(State());
    }

    /** The walk of Allocate: it stops at the first free block that is large enough, or at the current address. */
    method Find(sizeBytes: Word) returns (node: Word, prev: Word)
      requires Valid()
      ensures var k := Chosen(State(), blocks, sizeBytes);
        && node == (if k < |blocks| then blocks[k] else currentAddress)
        && prev == (if k > 0 then blocks[k - 1] else 0)
      ensures (node < currentAddress ==> node in nodes) && (prev != 0 ==> prev in nodes)
    {
      AddressesIncrease(State(), blocks);
      ghost var i: nat := 0;
      if blocks != [] { assert InOrder(State(), blocks, 0); }
      node := startAddress;
      prev := nodes[node].prev;
      while node < currentAddress
        invariant i <= |blocks|
        invariant node == (if i < |blocks| then blocks[i] else currentAddress)
        invariant prev == (if i > 0 then blocks[i - 1] else 0)
        invariant prev != 0 ==> prev in nodes
        invariant forall j :: 0 <= j < i ==> !FitsAt(State(), blocks, j, sizeBytes)
        decreases |blocks| - i
      {
        assert InOrder(State(), blocks, i);
        if nodes[node].size >= sizeBytes && nodes[node].state == NodeState.Free {
          assert FitsAt(State(), blocks, i, sizeBytes);
          return;
        }
        prev := node;
        node := Wrap(node + (nodes[node].size + HEADER));
        i := i + 1;
      }
    }

    method Allocate(sizeBytes: Word) returns (address: Word)
      requires Valid()
      modifies this
      ensures (State(), address) == AfterAllocate(old(State()), old(blocks), sizeBytes)
      ensures blocks == BlocksAfterAllocate(old(State()), old(blocks), sizeBytes)
      ensures HasRoom(old(State()), old(blocks), sizeBytes) ==> Valid()
    {
      if HasRoom(State(), blocks, sizeBytes) { AllocateKeepsTiling(State(), blocks, sizeBytes); }
      if sizeBytes == 0 { return 0; }
      var node, prev := Find(sizeBytes);
      AddressesIncrease(State(), blocks);
      hide InOrder;
      if node < currentAddress {
        nodes := nodes[node := nodes[node].(state := NodeState.Reserved)];
        return Wrap(node + HEADER);
      }
      nodes := nodes[node := Node(sizeBytes, NodeState.Reserved, 0, prev)];
      if prev != 0 { nodes := nodes[prev := nodes[prev].(next := node)]; }
      currentAddress := Wrap(currentAddress + sizeBytes + HEADER);
      blocks := blocks + [node];
      return Wrap(node + HEADER);
    }

    /** `k` is the number of the block whose payload is at `address`. */
    method Free(address: Word, ghost k: nat)
      requires Valid() && (address != 0 ==> k < |blocks| && address == blocks[k] + HEADER)
      modifies `nodes
      ensures address == 0 ==> State() == old(State())
      ensures address != 0 ==> State() == Freed(old(State()), old(blocks), k)
      ensures address == 0 || (!IsFree(old(State()), old(blocks), k - 1) && !IsFree(old(State()), old(blocks), k + 1)) ==> Valid()
    {
      if address == 0 { return; }
      if !IsFree(State(), blocks, k - 1) && !IsFree(State(), blocks, k + 1) { FreeWithoutMerge(State(), blocks, k); }
      BlockIsKnown(State(), blocks, k);
      hide Tiled, MergeNext, MergePrevious;
      var node: Word := address - HEADER;
      if nodes[node].state == NodeState.Reserved {
        nodes := nodes[node := nodes[node].(state := NodeState.Free)];
      }
      assert nodes == old(nodes)[node := old(nodes)[node].(state := NodeState.Free)];
      MergeWithNext(node);
      MergeWithPrevious(node);
    }

    method MergeWithNext(node: Word)
      requires Known(nodes, node)
      modifies `nodes
      ensures nodes == MergeNext(old(nodes), node)
    {
      var next := nodes[node].next;
      if next != 0 && nodes[next].state == NodeState.Free {
        var prev := nodes[node].prev;
        nodes := nodes[next := nodes[next].(size := Wrap(nodes[next].size + nodes[node].size))];
        nodes := nodes[next := nodes[next].(prev := nodes[node].prev)];
        if prev != 0 { nodes := nodes[prev := nodes[prev].(next := next)]; }
      }
    }

    method MergeWithPrevious(node: Word)
      requires Known(nodes, node)
      modifies `nodes
      ensures nodes == MergePrevious(old(nodes), node)
    {
      var prev := nodes[node].prev;
      if prev != 0 && nodes[prev].state == NodeState.Free {
        var next := nodes[node].next;
        nodes := nodes[prev := nodes[prev].(size := Wrap(nodes[prev].size + nodes[node].size))];
        nodes := nodes[prev := nodes[prev].(next := nodes[node].next)];
        if next != 0 { nodes := nodes[next := nodes[next].(prev := prev)]; }
      }
    }

    /** Free with the merges as intended; `k` is the number of the block whose payload is at `address`. */
    method FreeCoalescing(address: Word, ghost k: nat)
      requires Valid() && (address != 0 ==> k < |blocks| && address == blocks[k] + HEADER)
      modifies `nodes, `blocks
      ensures Valid()
      ensures Machine(State(), blocks) ==
              if address == 0 then old(Machine(State(), blocks)) else GivenBack(old(Machine(State(), blocks)), k)
    {
      if address == 0 { return; }
      var node: Word := address - HEADER;
      ghost var s := Machine(State(), blocks);
      BlockIsKnown(State(), blocks, k);
      nodes := nodes[node := nodes[node].(state := NodeState.Free)];
      ghost var t := Machine(State(), blocks);
      assert t == Marked(s, k);
      hide Tiled, InOrder, Marked, Merge;
      BlockIsKnown(State(), blocks, k);
      var next := nodes[node].next;
      if next != 0 && nodes[next].state == NodeState.Free { TakeOverNext(node, k); }
      ghost var u := Machine(State(), blocks);
      assert u == MergeIfFree(t, k);
      assert k < |blocks| && blocks[k] == node;
      BlockIsKnown(State(), blocks, k);
      var prev := nodes[node].prev;
      if prev != 0 && nodes[prev].state == NodeState.Free { TakeOverNext(prev, k - 1); }
      assert Machine(State(), blocks) == MergeIfFree(u, k - 1);
    }

    /** Block k, whose header is at `node`, takes over the next block. */
    method TakeOverNext(node: Word, ghost k: nat)
      requires Valid() && k + 1 < |blocks| && node == blocks[k]
      modifies `nodes, `blocks
      ensures Valid() && Machine(State(), blocks) == Merge(old(Machine(State(), blocks)), k)
    {
      BlockHasNext(State(), blocks, k);
      AbsorbKeepsTiling(State(), blocks, k);
      hide Tiled, InOrder;
      var next := nodes[node].next;
      var after := nodes[next].next;
      nodes := nodes[node := nodes[node].(size := Wrap(nodes[node].size + HEADER + nodes[next].size))];
      nodes := nodes[node := nodes[node].(next := after)];
      if after != 0 { nodes := nodes[after := nodes[after].(prev := node)]; }
      nodes := nodes - {next};
      assert nodes == Absorb(old(nodes), node);
      blocks := Without(blocks, k + 1);
    }
  }
}
