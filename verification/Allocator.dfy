/** The allocator itself: headers updated in place in a fixed array of blocks. */
module AllocatorClass {
  import opened HeapArith
  import opened HeapModel
  import opened HeapTiling
  import opened HeapOps
  import opened HeapAlloc
  import opened HeapFree
  import opened HeapRuns
  import opened HeapList
  import opened HeapTheorems

  class Allocator {
    /** Address of the first block. */
    const base: nat
    const mem: array<Header>
    var first: nat
    var last: nat
    var used: nat
    var peak: nat
    /** Chunk starts, list order and live pointers; `Valid` ties them to the memory. */
    ghost var heads: set<nat>
    ghost var order: seq<nat>
    ghost var live: map<nat, Live>

    function View(): Heap
      reads this, mem
    {
      Heap(mem[..], first, last, used, peak)
    }

    ghost function State(): System
      reads this, mem
    {
      System(base, View(), heads, order, live)
    }

    ghost predicate Valid()
      reads this, mem
    {
      Inv(State())
    }

    /** Takes the whole blocks of the `size` bytes at `addr`. */
    constructor (addr: nat, size: nat)
      requires AlignRightDiff(addr, BLOCK_SIZE) <= size
      requires (size - AlignRightDiff(addr, BLOCK_SIZE)) / BLOCK_SIZE <= BEFORE_RANGE
      ensures Valid() && fresh(mem)
      ensures base == addr + AlignRightDiff(addr, BLOCK_SIZE)
      ensures mem.Length == (size - AlignRightDiff(addr, BLOCK_SIZE)) / BLOCK_SIZE
      ensures State() == Fresh(base, mem[..])
    {
      var skip := AlignRightDiff(addr, BLOCK_SIZE);
      var whole := size - skip - (size - skip) % BLOCK_SIZE;
      base := addr + skip;
      mem := new Header[whole / BLOCK_SIZE];
      first, last, used, peak := INVALID_IDX, INVALID_IDX, 0, 0;
      heads, order, live := {}, [], map[];
      AlignRightDiffIsLeast(addr, BLOCK_SIZE, 0);
      new;
      if mem.Length > 0 {
        mem[0] := Header(0, false, mem.Length, INVALID_IDX, INVALID_IDX);
        PushFreeNode(0);
        heads, order := {0}, [0];
      }
      assert mem.Length > 0 ==> mem[..][0 := mem[0]] == mem[..];
      FreshIsInv(base, mem[..]);
    }

    method SetBlocksOwned(idx: nat, value: nat)
      requires idx < mem.Length
      modifies mem
      ensures mem[..] == HeapModel.SetBlocksOwned(old(mem[..]), idx, value)
    {
      mem[idx] := mem[idx].(owned := value);
      if idx + value < mem.Length {
        mem[idx + value] := mem[idx + value].(before := value % BEFORE_RANGE);
      }
    }

    method DefaultInitialize(idx: nat)
      requires idx < mem.Length
      modifies mem
      ensures mem[..] == HeapModel.DefaultInitialize(old(mem[..]), idx)
    {
      mem[idx] := mem[idx].(prev := INVALID_IDX, next := INVALID_IDX, used := false);
    }

    method SetUsed(idx: nat, value: bool)
      requires idx < mem.Length
      modifies mem
      ensures mem[..] == MarkUsed(old(mem[..]), idx, value)
    {
      mem[idx] := mem[idx].(used := value);
    }

    method PushFreeNode(idx: nat)
      requires PushReady(View(), idx)
      modifies mem, this`first, this`last
      ensures View() == HeapModel.PushFreeNode(old(View()), idx)
    {
      if first == INVALID_IDX {
        first, last := idx, idx;
        return;
      }
      if mem[idx].owned > mem.Length / 4 {
        mem[first] := mem[first].(prev := idx);
        mem[idx] := mem[idx].(next := first);
        first := idx;
        return;
      }
      mem[last] := mem[last].(next := idx);
      mem[idx] := mem[idx].(prev := last);
      last := idx;
    }

    method UnlinkFreeNode(idx: nat)
      requires UnlinkReady(View(), idx)
      modifies mem, this`first, this`last
      ensures View() == HeapModel.UnlinkFreeNode(old(View()), idx)
    {
      var next, prev := mem[idx].next, mem[idx].prev;
      if next != INVALID_IDX {
        mem[next] := mem[next].(prev := prev);
      }
      if prev != INVALID_IDX {
        mem[prev] := mem[prev].(next := next);
      }
      if first == idx {
        first := next;
      }
      if last == idx {
        last := prev;
      }
      mem[idx] := mem[idx].(next := INVALID_IDX, prev := INVALID_IDX);
    }

    method CutPrefix(idx: nat, skip: nat)
      requires Linked(View(), order) && idx in order && idx < mem.Length < INVALID_IDX
      requires 0 < skip < mem[idx].owned && idx + mem[idx].owned <= mem.Length
      modifies mem, this`first, this`last
      ensures View() == SplitPrefix(old(View()), idx, skip, order)
    {
      hide HeapModel.SetBlocksOwned, HeapModel.UnlinkFreeNode, HeapModel.PushFreeNode, HeapModel.DefaultInitialize,
           MarkUsed, Without, Linked;
      var rest := mem[idx].owned - skip;
      ghost var h := View();
      SetBlocksOwned(idx, skip);
      ghost var h1 := View();
      LinkedFrame(h, h1, order);
      UnlinkRemoves(h1, order, idx);
      UnlinkFreeNode(idx);
      PushInserts(View(), Without(order, idx), idx);
      PushFreeNode(idx);
      DefaultInitialize(idx + skip);
      SetBlocksOwned(idx + skip, rest);
    }

    method TakeFront(idx: nat, need: nat, ghost list: seq<nat>)
      requires Carvable(View(), idx, need, list)
      modifies mem, this`first, this`last, this`used, this`peak
      ensures View() == Carve(old(View()), idx, need, list)
    {
      hide CarveBlocks, Carvable;
      TakeFrontBlocks(idx, need, list);
      used := used + need * BLOCK_SIZE;
      peak := if peak < used then used else peak;
    }

    method TakeFrontBlocks(idx: nat, need: nat, ghost list: seq<nat>)
      requires Carvable(View(), idx, need, list)
      modifies mem, this`first, this`last
      ensures View() == CarveBlocks(old(View()), idx, need, list)
    {
      hide HeapModel.SetBlocksOwned, HeapModel.UnlinkFreeNode, HeapModel.PushFreeNode, HeapModel.DefaultInitialize,
           MarkUsed, Without, Linked;
      var oldOwned := mem[idx].owned;
      UnlinkRemoves(View(), list, idx);
      UnlinkFreeNode(idx);
      ghost var h1 := View();
      SetUsed(idx, true);
      ghost var h2 := View();
      LinkedFrame(h1, h2, Without(list, idx));
      SetBlocksOwned(idx, need);
      if need < oldOwned {
        GiveBackReady(h2, idx, need, Without(list, idx));
        DefaultInitialize(idx + need);
        SetBlocksOwned(idx + need, oldOwned - need);
        PushFreeNode(idx + need);
      }
    }

    method GetMetadataIdxFromAddr(p: nat) returns (index: int)
      requires base <= p
      ensures index == HeaderIndex(base, p)
    {
      index := (p - base) / BLOCK_SIZE;
      if p % BLOCK_SIZE == 0 {
        index := index - 1;
      }
    }

    /** The chunk that serves the request, found by walking the list from its front. */
    method FindFit(size: nat, alignment: nat) returns (idx: nat)
      requires Linked(View(), order) && mem.Length < INVALID_IDX && alignment > 0
      ensures idx == FirstFit(mem[..], base, order, size, alignment)
      ensures idx == INVALID_IDX ==> NoneEnough(mem[..], first, base, size, alignment)
      ensures idx != INVALID_IDX ==>
                exists k: nat :: FirstAt(mem[..], first, base, size, alignment, k) && Nth(mem[..], first, k) == idx
    {
      hide BlocksNeeded, AlignRightDiff, FirstAt, NoneEnough;
      FirstFitIsFirst(View(), base, order, size, alignment);
      idx := first;
      ghost var i := 0;
      while idx < mem.Length
        invariant 0 <= i <= |order| && idx == At(order, i)
        invariant FirstFit(mem[..], base, order[i..], size, alignment)
               == FirstFit(mem[..], base, order, size, alignment)
        decreases |order| - i
      {
        assert LinkedAt(mem[..], order, i);
        assert order[i..][0] == order[i] && order[i..][1..] == order[i + 1..];
        var alignDiff := AlignRightDiff(DataAddr(base, idx), alignment);
        var blocksNeeded := BlocksNeeded(size, alignDiff);
        if mem[idx].owned >= blocksNeeded {
          return;
        }
        idx := mem[idx].next;
        i := i + 1;
      }
      assert i < |order| ==> LinkedAt(mem[..], order, i);
      assert order[i..] == [];
      idx := INVALID_IDX;
    }

    /** A null result means that no run of free blocks can hold the request; otherwise the
        state is the one after serving it and the result points behind its header. */
    method Allocate(size: nat, alignment: nat) returns (ptr: nat)
      requires Valid() && Request(base, mem.Length, size, alignment)
      modifies this, mem
      ensures Valid()
      ensures State() == old(AfterAllocate(State(), size, alignment))
      ensures ptr == old(AllocateResult(State(), size, alignment))
      ensures alignment > 0 && (ptr == NULL <==>
                !exists p :: old(Placement(mem[..], heads, base, p, size, alignment)))
      ensures if ptr == NULL then NoneEnough(old(mem[..]), old(first), base, size, alignment)
              else ServedFromFirst(old(mem[..]), old(first), base, size, alignment, ptr)
    {
      hide NoneEnough, FirstAt, Nth, ServedFromFirst, Inv, WellFormed, Shape, Take, TakeOrder, TakeHeads, Fits,
           FirstFit, Placement, Linked, AlignRightDiff, BlocksNeeded, Request, PowerOfTwo, RequestBlocks;
      PositiveAlignment(base, mem.Length, size, alignment);
      ghost var s := State();
      AllocateKeepsInv(s, size, alignment);
      AnswerIsFromFirst(s, size, alignment);
      InvParts(s);
      FailsIffNoPlacement(s.heap, heads, order, base, size, alignment);
      var idx := FindFit(size, alignment);
      if idx == INVALID_IDX {
        return NULL;
      }
      PlaceIsTake(s, size, alignment, idx);
      var alignDiff := AlignRightDiff(DataAddr(base, idx), alignment);
      var skip := alignDiff / BLOCK_SIZE;
      var need := BlocksNeeded(size, alignDiff) - skip;
      PlaceSizes(s.heap, base, idx, size, alignment, heads, order);
      ghost var owned := mem[idx].owned;
      ghost var n := mem.Length;
      TakeInPlace(idx, skip, need);
      ResultIsAligned(base, idx, alignment);
      ptr := DataAddr(base, idx + skip) + alignDiff - skip * BLOCK_SIZE;
      heads := TakeHeads(heads, idx, skip, owned, need);
      order := TakeOrder(n, order, idx, skip, owned, need);
      live := live[ptr := Live(size, alignment)];
    }

    method TakeInPlace(idx: nat, skip: nat, need: nat)
      requires Takeable(View(), idx, skip, need, heads, order)
      modifies mem, this`first, this`last, this`used, this`peak
      ensures View() == Take(old(View()), idx, skip, need, heads, order)
    {
      hide Carve, SplitPrefix, SplitPrefixOrder, Tiling;
      ghost var h := View();
      if skip != 0 {
        ShapeSplitPrefix(h, heads, order, idx, skip);
        CutPrefix(idx, skip);
        ghost var o1 := SplitPrefixOrder(mem.Length, skip, order, idx);
        ShapeCarve(View(), heads + {idx + skip}, o1, idx + skip, need);
        TakeFront(idx + skip, need, o1);
      } else {
        ShapeCarve(h, heads, order, idx, need);
        TakeFront(idx, need, order);
      }
    }

    /** Returning null does nothing; returning a live pointer frees its chunk and merges it with
        its free neighbours. */
    method Deallocate(ptr: nat)
      requires Valid() && Legal(State(), Op.Deallocate(ptr))
      modifies this, mem
      ensures Valid()
      ensures State() == old(Step(State(), Op.Deallocate(ptr)))
    {
      hide WellFormed, HeapFree.Deallocate, FreeHeads, FreeOrder, Linked, Tiling, RequestBlocks, HeaderIndex,
           UsedIsLive;
      if ptr == NULL {
        return;
      }
      ghost var s := State();
      StepKeepsInv(s, Op.Deallocate(ptr));
      assert LiveAt(s, ptr);
      ReturnableParts(s.heap, HeaderIndex(base, ptr), heads, order);
      var idx := GetMetadataIdxFromAddr(ptr);
      Return(idx);
      ghost var b := s.heap.blocks;
      heads := FreeHeads(b, heads, idx);
      order := FreeOrder(b, order, idx);
      live := live - {ptr};
    }

    method JoinPrevious(idx: nat, ghost list: seq<nat>)
      requires Linked(View(), list) && idx < mem.Length < INVALID_IDX
      requires 0 < mem[idx].before <= idx && idx - mem[idx].before in list
      modifies mem, this`first, this`last
      ensures View() == MergeIntoPrevious(old(View()), idx, list)
    {
      hide HeapModel.SetBlocksOwned, HeapModel.UnlinkFreeNode, HeapModel.PushFreeNode, MarkUsed, Without, Linked;
      var p := idx - mem[idx].before;
      ghost var h := View();
      SetBlocksOwned(p, mem[p].owned + mem[idx].owned);
      LinkedFrame(h, View(), list);
      UnlinkRemoves(View(), list, p);
      UnlinkFreeNode(p);
    }

    method JoinNext(idx: nat, ghost list: seq<nat>)
      requires Linked(View(), list) && idx < mem.Length < INVALID_IDX
      requires idx + mem[idx].owned < mem.Length && idx + mem[idx].owned in list
      modifies mem, this`first, this`last
      ensures View() == MergeNext(old(View()), idx, list)
    {
      hide HeapModel.SetBlocksOwned, HeapModel.UnlinkFreeNode, HeapModel.PushFreeNode, MarkUsed, Without, Linked;
      var n := idx + mem[idx].owned;
      ghost var h := View();
      SetBlocksOwned(idx, mem[idx].owned + mem[n].owned);
      LinkedFrame(h, View(), list);
      UnlinkRemoves(View(), list, n);
      UnlinkFreeNode(n);
    }

    method ListAsFree(idx: nat, ghost list: seq<nat>)
      requires Linked(View(), list) && idx < mem.Length < INVALID_IDX
      requires idx !in list && Loose(mem[..], idx)
      modifies mem, this`first, this`last
      ensures View() == Release(old(View()), idx, list)
    {
      hide HeapModel.SetBlocksOwned, HeapModel.UnlinkFreeNode, HeapModel.PushFreeNode, MarkUsed, Without, Linked;
      ghost var h := View();
      SetUsed(idx, false);
      LinkedFrame(h, View(), list);
      UnlinkRemoves(View(), list, idx);
      ghost var h1 := View();
      assert Without(list, idx) == list;
      UnlinkFreeNode(idx);
      PushInserts(View(), list, idx);
      PushFreeNode(idx);
    }

    method JoinBackward(idx: nat) returns (start: nat)
      requires Returnable(View(), idx, heads, order)
      modifies mem, this`first, this`last
      ensures (View(), start) == DeallocateBack(old(View()), idx, heads, order)
    {
      hide MergeIntoPrevious, WellFormed, Linked, Tiling;
      ReturnableParts(View(), idx, heads, order);
      start := idx;
      if mem[idx].before != 0 {
        var p := idx - mem[idx].before;
        if !mem[p].used {
          JoinPrevious(idx, order);
          start := p;
        }
      }
    }

    method JoinNeighbours(idx: nat) returns (start: nat)
      requires Returnable(View(), idx, heads, order)
      modifies mem, this`first, this`last
      ensures (View(), start) == Coalesce(old(View()), idx, heads, order)
    {
      hide Freeing, MergeIntoPrevious, MergeNext, WellFormed, PredecessorInUse, Linked, Tiling, BackHeads, Coalesced,
           DeallocateBack;
      ghost var h := View();
      DeallocateBackEffect(h, idx, heads, order);
      ReturnableParts(h, idx, heads, order);
      CoalescedPart(h, idx, heads, order);
      start := JoinBackward(idx);
      ghost var hs := BackHeads(h.blocks, heads, idx);
      ghost var list := BackOrder(h.blocks, order, idx);
      assert (View(), start) == DeallocateBack(h, idx, heads, order);
      DeallocateFrontEffect(h.blocks, heads, View(), hs, list, start, idx + h.blocks[idx].owned, idx);
      FreeingLinks(h.blocks, heads, View(), hs, list, start, idx + h.blocks[idx].owned, idx);
      var n := start + mem[start].owned;
      if n < mem.Length && !mem[n].used {
        JoinNext(start, list);
      }
    }

    /** The body of `deallocate` once the header is known. */
    method Return(idx: nat)
      requires Returnable(View(), idx, heads, order)
      modifies mem, this`first, this`last, this`used
      ensures View() == HeapFree.Deallocate(old(View()), idx, heads, order)
    {
      hide Freeing, Coalesce, Release, FreeRest, FreeHeads, FreeEnd, FreeStart, Shape, Coalesced, ListIsFreeChunks,
           PredecessorInUse, UsedBlocks;
      ghost var h := View();
      var owned := mem[idx].owned;
      CoalesceEffect(h, idx, heads, order);
      ReturnableParts(h, idx, heads, order);
      UsedCoversChunk(h.blocks, heads, idx);
      ghost var list := FreeRest(h.blocks, order, idx);
      var start := JoinNeighbours(idx);
      FreeingLinks(h.blocks, heads, View(), FreeHeads(h.blocks, heads, idx), list, start, FreeEnd(h.blocks, idx), idx);
      CoalesceCounters(h, idx, heads, order);
      ListAsFree(start, list);
      used := used - owned * BLOCK_SIZE;
    }
  }

  lemma {:induction false} PositiveAlignment(base: nat, blocks: nat, size: nat, alignment: nat)
    requires Request(base, blocks, size, alignment)
    ensures alignment > 0 && PowerOfTwo(alignment)
  {
  }

  lemma {:induction false} CoalescedPart(h: Heap, idx: nat, heads: set<nat>, order: seq<nat>)
    requires Returnable(h, idx, heads, order)
    ensures Coalesced(h.blocks, heads)
  {
  }

  lemma {:induction false} ReturnableParts(h: Heap, idx: nat, heads: set<nat>, order: seq<nat>)
    requires Returnable(h, idx, heads, order)
    ensures Linked(h, order) && Tiling(h.blocks, heads) && |h.blocks| < INVALID_IDX
    ensures h.blocks[idx].before <= idx
    ensures MergesBack(h.blocks, idx) ==> idx - h.blocks[idx].before in order
  {
    TiledHead(h.blocks, heads, idx);
  }

  lemma {:induction false} InvParts(s: System)
    requires Inv(s)
    ensures Linked(s.heap, s.order) && |s.heap.blocks| < INVALID_IDX
    ensures s.base % BLOCK_SIZE == 0 && WellFormed(s.heap, s.heads, s.order)
  {
  }
}
