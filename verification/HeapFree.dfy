/** `deallocate` on the heap value: merge with free neighbours on both sides, then list the
    result. */
module HeapFree {
  import opened HeapArith
  import opened HeapModel
  import opened HeapTiling
  import opened HeapOps
  import opened HeapAlloc

  /** The chunk at `idx` is being returned and has grown to the blocks `lo..hi` by taking over
      free neighbours; it is out of the list, everything else is as it was in `b`. */
  ghost predicate Freeing(b: seq<Header>, heads: set<nat>, h: Heap, hs: set<nat>, order: seq<nat>,
                          lo: nat, hi: nat, idx: nat)
  {
    && Shape(h, hs, order) && |h.blocks| == |b|
    && idx in heads && idx < |b|
    && lo <= idx && idx + b[idx].owned <= hi <= |b|
    && lo in hs && lo !in order && h.blocks[lo].owned == hi - lo
    && (forall x :: x in heads ==> (x in hs <==> !(lo < x < hi)))
    && (forall x :: x in hs ==> x in heads)
    && (forall x :: x in hs && x != lo ==> x < |b| && ChunkIs(h.blocks, x, b[x].owned, b[x].used))
    && (forall x :: x in hs && x != lo ==> (x in order <==> FreeAt(b, x)))
    && (forall x :: x in heads && lo <= x < hi && x != idx ==> FreeAt(b, x))
    && Quiet(b, h.blocks, heads, lo, hi)
  }

  lemma {:induction false} FreeingStarts(h: Heap, heads: set<nat>, order: seq<nat>, idx: nat)
    requires Shape(h, heads, order) && ListIsFreeChunks(h.blocks, heads, order)
    requires idx in heads && idx !in order
    ensures idx < |h.blocks|
    ensures Freeing(h.blocks, heads, h, heads, order, idx, idx + h.blocks[idx].owned, idx)
  {
    assert TiledAt(h.blocks, heads, idx);
    forall x | x in heads
      ensures x < |h.blocks| && !(idx < x < idx + h.blocks[idx].owned)
    {
      assert TiledAt(h.blocks, heads, x);
      assert idx < x ==> Apart(h.blocks, idx, x);
    }
  }

  lemma {:induction false} FreeingBack(b: seq<Header>, heads: set<nat>, h: Heap, order: seq<nat>, idx: nat)
    requires Tiling(b, heads) && idx < |b|
    requires Freeing(b, heads, h, heads, order, idx, idx + b[idx].owned, idx)
    requires SameTags(b, h.blocks) && SameUse(b, h.blocks)
    requires 0 < b[idx].before <= idx && FreeAt(b, idx - b[idx].before)
    ensures var p := idx - b[idx].before;
            && p in order
            && h.blocks[idx].before == b[idx].before
            && Freeing(b, heads, MergeIntoPrevious(h, idx, order), heads - {idx}, Without(order, p),
                       p, idx + b[idx].owned, idx)
  {
    hide MergeIntoPrevious, Without, Linked, Quiet;
    assert TiledAt(b, heads, idx);
    var p := idx - b[idx].before;
    assert TiledAt(b, heads, p);
    ShapeMergeIntoPrevious(h, heads, order, idx);
    var r := MergeIntoPrevious(h, idx, order);
    assert r.blocks[p].owned == idx + b[idx].owned - p;
    forall x | x in heads
      ensures x in heads - {idx} <==> !(p < x < idx + b[idx].owned)
    {
      assert p < x ==> Apart(b, p, x);
      assert idx < x ==> Apart(b, idx, x);
    }
    forall x | x in heads - {idx} && x != p
      ensures x < |b| && ChunkIs(r.blocks, x, b[x].owned, b[x].used)
    {
      assert TiledAt(b, heads, x);
      assert ChunkIs(r.blocks, x, h.blocks[x].owned, h.blocks[x].used);
    }
    QuietTrans(b, h.blocks, r.blocks, heads, idx, idx + b[idx].owned, p, idx, p, idx + b[idx].owned);
  }

  lemma {:induction false} QuietTrans(b: seq<Header>, c: seq<Header>, d: seq<Header>, heads: set<nat>,
                   lo1: nat, hi1: nat, lo2: nat, hi2: nat, lo: nat, hi: nat)
    requires Quiet(b, c, heads, lo1, hi1) && Quiet(c, d, heads, lo2, hi2)
    requires lo <= lo1 && hi1 <= hi && lo <= lo2 && hi2 <= hi
    ensures Quiet(b, d, heads, lo, hi)
  {
  }

  lemma {:induction false} FreeingFront(b: seq<Header>, heads: set<nat>, h: Heap, hs: set<nat>, order: seq<nat>,
                     lo: nat, hi: nat, idx: nat)
    requires Tiling(b, heads) && Freeing(b, heads, h, hs, order, lo, hi, idx)
    requires FreeAt(b, hi)
    ensures hi in order && lo + h.blocks[lo].owned == hi && FreeAt(h.blocks, hi)
    ensures Freeing(b, heads, MergeNext(h, lo, order), hs - {hi}, Without(order, hi),
                    lo, hi + b[hi].owned, idx)
  {
    hide MergeNext, Without, Linked, Quiet, Tiling;
    TiledHead(h.blocks, hs, lo);
    assert hi in hs && hi in heads;
    TiledHead(b, heads, hi);
    ShapeMergeNext(h, hs, order, lo);
    var r := MergeNext(h, lo, order);
    forall x | x in heads
      ensures x in hs - {hi} <==> !(lo < x < hi + b[hi].owned)
    {
      HeadsApart(b, heads, hi, x);
    }
    forall x | x in hs - {hi} && x != lo
      ensures x < |b| && ChunkIs(r.blocks, x, b[x].owned, b[x].used)
    {
      TiledHead(b, heads, x);
      assert ChunkIs(r.blocks, x, h.blocks[x].owned, h.blocks[x].used);
    }
    forall x | x in heads && lo <= x < hi + b[hi].owned && x != idx ensures FreeAt(b, x) {
      HeadsApart(b, heads, hi, x);
    }
    QuietShrink(h.blocks, r.blocks, hs, heads, lo, hi);
    QuietTrans(b, h.blocks, r.blocks, heads, lo, hi, lo, hi, lo, hi + b[hi].owned);
  }

  lemma {:induction false} QuietShrink(b: seq<Header>, c: seq<Header>, hs: set<nat>, heads: set<nat>, lo: nat, hi: nat)
    requires Quiet(b, c, hs, lo, hi) && forall x :: x in hs ==> x in heads
    ensures Quiet(b, c, heads, lo, hi)
  {
  }

  // ---------------------------------------------------------------- deallocate

  predicate MergesBack(b: seq<Header>, idx: nat)
    requires idx < |b| && b[idx].before <= idx
  {
    b[idx].before != 0 && !b[idx - b[idx].before].used
  }

  ghost predicate Returnable(h: Heap, idx: nat, heads: set<nat>, order: seq<nat>) {
    && WellFormed(h, heads, order)
    && idx in heads && idx < |h.blocks| && h.blocks[idx].used
  }

  /** The first step of `deallocate`, lines 248 to 264: the heap and the start of the chunk. */
  function DeallocateBack(h: Heap, idx: nat, ghost heads: set<nat>, ghost order: seq<nat>): (r: (Heap, nat))
    requires Returnable(h, idx, heads, order)
  {
    assert TiledAt(h.blocks, heads, idx);
    if MergesBack(h.blocks, idx) then
      (MergeIntoPrevious(h, idx, order), idx - h.blocks[idx].before)
    else
      (h, idx)
  }

  ghost function BackHeads(b: seq<Header>, heads: set<nat>, idx: nat): set<nat>
    requires idx < |b| && b[idx].before <= idx
  {
    if MergesBack(b, idx) then heads - {idx} else heads
  }

  ghost function BackOrder(b: seq<Header>, order: seq<nat>, idx: nat): seq<nat>
    requires idx < |b| && b[idx].before <= idx
  {
    if MergesBack(b, idx) then Without(order, idx - b[idx].before) else order
  }

  lemma {:induction false} DeallocateBackEffect(h: Heap, idx: nat, heads: set<nat>, order: seq<nat>)
    requires Returnable(h, idx, heads, order)
    ensures h.blocks[idx].before <= idx
    ensures var (r, lo) := DeallocateBack(h, idx, heads, order);
            && Freeing(h.blocks, heads, r, BackHeads(h.blocks, heads, idx), BackOrder(h.blocks, order, idx),
                       lo, idx + h.blocks[idx].owned, idx)
            && PredecessorInUse(h.blocks, heads, lo)
  {
    hide Freeing, MergeIntoPrevious, Tiling, Linked, Coalesced, UsedBlocks, ListIsFreeChunks, Without, PredecessorInUse;
    TiledHead(h.blocks, heads, idx);
    MembersAreFree(h.blocks, heads, order, idx);
    FreeingStarts(h, heads, order, idx);
    BackPredecessor(h.blocks, heads, idx);
    if MergesBack(h.blocks, idx) {
      FreeingBack(h.blocks, heads, h, order, idx);
    }
  }

  /** No free chunk ends at `lo`. */
  ghost predicate PredecessorInUse(b: seq<Header>, heads: set<nat>, lo: nat) {
    forall x :: x in heads && FreeAt(b, x) ==> x + b[x].owned != lo
  }

  lemma {:induction false} BackPredecessor(b: seq<Header>, heads: set<nat>, idx: nat)
    requires Tiling(b, heads) && Coalesced(b, heads) && idx in heads && idx < |b| && b[idx].before <= idx
    ensures PredecessorInUse(b, heads, if MergesBack(b, idx) then idx - b[idx].before else idx)
  {
    assert TiledAt(b, heads, idx);
    forall x | x in heads && FreeAt(b, x)
      ensures x + b[x].owned != if MergesBack(b, idx) then idx - b[idx].before else idx
    {
      assert TiledAt(b, heads, x);
      if MergesBack(b, idx) {
        assert !FreeAt(b, x + b[x].owned);
      } else if x + b[x].owned == idx {
        NoTwoPredecessors(b, heads, idx, x);
        assert false;
      }
    }
  }

  /** The second step of `deallocate`, lines 269 to 287. */
  function DeallocateFront(h: Heap, lo: nat, ghost order: seq<nat>): (r: Heap)
    requires Linked(h, order) && lo < |h.blocks| < INVALID_IDX
    requires FreeAt(h.blocks, lo + h.blocks[lo].owned) ==> lo + h.blocks[lo].owned in order
  {
    var n := lo + h.blocks[lo].owned;
    if n < |h.blocks| && !h.blocks[n].used then MergeNext(h, lo, order) else h
  }

  ghost function FrontHeads(b: seq<Header>, hs: set<nat>, hi: nat): set<nat> {
    if FreeAt(b, hi) then hs - {hi} else hs
  }

  ghost function FrontOrder(b: seq<Header>, order: seq<nat>, hi: nat): seq<nat> {
    if FreeAt(b, hi) then Without(order, hi) else order
  }

  ghost function FrontEnd(b: seq<Header>, hi: nat): nat {
    if FreeAt(b, hi) then hi + b[hi].owned else hi
  }

  lemma {:induction false} DeallocateFrontEffect(b: seq<Header>, heads: set<nat>, h: Heap, hs: set<nat>,
                                                 order: seq<nat>,
                              lo: nat, hi: nat, idx: nat)
    requires Tiling(b, heads) && Coalesced(b, heads)
    requires Freeing(b, heads, h, hs, order, lo, hi, idx)
    ensures FreeAt(h.blocks, lo + h.blocks[lo].owned) ==> lo + h.blocks[lo].owned in order
    ensures Freeing(b, heads, DeallocateFront(h, lo, order), FrontHeads(b, hs, hi), FrontOrder(b, order, hi),
                    lo, FrontEnd(b, hi), idx)
    ensures !FreeAt(b, FrontEnd(b, hi))
  {
    hide MergeNext, Linked, Tiling, Quiet, Without;
    TiledHead(h.blocks, hs, lo);
    if FreeAt(b, hi) {
      FreeingFront(b, heads, h, hs, order, lo, hi, idx);
    } else if hi < |b| {
      assert ChunkIs(h.blocks, hi, b[hi].owned, b[hi].used);
    }
  }

  ghost function FreeStart(b: seq<Header>, idx: nat): nat
    requires idx < |b| && b[idx].before <= idx
  {
    if MergesBack(b, idx) then idx - b[idx].before else idx
  }

  ghost function FreeEnd(b: seq<Header>, idx: nat): nat
    requires idx < |b|
  {
    FrontEnd(b, idx + b[idx].owned)
  }

  ghost function FreeHeads(b: seq<Header>, heads: set<nat>, idx: nat): set<nat>
    requires idx < |b| && b[idx].before <= idx
  {
    FrontHeads(b, BackHeads(b, heads, idx), idx + b[idx].owned)
  }

  /** The list just before the merged chunk is pushed. */
  ghost function FreeRest(b: seq<Header>, order: seq<nat>, idx: nat): seq<nat>
    requires idx < |b| && b[idx].before <= idx
  {
    FrontOrder(b, BackOrder(b, order, idx), idx + b[idx].owned)
  }

  ghost function FreeOrder(b: seq<Header>, order: seq<nat>, idx: nat): seq<nat>
    requires idx < |b| && b[idx].before <= idx
  {
    var lo, hi := FreeStart(b, idx), FreeEnd(b, idx);
    PushOrder(|b|, if lo <= hi then hi - lo else 0, FreeRest(b, order, idx), lo)
  }

  /** Both merges of `deallocate`. */
  function Coalesce(h: Heap, idx: nat, ghost heads: set<nat>, ghost order: seq<nat>): (r: (Heap, nat))
    requires Returnable(h, idx, heads, order)
  {
    hide Freeing, DeallocateBack, Coalesced, Shape;
    DeallocateBackEffect(h, idx, heads, order);
    var (h1, lo) := DeallocateBack(h, idx, heads, order);
    ghost var hs := BackHeads(h.blocks, heads, idx);
    ghost var o1 := BackOrder(h.blocks, order, idx);
    ShapeIsTiling(h, heads, order);
    DeallocateFrontEffect(h.blocks, heads, h1, hs, o1, lo, idx + h.blocks[idx].owned, idx);
    FreeingLinks(h.blocks, heads, h1, hs, o1, lo, idx + h.blocks[idx].owned, idx);
    (DeallocateFront(h1, lo, o1), lo)
  }

  lemma {:induction false} ShapeIsTiling(h: Heap, heads: set<nat>, order: seq<nat>)
    requires Shape(h, heads, order)
    ensures Tiling(h.blocks, heads)
  {
  }

  lemma {:induction false} FreeingLinks(b: seq<Header>, heads: set<nat>, h: Heap, hs: set<nat>, order: seq<nat>,
                     lo: nat, hi: nat, idx: nat)
    requires Freeing(b, heads, h, hs, order, lo, hi, idx)
    ensures Linked(h, order) && lo < |h.blocks| == |b| && |b| < INVALID_IDX
    ensures lo !in order && Loose(h.blocks, lo)
  {
  }

  lemma {:induction false} CoalesceEffect(h: Heap, idx: nat, heads: set<nat>, order: seq<nat>)
    requires Returnable(h, idx, heads, order)
    ensures h.blocks[idx].before <= idx
    ensures var (r, lo) := Coalesce(h, idx, heads, order);
            && lo == FreeStart(h.blocks, idx)
            && Freeing(h.blocks, heads, r, FreeHeads(h.blocks, heads, idx), FreeRest(h.blocks, order, idx),
                       lo, FreeEnd(h.blocks, idx), idx)
            && PredecessorInUse(h.blocks, heads, lo)
            && !FreeAt(h.blocks, FreeEnd(h.blocks, idx))
  {
    hide Freeing, DeallocateFront, Coalesced, Shape, PredecessorInUse, MergeIntoPrevious;
    DeallocateBackEffect(h, idx, heads, order);
    var (h1, lo) := DeallocateBack(h, idx, heads, order);
    ShapeIsTiling(h, heads, order);
    DeallocateFrontEffect(h.blocks, heads, h1, BackHeads(h.blocks, heads, idx),
                          BackOrder(h.blocks, order, idx), lo, idx + h.blocks[idx].owned, idx);
  }

  /** `deallocate` once the header has been found. */
  function Deallocate(h: Heap, idx: nat, ghost heads: set<nat>, ghost order: seq<nat>): (r: Heap)
    requires Returnable(h, idx, heads, order)
  {
    hide Freeing, Coalesce, FreeRest, FreeHeads, FreeEnd;
    CoalesceEffect(h, idx, heads, order);
    UsedCoversChunk(h.blocks, heads, idx);
    var (h2, lo) := Coalesce(h, idx, heads, order);
    FreeingLinks(h.blocks, heads, h2, FreeHeads(h.blocks, heads, idx), FreeRest(h.blocks, order, idx),
                 lo, FreeEnd(h.blocks, idx), idx);
    Release(h2, lo, FreeRest(h.blocks, order, idx)).(used := h.used - h.blocks[idx].owned * BLOCK_SIZE)
  }

  lemma {:induction false} UsedCoversChunk(b: seq<Header>, heads: set<nat>, idx: nat)
    requires Tiling(b, heads) && idx in heads && idx < |b| && b[idx].used
    ensures Interval(idx, idx + b[idx].owned) <= UsedBlocks(b, heads)
    ensures b[idx].owned <= |UsedBlocks(b, heads)|
  {
    assert TiledAt(b, heads, idx);
    forall x | x in Interval(idx, idx + b[idx].owned) ensures x in UsedBlocks(b, heads) {
      assert InChunk(b, idx, x);
    }
    IntervalSize(idx, idx + b[idx].owned);
    SubsetSize(Interval(idx, idx + b[idx].owned), UsedBlocks(b, heads));
  }

  /** What returning a chunk does to the chunks: it and its free neighbours become one. */
  ghost predicate Freed(b: seq<Header>, c: seq<Header>, heads: set<nat>, hs: set<nat>, idx: nat, lo: nat, hi: nat)
    requires idx < |b|
  {
    && |c| == |b|
    && lo <= idx && idx + b[idx].owned <= hi <= |b|
    && lo in hs && ChunkIs(c, lo, hi - lo, false)
    && (forall x :: x in heads ==> (x in hs <==> !(lo < x < hi)))
    && (forall x :: x in hs ==> x in heads)
    && (forall x :: x in hs && x != lo ==> x < |b| && ChunkIs(c, x, b[x].owned, b[x].used))
    && (forall x :: x in heads && lo <= x < hi && x != idx ==> FreeAt(b, x))
    && Quiet(b, c, heads, lo, hi)
  }

  lemma {:induction false} DeallocateEffect(h: Heap, idx: nat, heads: set<nat>, order: seq<nat>)
    requires Returnable(h, idx, heads, order)
    ensures h.blocks[idx].before <= idx
    ensures var r := Deallocate(h, idx, heads, order);
            && Shape(r, FreeHeads(h.blocks, heads, idx), FreeOrder(h.blocks, order, idx))
            && Freed(h.blocks, r.blocks, heads, FreeHeads(h.blocks, heads, idx), idx,
                     FreeStart(h.blocks, idx), FreeEnd(h.blocks, idx))
            && ListIsFreeChunks(r.blocks, FreeHeads(h.blocks, heads, idx), FreeOrder(h.blocks, order, idx))
            && r.peak == h.peak && r.used == h.used - h.blocks[idx].owned * BLOCK_SIZE
            && PredecessorInUse(h.blocks, heads, FreeStart(h.blocks, idx))
            && !FreeAt(h.blocks, FreeEnd(h.blocks, idx))
  {
    hide Coalesce, FreeHeads, FreeRest, FreeEnd, Release, Linked, Tiling, PushOrder, UsedBlocks;
    CoalesceEffect(h, idx, heads, order);
    UsedCoversChunk(h.blocks, heads, idx);
    var (h2, lo) := Coalesce(h, idx, heads, order);
    var hi := FreeEnd(h.blocks, idx);
    var hs := FreeHeads(h.blocks, heads, idx);
    var o := FreeRest(h.blocks, order, idx);
    FreeingLinks(h.blocks, heads, h2, hs, o, lo, hi, idx);
    ShapeRelease(h2, hs, o, lo);
    ShapeIgnoresCounters(Release(h2, lo, o), hs, FreeOrder(h.blocks, order, idx),
                         h.used - h.blocks[idx].owned * BLOCK_SIZE, h.peak);
    CoalesceCounters(h, idx, heads, order);
  }

  lemma {:induction false} CoalesceCounters(h: Heap, idx: nat, heads: set<nat>, order: seq<nat>)
    requires Returnable(h, idx, heads, order)
    ensures Coalesce(h, idx, heads, order).0.peak == h.peak
    ensures Coalesce(h, idx, heads, order).0.used == h.used
  {
  }

  lemma {:induction false} FreeCoalesces(b: seq<Header>, c: seq<Header>, heads: set<nat>, hs: set<nat>, idx: nat,
                                         lo: nat, hi: nat)
    requires Tiling(b, heads) && Coalesced(b, heads) && idx in heads && idx < |b|
    requires Freed(b, c, heads, hs, idx, lo, hi) && Tiling(c, hs)
    requires PredecessorInUse(b, heads, lo) && !FreeAt(b, hi)
    ensures Coalesced(c, hs)
  {
    forall x | x in hs && FreeAt(c, x) ensures !FreeAt(c, x + c[x].owned) {
      assert TiledAt(c, hs, x);
      var n := x + c[x].owned;
      if x == lo {
        assert n < |b| ==> ChunkIs(c, n, b[n].owned, b[n].used);
      } else {
        assert ChunkIs(c, x, b[x].owned, b[x].used);
        assert FreeAt(b, x) && n != lo;
        assert n < |b| ==> ChunkIs(c, n, b[n].owned, b[n].used);
      }
    }
  }

  /** Returning a chunk frees exactly its blocks. */
  lemma {:induction false} FreeUses(b: seq<Header>, c: seq<Header>, heads: set<nat>, hs: set<nat>, idx: nat,
                                    lo: nat, hi: nat)
    requires Tiling(b, heads) && idx in heads && idx < |b| && b[idx].used
    requires Freed(b, c, heads, hs, idx, lo, hi)
    ensures UsedBlocks(c, hs) == UsedBlocks(b, heads) - Interval(idx, idx + b[idx].owned)
  {
    assert TiledAt(b, heads, idx);
    forall x | x in UsedBlocks(b, heads) && !(idx <= x < idx + b[idx].owned)
      ensures x in UsedBlocks(c, hs)
    {
      var g :| g in heads && InChunk(b, g, x) && b[g].used;
      assert g != idx && g in hs && g != lo;
      assert ChunkIs(c, g, b[g].owned, b[g].used);
      assert InChunk(c, g, x);
    }
    forall x | x in UsedBlocks(c, hs)
      ensures x in UsedBlocks(b, heads) && !(idx <= x < idx + b[idx].owned)
    {
      var g :| g in hs && InChunk(c, g, x) && c[g].used;
      assert g != lo && ChunkIs(c, g, b[g].owned, b[g].used);
      assert InChunk(b, g, x) && g != idx;
      assert g < idx ==> Apart(b, g, idx);
      assert idx < g ==> Apart(b, idx, g);
    }
  }

  /** Returning a used chunk keeps the invariant. */
  lemma {:induction false} DeallocateKeepsWellFormed(h: Heap, idx: nat, heads: set<nat>, order: seq<nat>)
    requires Returnable(h, idx, heads, order)
    ensures h.blocks[idx].before <= idx
    ensures WellFormed(Deallocate(h, idx, heads, order),
                       FreeHeads(h.blocks, heads, idx), FreeOrder(h.blocks, order, idx))
  {
    hide Deallocate, FreeHeads, FreeOrder, FreeStart, FreeEnd, Linked, Tiling, Coalesced, UsedBlocks, Interval,
         ListIsFreeChunks, PredecessorInUse, Freed, FreeAt;
    DeallocateEffect(h, idx, heads, order);
    var r := Deallocate(h, idx, heads, order);
    var hs := FreeHeads(h.blocks, heads, idx);
    var lo, hi := FreeStart(h.blocks, idx), FreeEnd(h.blocks, idx);
    FreeCoalesces(h.blocks, r.blocks, heads, hs, idx, lo, hi);
    FreeUses(h.blocks, r.blocks, heads, hs, idx, lo, hi);
    UsedCoversChunk(h.blocks, heads, idx);
    IntervalSize(idx, idx + h.blocks[idx].owned);
  }
}
