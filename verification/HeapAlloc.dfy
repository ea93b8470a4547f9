/** `allocate` and `deallocate` as functions on the heap value, and the invariant they keep. */
module HeapAlloc {
  import opened HeapArith
  import opened HeapModel
  import opened HeapTiling
  import opened HeapOps

  /** The allocator's invariant: the chunks tile the buffer, the free list holds exactly the
      free chunks, no two free chunks touch, and the byte counter counts the used chunks. */
  ghost predicate WellFormed(h: Heap, heads: set<nat>, order: seq<nat>) {
    && Shape(h, heads, order)
    && ListIsFreeChunks(h.blocks, heads, order)
    && Coalesced(h.blocks, heads)
    && h.used == BLOCK_SIZE * |UsedBlocks(h.blocks, heads)|
    && h.used <= h.peak
  }

  ghost predicate ListIsFreeChunks(b: seq<Header>, heads: set<nat>, order: seq<nat>) {
    forall x :: x in heads ==> (x in order <==> FreeAt(b, x))
  }

  // ---------------------------------------------------------------- allocate

  predicate Fits(b: seq<Header>, base: nat, idx: nat, size: nat, alignment: nat)
    requires alignment > 0
  {
    && idx < |b|
    && BlocksNeeded(size, AlignRightDiff(DataAddr(base, idx), alignment)) <= b[idx].owned
  }

  /** The first chunk of the list that can take the request, or `INVALID_IDX`. */
  function FirstFit(b: seq<Header>, base: nat, order: seq<nat>, size: nat, alignment: nat): (r: nat)
    requires alignment > 0
    ensures r == INVALID_IDX || (r in order && Fits(b, base, r, size, alignment))
    ensures r == INVALID_IDX && |b| < INVALID_IDX ==>
              forall x :: x in order ==> !Fits(b, base, x, size, alignment)
  {
    if order == [] then INVALID_IDX
    else if Fits(b, base, order[0], size, alignment) then order[0]
    else FirstFit(b, base, order[1..], size, alignment)
  }

  function SkipBlocks(base: nat, idx: nat, alignment: nat): nat
    requires alignment > 0
  {
    AlignRightDiff(DataAddr(base, idx), alignment) / BLOCK_SIZE
  }

  ghost predicate Placeable(h: Heap, base: nat, idx: nat, size: nat, alignment: nat,
                            heads: set<nat>, order: seq<nat>)
  {
    && Shape(h, heads, order)
    && base % BLOCK_SIZE == 0
    && Request(base, |h.blocks|, size, alignment)
    && idx in order && idx < |h.blocks| && alignment > 0
    && Fits(h.blocks, base, idx, size, alignment)
  }

  lemma {:induction false} PlaceSizes(h: Heap, base: nat, idx: nat, size: nat, alignment: nat,
                   heads: set<nat>, order: seq<nat>)
    requires Placeable(h, base, idx, size, alignment, heads, order)
    ensures BlocksNeeded(size, AlignRightDiff(DataAddr(base, idx), alignment))
            == SkipBlocks(base, idx, alignment) + RequestBlocks(size)
    ensures SkipBlocks(base, idx, alignment) + RequestBlocks(size) <= h.blocks[idx].owned
    ensures idx + h.blocks[idx].owned <= |h.blocks|
  {
    BlocksNeededSplits(base, |h.blocks|, idx, size, alignment);
    assert TiledAt(h.blocks, heads, idx);
  }

  ghost predicate Takeable(h: Heap, idx: nat, skip: nat, need: nat, heads: set<nat>, order: seq<nat>) {
    && Shape(h, heads, order)
    && idx in order && idx < |h.blocks|
    && 0 < need && skip + need <= h.blocks[idx].owned
  }

  /** Lines 174 to 208 of `allocate`: leave `skip` blocks of the free chunk at `idx` as a free
      chunk of their own and take the `need` blocks behind them. */
  function Take(h: Heap, idx: nat, skip: nat, need: nat, ghost heads: set<nat>, ghost order: seq<nat>): (r: Heap)
    requires Takeable(h, idx, skip, need, heads, order)
  {
    hide SplitPrefix, Carve, SplitPrefixOrder;
    if skip != 0 then
      ShapeSplitPrefix(h, heads, order, idx, skip);
      var h1 := SplitPrefix(h, idx, skip, order);
      ghost var o1 := SplitPrefixOrder(|h.blocks|, skip, order, idx);
      ShapeCarve(h1, heads + {idx + skip}, o1, idx + skip, need);
      Carve(h1, idx + skip, need, o1)
    else
      ShapeCarve(h, heads, order, idx, need);
      Carve(h, idx, need, order)
  }

  ghost function TakeHeads(heads: set<nat>, idx: nat, skip: nat, owned: nat, need: nat): set<nat>
    requires skip <= owned
  {
    CarveHeads(if skip != 0 then heads + {idx + skip} else heads, idx + skip, owned - skip, need)
  }

  ghost function TakeOrder(blocks: nat, order: seq<nat>, idx: nat, skip: nat, owned: nat, need: nat): seq<nat>
    requires skip + need <= owned
  {
    CarveOrder(blocks, if skip != 0 then SplitPrefixOrder(blocks, skip, order, idx) else order,
               idx + skip, owned - skip, need)
  }

  /** What taking does to the chunks: the free chunk at `idx` becomes an optional free prefix,
      the used chunk, and an optional free tail. */
  ghost predicate Taken(b: seq<Header>, c: seq<Header>, heads: set<nat>, idx: nat, skip: nat, need: nat)
    requires idx < |b|
  {
    var owned := b[idx].owned;
    && Kept(b, c, heads, {idx})
    && (skip != 0 ==> ChunkIs(c, idx, skip, false))
    && ChunkIs(c, idx + skip, need, true)
    && (skip + need < owned ==> ChunkIs(c, idx + skip + need, owned - skip - need, false))
    && Quiet(b, c, heads, idx, idx + owned)
  }

  lemma {:induction false} ShapeTake(h: Heap, idx: nat, skip: nat, need: nat, heads: set<nat>, order: seq<nat>)
    requires Takeable(h, idx, skip, need, heads, order) && !h.blocks[idx].used
    ensures var owned := h.blocks[idx].owned;
            var r := Take(h, idx, skip, need, heads, order);
            && Shape(r, TakeHeads(heads, idx, skip, owned, need),
                     TakeOrder(|h.blocks|, order, idx, skip, owned, need))
            && |r.blocks| == |h.blocks|
            && Taken(h.blocks, r.blocks, heads, idx, skip, need)
            && r.used == h.used + BLOCK_SIZE * need
            && r.peak == (if h.peak < r.used then r.used else h.peak)
  {
    hide SplitPrefix, Carve, CarveOrder, SplitPrefixOrder;
    if skip != 0 {
      ShapeSplitPrefix(h, heads, order, idx, skip);
      var h1 := SplitPrefix(h, idx, skip, order);
      var o1 := SplitPrefixOrder(|h.blocks|, skip, order, idx);
      ShapeCarve(h1, heads + {idx + skip}, o1, idx + skip, need);
      TakenAfterPrefix(h.blocks, h1.blocks, Take(h, idx, skip, need, heads, order).blocks, heads, idx, skip, need);
    } else {
      ShapeCarve(h, heads, order, idx, need);
    }
  }

  lemma {:induction false} TakenAfterPrefix(b: seq<Header>, b1: seq<Header>, c: seq<Header>, heads: set<nat>,
                                            idx: nat, skip: nat, need: nat)
    requires Tiling(b, heads) && idx in heads && idx < |b| && skip > 0 && need > 0 && skip + need <= b[idx].owned
    requires !b[idx].used && idx + skip < |b| && idx + skip !in heads
    requires SplitTags(b, b1, idx, skip) && SameUseBut(b, b1, idx + skip)
    requires Quiet(b, b1, heads, idx, idx + b[idx].owned)
    requires Kept(b1, c, heads + {idx + skip}, {idx + skip})
    requires ChunkIs(c, idx + skip, need, true)
    requires need < b[idx].owned - skip ==> ChunkIs(c, idx + skip + need, b[idx].owned - skip - need, false)
    requires Quiet(b1, c, heads + {idx + skip}, idx + skip, idx + b[idx].owned)
    ensures Taken(b, c, heads, idx, skip, need)
  {
    assert ChunkIs(c, idx, b1[idx].owned, b1[idx].used);
    forall x | x in heads && x != idx && x < |b| ensures ChunkIs(c, x, b[x].owned, b[x].used) {
      assert ChunkIs(c, x, b1[x].owned, b1[x].used);
    }
  }

  /** Lines 163 to 208 of `allocate`: serve the request from the chunk at `idx`. */
  function Place(h: Heap, base: nat, idx: nat, size: nat, alignment: nat,
                 ghost heads: set<nat>, ghost order: seq<nat>): (r: Heap)
    requires Placeable(h, base, idx, size, alignment, heads, order)
  {
    PlaceSizes(h, base, idx, size, alignment, heads, order);
    var skip := SkipBlocks(base, idx, alignment);
    var need := BlocksNeeded(size, AlignRightDiff(DataAddr(base, idx), alignment)) - skip;
    Take(h, idx, skip, need, heads, order)
  }

  // ---------------------------------------------------------------- taking keeps the invariant

  lemma {:induction false} TakeOrderMembers(blocks: nat, order: seq<nat>, idx: nat, skip: nat, owned: nat, need: nat)
    requires Distinct(order) && idx in order && skip + need <= owned && 0 < need
    ensures forall x :: x in TakeOrder(blocks, order, idx, skip, owned, need) <==>
              || (x in order && x != idx && x != idx + skip)
              || (skip != 0 && x == idx)
              || (skip + need < owned && x == idx + skip + need)
  {
    WithoutMembers(order, idx);
    if skip != 0 {
      DistinctPush(blocks, skip, Without(order, idx), idx);
      WithoutMembers(SplitPrefixOrder(blocks, skip, order, idx), idx + skip);
    }
  }

  lemma {:induction false} TakeLists(h: Heap, idx: nat, skip: nat, need: nat, heads: set<nat>, order: seq<nat>,
                                     c: seq<Header>)
    requires Takeable(h, idx, skip, need, heads, order) && ListIsFreeChunks(h.blocks, heads, order)
    requires Taken(h.blocks, c, heads, idx, skip, need) && |c| == |h.blocks|
    requires Tiling(c, TakeHeads(heads, idx, skip, h.blocks[idx].owned, need))
    ensures ListIsFreeChunks(c, TakeHeads(heads, idx, skip, h.blocks[idx].owned, need),
                             TakeOrder(|c|, order, idx, skip, h.blocks[idx].owned, need))
  {
    hide TakeOrder;
    var owned := h.blocks[idx].owned;
    var hs := TakeHeads(heads, idx, skip, owned, need);
    var o := TakeOrder(|c|, order, idx, skip, owned, need);
    TakeOrderMembers(|c|, order, idx, skip, owned, need);
    assert TiledAt(h.blocks, heads, idx);
    InsideIsNoHead(h.blocks, heads, idx, skip);
    InsideIsNoHead(h.blocks, heads, idx, skip + need);
    forall x | x in hs ensures x in o <==> FreeAt(c, x) {
      if x in heads && x != idx {
        assert TiledAt(h.blocks, heads, x);
        assert ChunkIs(c, x, h.blocks[x].owned, h.blocks[x].used);
      }
    }
  }

  lemma {:induction false} InsideIsNoHead(b: seq<Header>, heads: set<nat>, h: nat, d: nat)
    requires Tiling(b, heads) && h in heads
    ensures h < |b| && (0 < d < b[h].owned ==> h + d !in heads)
  {
    assert TiledAt(b, heads, h);
    assert d > 0 && h + d in heads ==> Apart(b, h, h + d);
  }

  lemma {:induction false} TakeCoalesces(b: seq<Header>, c: seq<Header>, heads: set<nat>, hs: set<nat>, idx: nat,
                                         skip: nat, need: nat)
    requires Tiling(b, heads) && Coalesced(b, heads) && idx in heads && FreeAt(b, idx) && |c| == |b|
    requires 0 < need && skip + need <= b[idx].owned
    requires Taken(b, c, heads, idx, skip, need) && hs == TakeHeads(heads, idx, skip, b[idx].owned, need)
    ensures Coalesced(c, hs)
  {
    assert TiledAt(b, heads, idx);
    forall x | x in hs && FreeAt(c, x) ensures !FreeAt(c, x + c[x].owned) {
      if x in heads && x != idx {
        assert TiledAt(b, heads, x);
        assert ChunkIs(c, x, b[x].owned, b[x].used);
        NextStaysUsed(b, c, heads, idx, x);
      } else if x == idx + skip + need {
        assert x + c[x].owned == idx + b[idx].owned;
        NextStaysUsed(b, c, heads, idx, idx);
      }
    }
  }

  lemma {:induction false} NextStaysUsed(b: seq<Header>, c: seq<Header>, heads: set<nat>, idx: nat, x: nat)
    requires Tiling(b, heads) && Coalesced(b, heads) && |c| == |b|
    requires idx in heads && FreeAt(b, idx) && Kept(b, c, heads, {idx})
    requires x in heads && FreeAt(b, x)
    ensures !FreeAt(c, x + b[x].owned)
  {
    assert TiledAt(b, heads, x);
    var n := x + b[x].owned;
    if n < |b| {
      assert !FreeAt(b, n);
      assert ChunkIs(c, n, b[n].owned, b[n].used);
    }
  }

  /** Taking marks exactly the blocks of the new chunk as used. */
  lemma {:induction false} TakeUses(b: seq<Header>, c: seq<Header>, heads: set<nat>, hs: set<nat>, idx: nat,
                                    skip: nat, need: nat)
    requires Tiling(b, heads) && idx in heads && FreeAt(b, idx) && |c| == |b|
    requires 0 < need && skip + need <= b[idx].owned
    requires Taken(b, c, heads, idx, skip, need) && hs == TakeHeads(heads, idx, skip, b[idx].owned, need)
    ensures UsedBlocks(c, hs) == UsedBlocks(b, heads) + Interval(idx + skip, idx + skip + need)
    ensures UsedBlocks(b, heads) !! Interval(idx + skip, idx + skip + need)
  {
    assert TiledAt(b, heads, idx);
    forall x | x in UsedBlocks(b, heads)
      ensures x in UsedBlocks(c, hs) && !(idx <= x < idx + b[idx].owned)
    {
      var g :| g in heads && InChunk(b, g, x) && b[g].used;
      assert g != idx && ChunkIs(c, g, b[g].owned, b[g].used);
      assert InChunk(c, g, x) && g in hs;
      assert g < idx ==> Apart(b, g, idx);
      assert idx < g ==> Apart(b, idx, g);
    }
    forall x | x in UsedBlocks(c, hs)
      ensures x in UsedBlocks(b, heads) + Interval(idx + skip, idx + skip + need)
    {
      var g :| g in hs && InChunk(c, g, x) && c[g].used;
      if g != idx + skip {
        assert g in heads && g != idx;
        assert ChunkIs(c, g, b[g].owned, b[g].used);
        assert InChunk(b, g, x);
      }
    }
    forall x | x in Interval(idx + skip, idx + skip + need) ensures x in UsedBlocks(c, hs) {
      assert InChunk(c, idx + skip, x);
    }
  }

  lemma {:induction false} MembersAreFree(b: seq<Header>, heads: set<nat>, order: seq<nat>, idx: nat)
    requires ListIsFreeChunks(b, heads, order) && idx in heads
    ensures idx in order <==> FreeAt(b, idx)
  {
  }

  /** Taking blocks of a free chunk keeps the invariant. */
  lemma {:induction false} TakeKeepsWellFormed(h: Heap, idx: nat, skip: nat, need: nat, heads: set<nat>,
                                               order: seq<nat>)
    requires WellFormed(h, heads, order) && Takeable(h, idx, skip, need, heads, order)
    ensures var owned := h.blocks[idx].owned;
            WellFormed(Take(h, idx, skip, need, heads, order),
                       TakeHeads(heads, idx, skip, owned, need),
                       TakeOrder(|h.blocks|, order, idx, skip, owned, need))
  {
    hide Take, TakeOrder, Linked, Tiling, ListIsFreeChunks, Coalesced, TakeHeads, UsedBlocks, Interval, Taken;
    MembersAreFree(h.blocks, heads, order, idx);
    var r := Take(h, idx, skip, need, heads, order);
    var hs := TakeHeads(heads, idx, skip, h.blocks[idx].owned, need);
    ShapeTake(h, idx, skip, need, heads, order);
    TakeLists(h, idx, skip, need, heads, order, r.blocks);
    TakeCoalesces(h.blocks, r.blocks, heads, hs, idx, skip, need);
    TakeUses(h.blocks, r.blocks, heads, hs, idx, skip, need);
    IntervalSize(idx + skip, idx + skip + need);
  }
}
