/** Whole runs of the allocator: any sequence of requests, returns and user writes. */
module HeapRuns {
  import opened HeapArith
  import opened HeapModel
  import opened HeapTiling
  import opened HeapOps
  import opened HeapAlloc
  import opened HeapFree

  // ---------------------------------------------------------------- when a request fails

  /** Blocks `p ..` are all free and can hold the header and the data, with the data aligned. */
  ghost predicate Placement(b: seq<Header>, heads: set<nat>, base: nat, p: nat, size: nat, alignment: nat)
    requires alignment > 0
  {
    && p + RequestBlocks(size) <= |b|
    && DataAddr(base, p) % alignment == 0
    && forall x :: p <= x < p + RequestBlocks(size) ==> x !in UsedBlocks(b, heads)
  }

  lemma {:induction false} FreeChunkHasNoUsedBlock(b: seq<Header>, heads: set<nat>, g: nat, x: nat)
    requires Tiling(b, heads) && g in heads && FreeAt(b, g) && g <= x < g + b[g].owned
    ensures x !in UsedBlocks(b, heads)
  {
    if InUsed(b, heads, x) {
      var k :| k in heads && InChunk(b, k, x) && b[k].used;
      OneChunkPerBlock(b, heads, g, k, x);
      assert false;
    }
  }

  lemma {:induction false} FitGivesPlacement(h: Heap, heads: set<nat>, order: seq<nat>, base: nat, size: nat,
                                             alignment: nat, g: nat)
    requires WellFormed(h, heads, order) && base % BLOCK_SIZE == 0 && alignment > 0
    requires Request(base, |h.blocks|, size, alignment)
    requires g in order && Fits(h.blocks, base, g, size, alignment)
    ensures Placement(h.blocks, heads, base, g + SkipBlocks(base, g, alignment), size, alignment)
  {
    hide UsedBlocks, RequestBlocks, Coalesced, Linked;
    assert TiledAt(h.blocks, heads, g) && FreeAt(h.blocks, g);
    var d := AlignRightDiff(DataAddr(base, g), alignment);
    var skip := SkipBlocks(base, g, alignment);
    PlaceSizes(h, base, g, size, alignment, heads, order);
    AlignDiffIsWholeBlocks(base, g, alignment);
    AlignRightDiffIsLeast(DataAddr(base, g), alignment, d);
    assert DataAddr(base, g + skip) == DataAddr(base, g) + d;
    forall x | g + skip <= x < g + skip + RequestBlocks(size) ensures x !in UsedBlocks(h.blocks, heads) {
      FreeChunkHasNoUsedBlock(h.blocks, heads, g, x);
    }
  }

  /** A placement lies inside one free chunk, because free chunks never touch; and the chunk
      accepts the request, because the gap it computes is the shortest. */
  lemma {:induction false} PlacementGivesFit(h: Heap, heads: set<nat>, order: seq<nat>, base: nat, size: nat,
                                             alignment: nat, p: nat)
    returns (g: nat)
    requires WellFormed(h, heads, order) && base % BLOCK_SIZE == 0 && alignment > 0
    requires Request(base, |h.blocks|, size, alignment)
    requires Placement(h.blocks, heads, base, p, size, alignment)
    ensures g in order && Fits(h.blocks, base, g, size, alignment)
  {
    hide RequestBlocks, Linked, Fits, BlocksNeeded, AlignRightDiff;
    var b := h.blocks;
    NeedIsPositive(size);
    g := HeadOf(b, heads, p, 0);
    assert p !in UsedBlocks(b, heads) && InChunk(b, g, p);
    assert FreeAt(b, g);
    assert TiledAt(b, heads, g);
    var e := g + b[g].owned;
    BehindFreeIsUsed(b, heads, g);
    assert e == |b| || e in UsedBlocks(b, heads);
    GapReaches(base, g, p, alignment);
    BlocksNeededSplits(base, |b|, g, size, alignment);
    FitsBySize(b, base, g, size, alignment);
  }

  lemma {:induction false} BehindFreeIsUsed(b: seq<Header>, heads: set<nat>, g: nat)
    requires Tiling(b, heads) && Coalesced(b, heads) && g in heads && FreeAt(b, g)
    ensures g + b[g].owned < |b| ==> g + b[g].owned in UsedBlocks(b, heads)
  {
    assert TiledAt(b, heads, g);
    var e := g + b[g].owned;
    if e < |b| {
      assert TiledAt(b, heads, e) && InChunk(b, e, e) && !FreeAt(b, e);
      assert InUsed(b, heads, e);
    }
  }

  lemma {:induction false} NeedIsPositive(size: nat)
    ensures RequestBlocks(size) > 0
  {
  }

  lemma {:induction false} FitsBySize(b: seq<Header>, base: nat, g: nat, size: nat, alignment: nat)
    requires alignment > 0 && g < |b|
    requires BlocksNeeded(size, AlignRightDiff(DataAddr(base, g), alignment)) <= b[g].owned
    ensures Fits(b, base, g, size, alignment)
  {
  }

  lemma {:induction false} GapReaches(base: nat, g: nat, p: nat, alignment: nat)
    requires base % BLOCK_SIZE == 0 && PowerOfTwo(alignment) && alignment > 0 && g <= p
    requires DataAddr(base, p) % alignment == 0
    ensures SkipBlocks(base, g, alignment) <= p - g
  {
    AlignRightDiffIsLeast(DataAddr(base, g), alignment, BLOCK_SIZE * (p - g));
    assert DataAddr(base, g) + BLOCK_SIZE * (p - g) == DataAddr(base, p);
  }

  /** `allocate` returns null exactly when no run of free blocks anywhere can hold the
      request at its alignment. */
  lemma {:induction false} FailsIffNoPlacement(h: Heap, heads: set<nat>, order: seq<nat>, base: nat, size: nat,
                                               alignment: nat)
    requires WellFormed(h, heads, order) && base % BLOCK_SIZE == 0 && alignment > 0
    requires Request(base, |h.blocks|, size, alignment)
    ensures FirstFit(h.blocks, base, order, size, alignment) == INVALID_IDX
            <==> !exists p :: Placement(h.blocks, heads, base, p, size, alignment)
  {
    hide Placement, WellFormed, Request, Fits, FirstFit;
    BlocksBounded(h, heads, order);
    var g := FirstFit(h.blocks, base, order, size, alignment);
    if g != INVALID_IDX {
      FitGivesPlacement(h, heads, order, base, size, alignment, g);
    } else if exists p :: Placement(h.blocks, heads, base, p, size, alignment) {
      var p :| Placement(h.blocks, heads, base, p, size, alignment);
      var f := PlacementGivesFit(h, heads, order, base, size, alignment, p);
      assert false;
    }
  }

  lemma {:induction false} BlocksBounded(h: Heap, heads: set<nat>, order: seq<nat>)
    requires WellFormed(h, heads, order)
    ensures |h.blocks| < INVALID_IDX
  {
  }

  // ---------------------------------------------------------------- runs

  datatype Live = Live(size: nat, alignment: nat)

  /** The allocator with the pointers its user holds. `heads` and `order` are the chunk starts
      and the list order, which WellFormed ties to the memory. */
  datatype System = System(base: nat, heap: Heap, heads: set<nat>, order: seq<nat>, live: map<nat, Live>)

  datatype Op =
    | Allocate(size: nat, alignment: nat)
    | Deallocate(ptr: nat)
    | UserWrite(ptr: nat, at: nat, value: Header)

  const NULL: nat := 0

  ghost predicate LiveAt(s: System, p: nat)
    requires p in s.live
  {
    && s.live[p].alignment > 0 && p % s.live[p].alignment == 0
    && s.base <= p
    && var k := HeaderIndex(s.base, p);
       && k >= 0 && k in s.heads && k < |s.heap.blocks|
       && p == DataAddr(s.base, k)
       && ChunkIs(s.heap.blocks, k, RequestBlocks(s.live[p].size), true)
  }

  ghost predicate UsedIsLive(s: System, k: nat) {
    k < |s.heap.blocks| && s.heap.blocks[k].used ==> DataAddr(s.base, k) in s.live
  }

  ghost predicate Inv(s: System) {
    && s.base % BLOCK_SIZE == 0
    && WellFormed(s.heap, s.heads, s.order)
    && (forall p {:trigger LiveAt(s, p)} :: p in s.live ==> LiveAt(s, p))
    && (forall k {:trigger UsedIsLive(s, k)} :: k in s.heads ==> UsedIsLive(s, k))
  }

  /** The blocks behind the header of a live pointer. */
  ghost function UserArea(s: System, ptr: nat): set<nat>
    requires ptr in s.live
  {
    var first := if s.base <= ptr then (ptr - s.base) / BLOCK_SIZE else 0;
    Interval(first, first + CeilDiv(s.live[ptr].size, BLOCK_SIZE))
  }

  /** What the caller owes: a power-of-two alignment and no overflow of `size_t`; a pointer that
      is null or live and passes the range check of line 230; writes inside one's own area. */
  ghost predicate Legal(s: System, op: Op)
    requires Inv(s)
  {
    match op
    case Allocate(size, alignment) => Request(s.base, |s.heap.blocks|, size, alignment)
    case Deallocate(ptr) => ptr == NULL || (ptr in s.live && ptr < s.base + BLOCK_SIZE * |s.heap.blocks|)
    case UserWrite(ptr, at, _) => ptr in s.live && at in UserArea(s, ptr) && at < |s.heap.blocks|
  }

  /** The pointer `allocate` returns. */
  ghost function AllocateResult(s: System, size: nat, alignment: nat): nat
    requires Inv(s) && Request(s.base, |s.heap.blocks|, size, alignment)
  {
    var idx := FirstFit(s.heap.blocks, s.base, s.order, size, alignment);
    if idx == INVALID_IDX then NULL
    else DataAddr(s.base, idx + SkipBlocks(s.base, idx, alignment))
  }

  ghost function AfterAllocate(s: System, size: nat, alignment: nat): System
    requires Inv(s) && Request(s.base, |s.heap.blocks|, size, alignment)
  {
    var b := s.heap.blocks;
    var idx := FirstFit(b, s.base, s.order, size, alignment);
    if idx == INVALID_IDX then s
    else
      PlaceSizes(s.heap, s.base, idx, size, alignment, s.heads, s.order);
      var skip := SkipBlocks(s.base, idx, alignment);
      System(s.base,
             Place(s.heap, s.base, idx, size, alignment, s.heads, s.order),
             TakeHeads(s.heads, idx, skip, b[idx].owned, RequestBlocks(size)),
             TakeOrder(|b|, s.order, idx, skip, b[idx].owned, RequestBlocks(size)),
             s.live[AllocateResult(s, size, alignment) := Live(size, alignment)])
  }

  ghost function AfterDeallocate(s: System, ptr: nat): System
    requires Inv(s) && ptr in s.live
  {
    assert LiveAt(s, ptr);
    var k := HeaderIndex(s.base, ptr);
    DeallocateEffect(s.heap, k, s.heads, s.order);
    System(s.base,
           HeapFree.Deallocate(s.heap, k, s.heads, s.order),
           FreeHeads(s.heap.blocks, s.heads, k),
           FreeOrder(s.heap.blocks, s.order, k),
           s.live - {ptr})
  }

  /** One call or one user write; anything the caller may not do is skipped. */
  ghost function Step(s: System, op: Op): System
    requires Inv(s)
  {
    if !Legal(s, op) then s
    else
      match op
      case Allocate(size, alignment) => AfterAllocate(s, size, alignment)
      case Deallocate(ptr) => if ptr == NULL then s else AfterDeallocate(s, ptr)
      case UserWrite(ptr, at, value) =>
        s.(heap := s.heap.(blocks := s.heap.blocks[at := value]))
  }

  lemma {:induction false} HeaderRecovered(base: nat, k: nat)
    requires base % BLOCK_SIZE == 0
    ensures base <= DataAddr(base, k)
    ensures HeaderIndex(base, DataAddr(base, k)) == k
  {
    assert (BLOCK_SIZE * (k + 1)) / BLOCK_SIZE == k + 1;
  }

  // ---------------------------------------------------------------- every step keeps the invariant

  lemma {:induction false} PlaceIsTake(s: System, size: nat, alignment: nat, idx: nat)
    requires Inv(s) && Request(s.base, |s.heap.blocks|, size, alignment)
    requires idx in s.order && alignment > 0 && Fits(s.heap.blocks, s.base, idx, size, alignment)
    ensures var skip := SkipBlocks(s.base, idx, alignment);
            var need := RequestBlocks(size);
            && Takeable(s.heap, idx, skip, need, s.heads, s.order)
            && Place(s.heap, s.base, idx, size, alignment, s.heads, s.order)
               == Take(s.heap, idx, skip, need, s.heads, s.order)
            && FreeAt(s.heap.blocks, idx) && idx in s.heads
  {
    hide Take, Linked, Tiling, Coalesced, UsedBlocks;
    PlaceSizes(s.heap, s.base, idx, size, alignment, s.heads, s.order);
    MembersAreFree(s.heap.blocks, s.heads, s.order, idx);
  }

  lemma {:induction false} ResultIsAligned(base: nat, idx: nat, alignment: nat)
    requires base % BLOCK_SIZE == 0 && PowerOfTwo(alignment) && alignment > 0
    ensures DataAddr(base, idx + SkipBlocks(base, idx, alignment)) % alignment == 0
    ensures DataAddr(base, idx + SkipBlocks(base, idx, alignment))
            == DataAddr(base, idx) + AlignRightDiff(DataAddr(base, idx), alignment)
  {
    AlignDiffIsWholeBlocks(base, idx, alignment);
    AlignRightDiffIsLeast(DataAddr(base, idx), alignment, 0);
  }

  lemma {:induction false} AllocateKeepsInv(s: System, size: nat, alignment: nat)
    requires Inv(s) && Request(s.base, |s.heap.blocks|, size, alignment)
    ensures Inv(AfterAllocate(s, size, alignment))
  {
    hide Place, Take, TakeOrder, RequestBlocks, SkipBlocks, WellFormed, HeaderIndex, DataAddr, FirstFit, Fits,
         TakeHeads;
    var b := s.heap.blocks;
    var idx := FirstFit(b, s.base, s.order, size, alignment);
    if idx != INVALID_IDX {
      var skip := SkipBlocks(s.base, idx, alignment);
      var need := RequestBlocks(size);
      PlaceIsTake(s, size, alignment, idx);
      TakeKeepsWellFormed(s.heap, idx, skip, need, s.heads, s.order);
      ShapeTake(s.heap, idx, skip, need, s.heads, s.order);
      ResultIsAligned(s.base, idx, alignment);
      HeaderRecovered(s.base, idx + skip);
      AllocateLive(s, AfterAllocate(s, size, alignment), size, alignment, idx, skip);
    }
  }

  lemma {:induction false} AllocateLive(s: System, t: System, size: nat, alignment: nat, idx: nat, skip: nat)
    requires Inv(s) && t.base == s.base && |t.heap.blocks| == |s.heap.blocks|
    requires idx in s.heads && FreeAt(s.heap.blocks, idx) && skip <= s.heap.blocks[idx].owned
    requires Taken(s.heap.blocks, t.heap.blocks, s.heads, idx, skip, RequestBlocks(size))
    requires t.heads == TakeHeads(s.heads, idx, skip, s.heap.blocks[idx].owned, RequestBlocks(size))
    requires t.live == s.live[DataAddr(s.base, idx + skip) := Live(size, alignment)]
    requires s.base <= DataAddr(s.base, idx + skip)
    requires HeaderIndex(s.base, DataAddr(s.base, idx + skip)) == idx + skip
    requires alignment > 0 && DataAddr(s.base, idx + skip) % alignment == 0
    ensures forall p :: p in t.live ==> LiveAt(t, p)
    ensures forall k :: k in t.heads ==> UsedIsLive(t, k)
  {
    hide RequestBlocks, HeaderIndex, DataAddr, WellFormed, Quiet;
    var b, c := s.heap.blocks, t.heap.blocks;
    forall p | p in t.live ensures LiveAt(t, p) {
      if p != DataAddr(s.base, idx + skip) {
        assert LiveAt(s, p);
        var k := HeaderIndex(s.base, p);
        assert k != idx && ChunkIs(c, k, b[k].owned, b[k].used);
      }
    }
    forall k | k in t.heads ensures UsedIsLive(t, k) {
      if k in s.heads && k != idx && k < |b| {
        assert UsedIsLive(s, k) && ChunkIs(c, k, b[k].owned, b[k].used);
      }
    }
  }

  lemma {:induction false} DeallocateKeepsInv(s: System, ptr: nat)
    requires Inv(s) && ptr in s.live
    ensures Inv(AfterDeallocate(s, ptr))
  {
    hide HeapFree.Deallocate, FreeHeads, FreeOrder, FreeStart, FreeEnd, RequestBlocks, HeaderIndex, DataAddr,
         Shape, Coalesced, UsedBlocks, ListIsFreeChunks, PredecessorInUse;
    assert LiveAt(s, ptr);
    var k := HeaderIndex(s.base, ptr);
    DeallocateKeepsWellFormed(s.heap, k, s.heads, s.order);
    DeallocateEffect(s.heap, k, s.heads, s.order);
    DeallocateLive(s, AfterDeallocate(s, ptr), ptr, k);
  }

  lemma {:induction false} DeallocateLive(s: System, t: System, ptr: nat, idx: nat)
    requires Inv(s) && t.base == s.base
    requires ptr in s.live && s.base <= ptr && HeaderIndex(s.base, ptr) == idx
    requires idx in s.heads && idx < |s.heap.blocks| && s.heap.blocks[idx].before <= idx
    requires Freed(s.heap.blocks, t.heap.blocks, s.heads, t.heads, idx,
                   FreeStart(s.heap.blocks, idx), FreeEnd(s.heap.blocks, idx))
    requires t.live == s.live - {ptr}
    ensures forall p :: p in t.live ==> LiveAt(t, p)
    ensures forall k :: k in t.heads ==> UsedIsLive(t, k)
  {
    hide RequestBlocks, WellFormed, Quiet, FreeStart, FreeEnd, HeaderIndex, DataAddr;
    var b, c := s.heap.blocks, t.heap.blocks;
    assert LiveAt(s, ptr);
    forall p | p in t.live ensures LiveAt(t, p) {
      assert LiveAt(s, p);
      var k := HeaderIndex(s.base, p);
      assert k != idx;
      assert !FreeAt(b, k);
      assert k in t.heads;
    }
    forall k | k in t.heads ensures UsedIsLive(t, k) {
      if k < |b| && c[k].used {
        assert ChunkIs(c, k, b[k].owned, b[k].used);
        assert UsedIsLive(s, k);
        NeedIsPositive(s.live[ptr].size);
        assert k != idx;
        DataAddrInjective(s.base, k, idx);
      }
    }
  }

  lemma {:induction false} DataAddrInjective(base: nat, k: nat, j: nat)
    ensures DataAddr(base, k) == DataAddr(base, j) ==> k == j
  {
  }

  /** The invariant looks at headers only. */
  lemma {:induction false} WellFormedLooksAtHeads(h: Heap, r: Heap, heads: set<nat>, order: seq<nat>)
    requires WellFormed(h, heads, order) && |r.blocks| == |h.blocks|
    requires r == h.(blocks := r.blocks)
    requires forall x :: x in heads && x < |h.blocks| ==> r.blocks[x] == h.blocks[x]
    ensures WellFormed(r, heads, order)
  {
    hide UsedBlocks, Linked, Tiling, Coalesced;
    HeadsInRange(h.blocks, heads);
    TilingLooksAtHeads(h.blocks, r.blocks, heads);
    UsedLooksAtHeads(h.blocks, r.blocks, heads);
    LinkedFrame(h, r, order);
  }

  lemma {:induction false} HeadsInRange(b: seq<Header>, heads: set<nat>)
    requires Tiling(b, heads)
    ensures forall x :: x in heads ==> x < |b|
  {
    forall x | x in heads ensures x < |b| { assert TiledAt(b, heads, x); }
  }

  lemma {:induction false} TilingLooksAtHeads(b: seq<Header>, c: seq<Header>, heads: set<nat>)
    requires Tiling(b, heads) && Coalesced(b, heads) && |b| == |c|
    requires forall x :: x in heads ==> x < |b| && c[x] == b[x]
    ensures Tiling(c, heads) && Coalesced(c, heads)
  {
    forall x {:trigger TiledAt(c, heads, x)} | x in heads ensures TiledAt(c, heads, x) {
      assert TiledAt(b, heads, x);
    }
    forall x, y {:trigger Apart(c, x, y)} | x in heads && y in heads && x < y ensures Apart(c, x, y) {
      assert Apart(b, x, y);
    }
    forall x | x in heads && FreeAt(c, x) ensures !FreeAt(c, x + c[x].owned) {
      assert TiledAt(b, heads, x) && FreeAt(b, x);
      assert !FreeAt(b, x + b[x].owned);
    }
  }

  lemma {:induction false} UsedLooksAtHeads(b: seq<Header>, c: seq<Header>, heads: set<nat>)
    requires |b| == |c| && forall x :: x in heads ==> x < |b| && c[x] == b[x]
    ensures UsedBlocks(c, heads) == UsedBlocks(b, heads)
  {
    forall x: nat | x < |b| ensures InUsed(b, heads, x) <==> InUsed(c, heads, x) {
      if InUsed(b, heads, x) {
        var g :| g in heads && InChunk(b, g, x) && b[g].used;
        assert InChunk(c, g, x);
      }
      if InUsed(c, heads, x) {
        var g :| g in heads && InChunk(c, g, x) && c[g].used;
        assert InChunk(b, g, x);
      }
    }
  }

  lemma {:induction false} AreaIsInside(s: System, ptr: nat, at: nat)
    requires Inv(s) && ptr in s.live && at in UserArea(s, ptr)
    ensures at !in s.heads && LiveAt(s, ptr)
    ensures var k := HeaderIndex(s.base, ptr); k < at < k + s.heap.blocks[k].owned <= |s.heap.blocks|
  {
    hide Tiling, Linked, Coalesced, UsedBlocks, ListIsFreeChunks, HeaderIndex, UsedIsLive;
    assert LiveAt(s, ptr);
    var k := HeaderIndex(s.base, ptr);
    TiledHead(s.heap.blocks, s.heads, k);
    assert ptr - s.base == BLOCK_SIZE * (k + 1);
    InsideIsNoHead(s.heap.blocks, s.heads, k, at - k);
  }

  lemma {:induction false} WriteKeepsInv(s: System, ptr: nat, at: nat, value: Header)
    requires Inv(s) && Legal(s, UserWrite(ptr, at, value))
    ensures Inv(Step(s, UserWrite(ptr, at, value)))
  {
    hide WellFormed, RequestBlocks, HeaderIndex, UserArea;
    AreaIsInside(s, ptr, at);
    var t := Step(s, UserWrite(ptr, at, value));
    WellFormedLooksAtHeads(s.heap, t.heap, s.heads, s.order);
    forall p | p in t.live ensures LiveAt(t, p) { assert LiveAt(s, p); }
    forall k | k in t.heads ensures UsedIsLive(t, k) { assert UsedIsLive(s, k); }
  }

  lemma {:induction false} StepKeepsInv(s: System, op: Op)
    requires Inv(s)
    ensures Inv(Step(s, op))
  {
    hide Inv, Request, AfterAllocate, AfterDeallocate, UserArea;
    if Legal(s, op) {
      match op {
        case Allocate(size, alignment) => AllocateKeepsInv(s, size, alignment);
        case Deallocate(ptr) =>
          if ptr != NULL {
            DeallocateKeepsInv(s, ptr);
          }
        case UserWrite(ptr, at, value) => WriteKeepsInv(s, ptr, at, value);
      }
    }
  }

  /** The state after a whole run. */
  ghost function Execute(s: System, ops: seq<Op>): (t: System)
    requires Inv(s)
    decreases |ops|
  {
    if ops == [] then s
    else
      StepKeepsInv(s, ops[0]);
      Execute(Step(s, ops[0]), ops[1..])
  }
}
