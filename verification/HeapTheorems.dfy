/** What holds over every run of the allocator. */
module HeapTheorems {
  import opened HeapArith
  import opened HeapModel
  import opened HeapTiling
  import opened HeapOps
  import opened HeapAlloc
  import opened HeapFree
  import opened HeapRuns

  /** The allocator over the blocks `mem`, whatever they hold, right after construction. */
  ghost function Fresh(base: nat, mem: seq<Header>): (s: System) {
    if mem == [] then System(base, Heap([], INVALID_IDX, INVALID_IDX, 0, 0), {}, [], map[])
    else System(base, Heap(mem[0 := Header(0, false, |mem|, INVALID_IDX, INVALID_IDX)], 0, 0, 0, 0),
                {0}, [0], map[])
  }

  lemma {:induction false} FreshIsInv(base: nat, mem: seq<Header>)
    requires base % BLOCK_SIZE == 0 && |mem| <= BEFORE_RANGE
    ensures Inv(Fresh(base, mem))
  {
    var s := Fresh(base, mem);
    assert UsedBlocks(s.heap.blocks, s.heads) == {};
    if mem != [] {
      assert TiledAt(s.heap.blocks, s.heads, 0);
      assert LinkedAt(s.heap.blocks, s.order, 0);
    }
  }

  /** Every run, of any length and with any user writes, keeps the allocator well formed. */
  lemma {:induction false} RunKeepsInv(s: System, ops: seq<Op>)
    requires Inv(s)
    ensures Inv(Execute(s, ops))
    decreases |ops|
  {
    hide Inv, Step;
    if ops != [] {
      StepKeepsInv(s, ops[0]);
      RunKeepsInv(Step(s, ops[0]), ops[1..]);
    }
  }

  /** Two live allocations never share a byte, nor does one reach the header of another; all lie
      inside the buffer, aligned as asked, and the header index is recovered from the pointer. */
  lemma {:induction false} LiveAreasAreDisjoint(s: System, p: nat, q: nat)
    requires Inv(s) && p in s.live && q in s.live && p < q
    ensures p + s.live[p].size + BLOCK_SIZE <= q
    ensures s.base + BLOCK_SIZE <= p && q + s.live[q].size <= s.base + BLOCK_SIZE * |s.heap.blocks|
  {
    LiveAreaFits(s, p);
    LiveAreaFits(s, q);
    var i, j := HeaderIndex(s.base, p), HeaderIndex(s.base, q);
    assert Apart(s.heap.blocks, i, j);
  }

  lemma {:induction false} LiveAreaFits(s: System, p: nat)
    requires Inv(s) && p in s.live
    ensures LiveAt(s, p)
    ensures var k := HeaderIndex(s.base, p);
            && p == DataAddr(s.base, k)
            && p + s.live[p].size <= s.base + BLOCK_SIZE * (k + s.heap.blocks[k].owned)
            && k + s.heap.blocks[k].owned <= |s.heap.blocks|
  {
    assert LiveAt(s, p);
    var k := HeaderIndex(s.base, p);
    assert TiledAt(s.heap.blocks, s.heads, k);
    CeilDivCovers(s.live[p].size);
  }

  lemma {:induction false} CeilDivCovers(size: nat)
    ensures size <= BLOCK_SIZE * CeilDiv(size, BLOCK_SIZE)
  {
  }

  /** A pointer with at least one byte passes the range check of `deallocate`. */
  lemma {:induction false} LivePointerIsInRange(s: System, p: nat)
    requires Inv(s) && p in s.live && s.live[p].size > 0
    ensures Legal(s, Op.Deallocate(p))
  {
    LiveAreaFits(s, p);
  }

  // ---------------------------------------------------------------- user data

  /** Blocks of a live area hold the same after as before. */
  ghost predicate SameArea(s: System, t: System, p: nat) {
    && p in s.live && p in t.live && t.live[p] == s.live[p] && t.base == s.base
    && |t.heap.blocks| == |s.heap.blocks|
    && forall x :: x in UserArea(s, p) && x < |s.heap.blocks| ==> t.heap.blocks[x] == s.heap.blocks[x]
  }

  lemma {:induction false} QuietKeepsArea(s: System, t: System, p: nat, lo: nat, hi: nat)
    requires Inv(s) && p in s.live && p in t.live && t.live[p] == s.live[p] && t.base == s.base
    requires Quiet(s.heap.blocks, t.heap.blocks, s.heads, lo, hi)
    requires forall x :: x in UserArea(s, p) ==> !(lo <= x < hi)
    ensures SameArea(s, t, p)
  {
    forall x | x in UserArea(s, p) && x < |s.heap.blocks|
      ensures t.heap.blocks[x] == s.heap.blocks[x]
    {
      AreaIsInside(s, p, x);
    }
  }

  lemma {:induction false} AllocateKeepsArea(s: System, size: nat, alignment: nat, p: nat)
    requires Inv(s) && p in s.live && Request(s.base, |s.heap.blocks|, size, alignment)
    ensures SameArea(s, AfterAllocate(s, size, alignment), p)
    ensures AllocateResult(s, size, alignment) != p
  {
    hide Take, TakeOrder, TakeHeads, Place, RequestBlocks, UserArea, HeaderIndex, SkipBlocks, Fits, FirstFit;
    var b := s.heap.blocks;
    var idx := FirstFit(b, s.base, s.order, size, alignment);
    assert LiveAt(s, p);
    if idx != INVALID_IDX {
      var skip := SkipBlocks(s.base, idx, alignment);
      PlaceIsTake(s, size, alignment, idx);
      ShapeTake(s.heap, idx, skip, RequestBlocks(size), s.heads, s.order);
      assert HeaderIndex(s.base, p) != idx + skip by {
        NewHeaderIsNoLiveOne(s, idx, skip, RequestBlocks(size), p);
      }
      HeaderRecovered(s.base, idx + skip);
      var t := AfterAllocate(s, size, alignment);
      forall x | x in UserArea(s, p) ensures !(idx <= x < idx + b[idx].owned) {
        AreaIsInside(s, p, x);
        if idx <= x < idx + b[idx].owned {
          OneChunkPerBlock(b, s.heads, idx, HeaderIndex(s.base, p), x);
          assert false;
        }
      }
      QuietKeepsArea(s, t, p, idx, idx + b[idx].owned);
    } else {
      QuietKeepsArea(s, s, p, 0, 0);
    }
  }

  lemma {:induction false} NewHeaderIsNoLiveOne(s: System, idx: nat, skip: nat, need: nat, p: nat)
    requires Inv(s) && p in s.live && Takeable(s.heap, idx, skip, need, s.heads, s.order)
    requires FreeAt(s.heap.blocks, idx) && idx in s.heads
    ensures LiveAt(s, p) && HeaderIndex(s.base, p) != idx + skip
  {
    assert LiveAt(s, p);
    InsideIsNoHead(s.heap.blocks, s.heads, idx, skip);
  }

  lemma {:induction false} DeallocateKeepsArea(s: System, ptr: nat, p: nat)
    requires Inv(s) && p in s.live && ptr in s.live && p != ptr
    ensures SameArea(s, AfterDeallocate(s, ptr), p)
  {
    hide HeapFree.Deallocate, FreeHeads, FreeOrder, FreeStart, FreeEnd, RequestBlocks, UserArea, HeaderIndex,
         Coalesced, ListIsFreeChunks, PredecessorInUse;
    assert LiveAt(s, ptr) && LiveAt(s, p);
    var b := s.heap.blocks;
    var k := HeaderIndex(s.base, ptr);
    DeallocateEffect(s.heap, k, s.heads, s.order);
    var t := AfterDeallocate(s, ptr);
    var lo, hi := FreeStart(b, k), FreeEnd(b, k);
    var j := HeaderIndex(s.base, p);
    forall x | x in UserArea(s, p) ensures !(lo <= x < hi) {
      AreaIsInside(s, p, x);
      FreedRangeMissesLive(b, t.heap.blocks, s.heads, t.heads, k, lo, hi, j, x);
    }
    QuietKeepsArea(s, t, p, lo, hi);
  }

  lemma {:induction false} FreedRangeMissesLive(b: seq<Header>, c: seq<Header>, heads: set<nat>, hs: set<nat>,
                             k: nat, lo: nat, hi: nat, j: nat, x: nat)
    requires Tiling(b, heads) && k in heads && k < |b| && Freed(b, c, heads, hs, k, lo, hi)
    requires j in heads && j < |b| && b[j].used && j != k && InChunk(b, j, x)
    ensures !(lo <= x < hi)
  {
    assert !(lo <= j < hi);
    assert lo in heads;
    assert j < lo ==> Apart(b, j, lo);
  }

  /** Neither calls nor other users' writes change what a live allocation holds. */
  lemma {:induction false} StepKeepsArea(s: System, op: Op, p: nat)
    requires Inv(s) && p in s.live && op != Op.Deallocate(p) && !(op.UserWrite? && op.ptr == p)
    ensures SameArea(s, Step(s, op), p)
  {
    hide AfterAllocate, AfterDeallocate, Inv, UserArea, Request;
    if Legal(s, op) {
      match op {
        case Allocate(size, alignment) => AllocateKeepsArea(s, size, alignment, p);
        case Deallocate(ptr) => if ptr != NULL { DeallocateKeepsArea(s, ptr, p); }
        case UserWrite(ptr, at, value) => WriteKeepsArea(s, ptr, at, p);
      }
    }
  }

  lemma {:induction false} WriteKeepsArea(s: System, ptr: nat, at: nat, p: nat)
    requires Inv(s) && p in s.live && ptr in s.live && p != ptr && at in UserArea(s, ptr)
    ensures at !in UserArea(s, p)
  {
    hide UserArea, HeaderIndex;
    AreaIsInside(s, ptr, at);
    if at in UserArea(s, p) {
      AreaIsInside(s, p, at);
      OneChunkPerBlock(s.heap.blocks, s.heads, HeaderIndex(s.base, ptr), HeaderIndex(s.base, p), at);
      assert false;
    }
  }

  /** Over a whole run, a live allocation keeps its contents, its size and its place until its
      own user writes or returns it. */
  lemma {:induction false} RunKeepsArea(s: System, ops: seq<Op>, p: nat)
    requires Inv(s) && p in s.live
    requires forall i :: 0 <= i < |ops| ==> ops[i] != Op.Deallocate(p) && !(ops[i].UserWrite? && ops[i].ptr == p)
    ensures SameArea(s, Execute(s, ops), p)
    decreases |ops|
  {
    hide Inv, Step;
    if ops != [] {
      StepKeepsInv(s, ops[0]);
      var t := Step(s, ops[0]);
      StepKeepsArea(s, ops[0], p);
      RunKeepsArea(t, ops[1..], p);
      assert UserArea(t, p) == UserArea(s, p);
    }
  }

  // ---------------------------------------------------------------- counters

  ghost function Max(a: nat, b: nat): nat {
    if a < b then b else a
  }

  /** The most bytes in use at any point of a run. */
  ghost function MostUsed(s: System, ops: seq<Op>): nat
    requires Inv(s)
    decreases |ops|
  {
    if ops == [] then s.heap.used
    else
      StepKeepsInv(s, ops[0]);
      Max(s.heap.used, MostUsed(Step(s, ops[0]), ops[1..]))
  }

  lemma {:induction false} StepPeak(s: System, op: Op)
    requires Inv(s)
    ensures Step(s, op).heap.peak == Max(s.heap.peak, Step(s, op).heap.used)
  {
    hide Take, HeapFree.Deallocate, Coalesced, FreeHeads, FreeOrder, TakeOrder, TakeHeads, Tiling, Linked,
         UsedBlocks, FirstFit, Fits, RequestBlocks, SkipBlocks, ListIsFreeChunks, UserArea;
    if Legal(s, op) {
      match op {
        case Allocate(size, alignment) =>
          var idx := FirstFit(s.heap.blocks, s.base, s.order, size, alignment);
          if idx != INVALID_IDX {
            PlaceIsTake(s, size, alignment, idx);
            ShapeTake(s.heap, idx, SkipBlocks(s.base, idx, alignment), RequestBlocks(size), s.heads, s.order);
          }
        case Deallocate(ptr) =>
          if ptr != NULL {
            assert LiveAt(s, ptr);
            DeallocateEffect(s.heap, HeaderIndex(s.base, ptr), s.heads, s.order);
          }
        case UserWrite(_, _, _) =>
      }
    }
  }

  /** `peak_memory` is the maximum of `current_memory` over the run. */
  lemma {:induction false} PeakIsMostUsed(s: System, ops: seq<Op>)
    requires Inv(s)
    ensures Execute(s, ops).heap.peak == Max(s.heap.peak, MostUsed(s, ops))
    decreases |ops|
  {
    hide Inv, Step;
    UsedBelowPeak(s);
    if ops != [] {
      StepKeepsInv(s, ops[0]);
      StepPeak(s, ops[0]);
      PeakIsMostUsed(Step(s, ops[0]), ops[1..]);
      UsedBelowPeak(Step(s, ops[0]));
      MostUsedStarts(Step(s, ops[0]), ops[1..]);
    }
  }

  lemma {:induction false} MostUsedStarts(s: System, ops: seq<Op>)
    requires Inv(s)
    ensures s.heap.used <= MostUsed(s, ops)
  {
  }

  lemma {:induction false} UsedBelowPeak(s: System)
    requires Inv(s)
    ensures s.heap.used <= s.heap.peak
  {
  }

  /** `current_memory` counts the blocks of the used chunks and never exceeds the buffer. */
  lemma {:induction false} UsedIsBounded(s: System)
    requires Inv(s)
    ensures s.heap.used == BLOCK_SIZE * |UsedBlocks(s.heap.blocks, s.heads)|
    ensures s.heap.used <= BLOCK_SIZE * |s.heap.blocks|
  {
    hide UsedBlocks;
    UsedBlocksBounded(s.heap.blocks, s.heads);
  }

  // ---------------------------------------------------------------- everything returned

  lemma {:induction false} NoLiveNoUsed(s: System, k: nat)
    requires Inv(s) && s.live == map[] && k in s.heads
    ensures FreeAt(s.heap.blocks, k)
  {
    assert TiledAt(s.heap.blocks, s.heads, k);
    assert UsedIsLive(s, k);
  }

  lemma {:induction false} OneFreeChunk(s: System)
    requires Inv(s) && s.live == map[] && s.heap.blocks != []
    ensures s.heap.blocks[0].owned == |s.heap.blocks| && s.heads == {0}
  {
    var b := s.heap.blocks;
    assert TiledAt(b, s.heads, 0);
    NoLiveNoUsed(s, 0);
    var n := b[0].owned;
    if n < |b| {
      NoLiveNoUsed(s, n);
      assert false;
    }
    forall x | x in s.heads ensures x == 0 {
      assert TiledAt(b, s.heads, x);
      assert 0 < x ==> Apart(b, 0, x);
    }
  }

  lemma {:induction false} SingletonOrder(order: seq<nat>)
    requires Distinct(order) && 0 in order && forall x :: x in order ==> x == 0
    ensures order == [0]
  {
    ElementsAreMembers(order);
  }

  lemma {:induction false} ElementsAreMembers(order: seq<nat>)
    ensures |order| > 0 ==> order[0] in order
    ensures |order| > 1 ==> order[1] in order
  {
  }

  /** Once every allocation has been returned the heap is one free chunk again, exactly as it
      was built, apart from the peak and from what users left in the other blocks. */
  lemma {:induction false} AllReturnedIsFresh(s: System)
    requires Inv(s) && s.live == map[]
    ensures s == Fresh(s.base, s.heap.blocks).(heap := Fresh(s.base, s.heap.blocks).heap.(peak := s.heap.peak))
  {
    var b := s.heap.blocks;
    if b == [] {
      EmptyBuffer(s);
    } else {
      OneFreeChunk(s);
      NoLiveNoUsed(s, 0);
      assert TiledAt(b, s.heads, 0);
      SingletonOrder(s.order);
      assert LinkedAt(b, s.order, 0);
      NothingUsed(s);
    }
  }

  lemma {:induction false} NothingUsed(s: System)
    requires Inv(s) && s.live == map[]
    ensures s.heap.used == 0
  {
    assert UsedBlocks(s.heap.blocks, s.heads) == {} by {
      forall x | x in UsedBlocks(s.heap.blocks, s.heads) ensures false {
        var g :| g in s.heads && InChunk(s.heap.blocks, g, x) && s.heap.blocks[g].used;
        NoLiveNoUsed(s, g);
      }
    }
  }

  lemma {:induction false} EmptyBuffer(s: System)
    requires Inv(s) && s.heap.blocks == []
    ensures s.heads == {} && s.order == [] && s.heap.used == 0
    ensures s.heap.first == INVALID_IDX && s.heap.last == INVALID_IDX
  {
    HeadsInRange(s.heap.blocks, s.heads);
    assert s.heads == {};
    ElementsAreMembers(s.order);
    assert UsedBlocks(s.heap.blocks, s.heads) == {};
  }

  /** So any request a new allocator serves is served again, at the same address. */
  lemma {:induction false} ServedAgain(s: System, mem: seq<Header>, size: nat, alignment: nat)
    requires Inv(s) && s.live == map[] && |mem| == |s.heap.blocks|
    requires Request(s.base, |mem|, size, alignment)
    ensures Inv(Fresh(s.base, mem))
    ensures AllocateResult(s, size, alignment) == AllocateResult(Fresh(s.base, mem), size, alignment)
  {
    FreshIsInv(s.base, mem);
    AllReturnedIsFresh(s);
    var f := Fresh(s.base, mem);
    assert FirstFit(s.heap.blocks, s.base, s.order, size, alignment)
        == FirstFit(f.heap.blocks, f.base, f.order, size, alignment);
  }
}
