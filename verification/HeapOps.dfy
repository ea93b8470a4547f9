/** What `allocate` and `deallocate` do to the heap once a chunk has been chosen, and what
    each of their steps keeps. */
module HeapOps {
  import opened HeapArith
  import opened HeapModel
  import opened HeapTiling

  /** Tiling and free list, without saying which headers are in the list. */
  ghost predicate Shape(h: Heap, heads: set<nat>, order: seq<nat>) {
    && |h.blocks| <= BEFORE_RANGE
    && Tiling(h.blocks, heads)
    && Linked(h, order)
    && (forall x :: x in order ==> x in heads)
    && (forall x :: x in heads && x !in order ==> x < |h.blocks| && Loose(h.blocks, x))
  }

  /** Nothing but headers and the blocks `lo..hi` changed. */
  ghost predicate Quiet(b: seq<Header>, c: seq<Header>, heads: set<nat>, lo: nat, hi: nat) {
    |b| == |c| && forall i :: 0 <= i < |b| && i !in heads && !(lo <= i < hi) ==> c[i] == b[i]
  }

  lemma {:induction false} LinkedFrame(h: Heap, r: Heap, order: seq<nat>)
    requires Linked(h, order) && |r.blocks| == |h.blocks| && r.first == h.first && r.last == h.last
    requires forall x :: x in order && x < |h.blocks| ==>
               r.blocks[x].prev == h.blocks[x].prev && r.blocks[x].next == h.blocks[x].next
    ensures Linked(r, order)
  {
    forall i | 0 <= i < |order| ensures LinkedAt(r.blocks, order, i) {
      assert LinkedAt(h.blocks, order, i);
      assert order[i] in order;
    }
  }

  /** The byte counters have no part in the shape. */
  lemma {:induction false} ShapeIgnoresCounters(h: Heap, heads: set<nat>, order: seq<nat>, used: nat, peak: nat)
    requires Shape(h, heads, order)
    ensures Shape(h.(used := used, peak := peak), heads, order)
  {
    LinkedFrame(h, h.(used := used, peak := peak), order);
  }

  lemma {:induction false} ShapeUnlink(h: Heap, heads: set<nat>, order: seq<nat>, idx: nat)
    requires Shape(h, heads, order) && idx in heads
    ensures UnlinkReady(h, idx)
    ensures Shape(UnlinkFreeNode(h, idx), heads, Without(order, idx))
    ensures Loose(UnlinkFreeNode(h, idx).blocks, idx)
    ensures Quiet(h.blocks, UnlinkFreeNode(h, idx).blocks, heads, 0, 0)
    ensures forall x :: x in Without(order, idx) <==> x in order && x != idx
  {
    hide UnlinkFreeNode, Linked, Without;
    assert TiledAt(h.blocks, heads, idx);
    UnlinkRemoves(h, order, idx);
    var r := UnlinkFreeNode(h, idx);
    SameTagsTile(h.blocks, r.blocks, heads);
  }

  lemma {:induction false} ShapePush(h: Heap, heads: set<nat>, order: seq<nat>, idx: nat)
    requires Shape(h, heads, order) && idx in heads && idx !in order
    ensures PushReady(h, idx)
    ensures Shape(PushFreeNode(h, idx), heads, PushOrder(|h.blocks|, h.blocks[idx].owned, order, idx))
    ensures Quiet(h.blocks, PushFreeNode(h, idx).blocks, heads, 0, 0)
  {
    hide PushFreeNode, Linked, PushOrder;
    assert TiledAt(h.blocks, heads, idx);
    PushInserts(h, order, idx);
    var r := PushFreeNode(h, idx);
    SameTagsTile(h.blocks, r.blocks, heads);
  }

  // ---------------------------------------------------------------- splitting

  /** Cut the chunk at `idx` behind its first `k` blocks; the second part gets a fresh header. */
  function Split(b: seq<Header>, idx: nat, k: nat): (r: seq<Header>)
    requires idx < |b| && 0 < k < b[idx].owned && idx + b[idx].owned <= |b|
  {
    SetBlocksOwned(DefaultInitialize(SetBlocksOwned(b, idx, k), idx + k), idx + k, b[idx].owned - k)
  }

  /** Everything but lengths is kept, except in the fresh header. */
  ghost predicate FreshOnly(b: seq<Header>, c: seq<Header>, k: nat) {
    && k < |b| == |c|
    && !c[k].used && Loose(c, k)
    && (forall i :: 0 <= i < |b| && i != k ==>
          c[i].used == b[i].used && c[i].prev == b[i].prev && c[i].next == b[i].next)
  }

  lemma {:induction false} SplitEffect(b: seq<Header>, idx: nat, k: nat)
    requires |b| <= BEFORE_RANGE
    requires idx < |b| && 0 < k < b[idx].owned && idx + b[idx].owned <= |b|
    ensures SplitTags(b, Split(b, idx, k), idx, k) && FreshOnly(b, Split(b, idx, k), idx + k)
  {
  }

  lemma {:induction false} ShapeSplit(h: Heap, heads: set<nat>, order: seq<nat>, idx: nat, k: nat)
    requires Shape(h, heads, order) && idx in heads && idx < |h.blocks| && 0 < k < h.blocks[idx].owned
    ensures idx + h.blocks[idx].owned <= |h.blocks| && idx + k !in heads
    ensures Shape(h.(blocks := Split(h.blocks, idx, k)), heads + {idx + k}, order)
    ensures Quiet(h.blocks, Split(h.blocks, idx, k), heads, idx, idx + h.blocks[idx].owned)
  {
    hide Split, Tiling;
    InsideChunk(h.blocks, heads, idx, k);
    SplitEffect(h.blocks, idx, k);
    var r := h.(blocks := Split(h.blocks, idx, k));
    LinkedFrame(h, r, order);
    SplitKeepsShape(h, r, heads, order, order, idx, k);
  }

  /** Lines 174 to 188 of `allocate`: cut off the blocks skipped for alignment. The prefix is
      taken out of the list and pushed again because its length changed, and only then does
      the remainder get its header. */
  function SplitPrefix(h: Heap, idx: nat, skip: nat, ghost order: seq<nat>): (r: Heap)
    requires Linked(h, order) && idx in order && idx < |h.blocks| < INVALID_IDX
    requires 0 < skip < h.blocks[idx].owned && idx + h.blocks[idx].owned <= |h.blocks|
  {
    var h1 := h.(blocks := SetBlocksOwned(h.blocks, idx, skip));
    LinkedFrame(h, h1, order);
    UnlinkRemoves(h1, order, idx);
    var h2 := UnlinkFreeNode(h1, idx);
    PushInserts(h2, Without(order, idx), idx);
    var h3 := PushFreeNode(h2, idx);
    var b4 := DefaultInitialize(h3.blocks, idx + skip);
    h3.(blocks := SetBlocksOwned(b4, idx + skip, h.blocks[idx].owned - skip))
  }

  ghost function SplitPrefixOrder(blocks: nat, skip: nat, order: seq<nat>, idx: nat): seq<nat> {
    PushOrder(blocks, skip, Without(order, idx), idx)
  }

  /** A chunk ends inside the buffer and no other chunk starts within it. */
  lemma {:induction false} InsideChunk(b: seq<Header>, heads: set<nat>, idx: nat, k: nat)
    requires Tiling(b, heads) && idx in heads && idx < |b| && 0 < k < b[idx].owned
    ensures idx + b[idx].owned <= |b| && idx + k !in heads
  {
    assert TiledAt(b, heads, idx);
    assert idx + k in heads ==> Apart(b, idx, idx + k);
  }

  lemma {:induction false} ShapeSplitPrefix(h: Heap, heads: set<nat>, order: seq<nat>, idx: nat, skip: nat)
    requires Shape(h, heads, order) && idx in order && idx < |h.blocks| && 0 < skip < h.blocks[idx].owned
    ensures idx + h.blocks[idx].owned <= |h.blocks| && idx + skip !in heads
    ensures var r := SplitPrefix(h, idx, skip, order);
            && SplitTags(h.blocks, r.blocks, idx, skip)
            && Shape(r, heads + {idx + skip}, SplitPrefixOrder(|h.blocks|, skip, order, idx))
            && SameUseBut(h.blocks, r.blocks, idx + skip)
            && !r.blocks[idx + skip].used
            && r.used == h.used && r.peak == h.peak
            && Quiet(h.blocks, r.blocks, heads, idx, idx + h.blocks[idx].owned)
  {
    hide SetBlocksOwned, PushFreeNode, UnlinkFreeNode, Without, PushOrder, Linked, Quiet, Tiling, SameUse, SameUseBut;
    InsideChunk(h.blocks, heads, idx, skip);
    var h1 := h.(blocks := SetBlocksOwned(h.blocks, idx, skip));
    LinkedFrame(h, h1, order);
    UnlinkRemoves(h1, order, idx);
    var h2 := UnlinkFreeNode(h1, idx);
    var o2 := Without(order, idx);
    PushInserts(h2, o2, idx);
    var h3 := PushFreeNode(h2, idx);
    var o3 := SplitPrefixOrder(|h.blocks|, skip, order, idx);
    PrefixFinish(h.blocks, h2.blocks, h3.blocks, heads, order, o2, idx, skip);
    var r := SplitPrefix(h, idx, skip, order);
    LinkedFrame(h3, r, o3);
    SplitKeepsShape(h, r, heads, order, o3, idx, skip);
  }

  ghost predicate SameUseBut(b: seq<Header>, c: seq<Header>, k: nat) {
    |b| == |c| && forall i :: 0 <= i < |b| && i != k ==> c[i].used == b[i].used
  }

  /** From the pushed prefix to the finished split. */
  lemma {:induction false} PrefixFinish(b: seq<Header>, b2: seq<Header>, b3: seq<Header>, heads: set<nat>,
                     order: seq<nat>, o2: seq<nat>, idx: nat, skip: nat)
    requires idx in order && idx < |b| <= BEFORE_RANGE
    requires 0 < skip < b[idx].owned && idx + b[idx].owned <= |b| && idx + skip !in order
    requires var b1 := SetBlocksOwned(b, idx, skip);
             && SameTags(b1, b2) && SameUse(b1, b2) && SameOutside(b1, b2, order, idx)
             && SameTags(b2, b3) && SameUse(b2, b3) && SameOutside(b2, b3, o2, idx)
    requires forall x :: x in o2 <==> x in order && x != idx
    ensures var c := SetBlocksOwned(DefaultInitialize(b3, idx + skip), idx + skip, b[idx].owned - skip);
            && SplitTags(b, c, idx, skip)
            && SameUseBut(b, c, idx + skip)
            && !c[idx + skip].used && Loose(c, idx + skip)
            && (forall i :: 0 <= i < |b| && i != idx + skip ==>
                  c[i].prev == b3[i].prev && c[i].next == b3[i].next)
            && SameOutside(b, c, order, idx + skip)
  {
    hide SetBlocksOwned;
    var k := idx + skip;
    var b1 := SetBlocksOwned(b, idx, skip);
    var b4 := DefaultInitialize(b3, k);
    var c := SetBlocksOwned(b4, k, b[idx].owned - skip);
    forall i | 0 <= i < |b| && i !in order && i != k
      ensures c[i].prev == b[i].prev && c[i].next == b[i].next
    {
      assert i != idx && i !in o2;
    }
  }

  /** A split seen from outside: lengths, links and the fresh header. */
  lemma {:induction false} SplitKeepsShape(h: Heap, r: Heap, heads: set<nat>, order: seq<nat>, o: seq<nat>,
                                           idx: nat, k: nat)
    requires Shape(h, heads, order) && idx in heads && idx < |h.blocks| && 0 < k < h.blocks[idx].owned
    requires SplitTags(h.blocks, r.blocks, idx, k) && idx + k < |h.blocks|
    requires SameUseBut(h.blocks, r.blocks, idx + k) && Loose(r.blocks, idx + k)
    requires SameOutside(h.blocks, r.blocks, order, idx + k)
    requires Linked(r, o) && forall x :: x in o <==> x in order
    ensures idx + k !in heads && Shape(r, heads + {idx + k}, o)
    ensures Quiet(h.blocks, r.blocks, heads, idx, idx + h.blocks[idx].owned)
  {
    SplitTiles(h.blocks, r.blocks, heads, idx, k);
    SplitIsQuiet(h.blocks, r.blocks, heads, order, idx, k);
    forall x | x in heads + {idx + k} && x !in o ensures x < |r.blocks| && Loose(r.blocks, x) {
      assert x in heads ==> TiledAt(h.blocks, heads, x);
    }
  }

  lemma {:induction false} SplitIsQuiet(b: seq<Header>, c: seq<Header>, heads: set<nat>, order: seq<nat>, idx: nat,
                                        k: nat)
    requires Tiling(b, heads) && idx in heads && idx < |b| && 0 < k < b[idx].owned
    requires SplitTags(b, c, idx, k) && SameUseBut(b, c, idx + k)
    requires forall x :: x in order ==> x in heads
    requires forall i :: 0 <= i < |b| && i !in order && i != idx + k ==>
               c[i].prev == b[i].prev && c[i].next == b[i].next
    ensures Quiet(b, c, heads, idx, idx + b[idx].owned)
  {
    assert TiledAt(b, heads, idx);
    forall i | 0 <= i < |b| && i !in heads && !(idx <= i < idx + b[idx].owned)
      ensures c[i] == b[i]
    {
      assert i !in order && i != idx + b[idx].owned;
    }
  }

  // ---------------------------------------------------------------- taking a chunk

  function MarkUsed(b: seq<Header>, idx: nat, used: bool): (r: seq<Header>)
    requires idx < |b|
    ensures SameTags(b, r) && SameLinks(b, r)
  {
    b[idx := b[idx].(used := used)]
  }

  /** Give the blocks behind the first `need` of the chunk at `idx` back to the list. */
  function GiveBack(h: Heap, idx: nat, need: nat, ghost order: seq<nat>): (r: Heap)
    requires Linked(h, order) && idx < |h.blocks| <= BEFORE_RANGE
    requires 0 < need < h.blocks[idx].owned && idx + h.blocks[idx].owned <= |h.blocks|
    requires idx + need !in order
  {
    GiveBackReady(h, idx, need, order);
    PushFreeNode(h.(blocks := Split(h.blocks, idx, need)), idx + need)
  }

  lemma {:induction false} GiveBackReady(h: Heap, idx: nat, need: nat, order: seq<nat>)
    requires Linked(h, order) && idx < |h.blocks| <= BEFORE_RANGE
    requires 0 < need < h.blocks[idx].owned && idx + h.blocks[idx].owned <= |h.blocks|
    requires idx + need !in order
    ensures PushReady(h.(blocks := Split(h.blocks, idx, need)), idx + need)
  {
    SplitEffect(h.blocks, idx, need);
    hide Split;
    var h2 := h.(blocks := Split(h.blocks, idx, need));
    LinkedFrame(h, h2, order);
    PushInserts(h2, order, idx + need);
  }

  ghost predicate Carvable(h: Heap, idx: nat, need: nat, order: seq<nat>) {
    && Linked(h, order) && idx < |h.blocks| <= BEFORE_RANGE
    && (idx in order || Loose(h.blocks, idx))
    && 0 < need <= h.blocks[idx].owned && idx + h.blocks[idx].owned <= |h.blocks|
    && (need < h.blocks[idx].owned ==> idx + need !in order)
  }

  /** Lines 190 to 205 of `allocate`: take the first `need` blocks of the free chunk at `idx`
      and give the rest back to the list. */
  function CarveBlocks(h: Heap, idx: nat, need: nat, ghost order: seq<nat>): (r: Heap)
    requires Carvable(h, idx, need, order)
  {
    UnlinkRemoves(h, order, idx);
    var h1 := UnlinkFreeNode(h, idx);
    var h2 := h1.(blocks := MarkUsed(h1.blocks, idx, true));
    LinkedFrame(h1, h2, Without(order, idx));
    if need < h.blocks[idx].owned then GiveBack(h2, idx, need, Without(order, idx))
    else h2.(blocks := SetBlocksOwned(h2.blocks, idx, need))
  }

  /** Lines 190 to 208 of `allocate`: the same with the byte counters. */
  function Carve(h: Heap, idx: nat, need: nat, ghost order: seq<nat>): (r: Heap)
    requires Carvable(h, idx, need, order)
    ensures r.used == h.used + need * BLOCK_SIZE
    ensures r.peak == if h.peak < r.used then r.used else h.peak
  {
    var used := h.used + need * BLOCK_SIZE;
    CarveBlocks(h, idx, need, order).(used := used, peak := if h.peak < used then used else h.peak)
  }

  ghost function CarveHeads(heads: set<nat>, idx: nat, owned: nat, need: nat): set<nat> {
    if need < owned then heads + {idx + need} else heads
  }

  ghost function CarveOrder(blocks: nat, order: seq<nat>, idx: nat, owned: nat, need: nat): (r: seq<nat>)
    requires need <= owned
  {
    if need < owned then PushOrder(blocks, owned - need, Without(order, idx), idx + need)
    else Without(order, idx)
  }

  ghost predicate ChunkIs(c: seq<Header>, x: nat, owned: nat, used: bool) {
    x < |c| && c[x].owned == owned && c[x].used == used
  }

  /** The chunks of `heads` other than those in `except` keep their length and their state. */
  ghost predicate Kept(b: seq<Header>, c: seq<Header>, heads: set<nat>, except: set<nat>) {
    forall x :: x in heads && x !in except && x < |b| ==> ChunkIs(c, x, b[x].owned, b[x].used)
  }

  lemma {:induction false} ShapeMark(h: Heap, heads: set<nat>, order: seq<nat>, idx: nat, used: bool)
    requires Shape(h, heads, order) && idx in heads && idx < |h.blocks|
    ensures Shape(h.(blocks := MarkUsed(h.blocks, idx, used)), heads, order)
    ensures Quiet(h.blocks, MarkUsed(h.blocks, idx, used), heads, 0, 0)
  {
    var r := h.(blocks := MarkUsed(h.blocks, idx, used));
    SameTagsTile(h.blocks, r.blocks, heads);
    LinkedFrame(h, r, order);
  }

  lemma {:induction false} ShapeGiveBack(h: Heap, heads: set<nat>, order: seq<nat>, idx: nat, need: nat)
    requires Shape(h, heads, order) && idx in heads && idx < |h.blocks| && 0 < need < h.blocks[idx].owned
    ensures idx + h.blocks[idx].owned <= |h.blocks| && idx + need !in heads
    ensures var owned := h.blocks[idx].owned;
            var r := GiveBack(h, idx, need, order);
            && Shape(r, heads + {idx + need}, PushOrder(|h.blocks|, owned - need, order, idx + need))
            && Kept(h.blocks, r.blocks, heads, {idx})
            && ChunkIs(r.blocks, idx, need, h.blocks[idx].used)
            && ChunkIs(r.blocks, idx + need, owned - need, false)
            && Quiet(h.blocks, r.blocks, heads, idx, idx + owned)
  {
    hide Split, PushFreeNode, PushOrder;
    assert TiledAt(h.blocks, heads, idx);
    ShapeSplit(h, heads, order, idx, need);
    SplitEffect(h.blocks, idx, need);
    var h1 := h.(blocks := Split(h.blocks, idx, need));
    ShapePush(h1, heads + {idx + need}, order, idx + need);
  }

  /** What carving does to the chunks. */
  ghost predicate Carved(b: seq<Header>, c: seq<Header>, heads: set<nat>, idx: nat, need: nat)
    requires idx < |b|
  {
    && Kept(b, c, heads, {idx})
    && ChunkIs(c, idx, need, true)
    && (need < b[idx].owned ==> ChunkIs(c, idx + need, b[idx].owned - need, false))
    && Quiet(b, c, heads, idx, idx + b[idx].owned)
  }

  lemma {:induction false} ShapeIsCarvable(h: Heap, heads: set<nat>, order: seq<nat>, idx: nat, need: nat)
    requires Shape(h, heads, order) && idx in heads && idx < |h.blocks| && 0 < need <= h.blocks[idx].owned
    ensures Carvable(h, idx, need, order)
    ensures need < h.blocks[idx].owned ==> idx + need !in heads
  {
    hide Linked;
    assert TiledAt(h.blocks, heads, idx);
    assert need < h.blocks[idx].owned && idx + need in heads ==> Apart(h.blocks, idx, idx + need);
  }

  lemma {:induction false} ShapeCarveBlocks(h: Heap, heads: set<nat>, order: seq<nat>, idx: nat, need: nat)
    requires Shape(h, heads, order) && idx in heads && idx < |h.blocks| && 0 < need <= h.blocks[idx].owned
    requires Carvable(h, idx, need, order)
    ensures var owned := h.blocks[idx].owned;
            var r := CarveBlocks(h, idx, need, order);
            && Shape(r, CarveHeads(heads, idx, owned, need), CarveOrder(|h.blocks|, order, idx, owned, need))
            && Carved(h.blocks, r.blocks, heads, idx, need)
  {
    hide SetBlocksOwned, UnlinkFreeNode, GiveBack, PushOrder, Without, Linked, Tiling;
    ShapeUnlink(h, heads, order, idx);
    var h1 := UnlinkFreeNode(h, idx);
    var o1 := Without(order, idx);
    ShapeMark(h1, heads, o1, idx, true);
    var h2 := h1.(blocks := MarkUsed(h1.blocks, idx, true));
    if need < h.blocks[idx].owned {
      ShapeGiveBack(h2, heads, o1, idx, need);
    } else {
      SetOwnedAgain(h2.blocks, heads, idx);
    }
  }

  lemma {:induction false} ShapeCarve(h: Heap, heads: set<nat>, order: seq<nat>, idx: nat, need: nat)
    requires Shape(h, heads, order) && idx in heads && idx < |h.blocks| && 0 < need <= h.blocks[idx].owned
    ensures Carvable(h, idx, need, order)
    ensures need < h.blocks[idx].owned ==> idx + need !in heads
    ensures var owned := h.blocks[idx].owned;
            var r := Carve(h, idx, need, order);
            && Shape(r, CarveHeads(heads, idx, owned, need), CarveOrder(|h.blocks|, order, idx, owned, need))
            && Carved(h.blocks, r.blocks, heads, idx, need)
  {
    hide CarveBlocks, Shape, CarveHeads, CarveOrder, Carved;
    ShapeIsCarvable(h, heads, order, idx, need);
    ShapeCarveBlocks(h, heads, order, idx, need);
    var r := Carve(h, idx, need, order);
    ShapeIgnoresCounters(CarveBlocks(h, idx, need, order),
                         CarveHeads(heads, idx, h.blocks[idx].owned, need),
                         CarveOrder(|h.blocks|, order, idx, h.blocks[idx].owned, need), r.used, r.peak);
  }

  /** Writing the length a chunk already has changes nothing. */
  lemma {:induction false} SetOwnedAgain(b: seq<Header>, heads: set<nat>, idx: nat)
    requires Tiling(b, heads) && idx in heads && idx < |b| <= BEFORE_RANGE
    ensures SetBlocksOwned(b, idx, b[idx].owned) == b
  {
    assert TiledAt(b, heads, idx);
    var n := idx + b[idx].owned;
    if n < |b| {
      NoTwoPredecessors(b, heads, n, idx);
    }
  }

  // ---------------------------------------------------------------- giving a chunk back

  /** Lines 248 to 264 of `deallocate`: the free chunk before `idx` takes the chunk over. */
  function MergeIntoPrevious(h: Heap, idx: nat, ghost order: seq<nat>): (r: Heap)
    requires Linked(h, order) && idx < |h.blocks| < INVALID_IDX
    requires 0 < h.blocks[idx].before <= idx && idx - h.blocks[idx].before in order
  {
    var p := idx - h.blocks[idx].before;
    var h1 := h.(blocks := SetBlocksOwned(h.blocks, p, h.blocks[p].owned + h.blocks[idx].owned));
    LinkedFrame(h, h1, order);
    UnlinkRemoves(h1, order, p);
    UnlinkFreeNode(h1, p)
  }

  /** Lines 269 to 287 of `deallocate`: the chunk at `idx` takes over the free chunk behind it. */
  function MergeNext(h: Heap, idx: nat, ghost order: seq<nat>): (r: Heap)
    requires Linked(h, order) && idx < |h.blocks| < INVALID_IDX
    requires idx + h.blocks[idx].owned < |h.blocks| && idx + h.blocks[idx].owned in order
  {
    var n := idx + h.blocks[idx].owned;
    var h1 := h.(blocks := SetBlocksOwned(h.blocks, idx, h.blocks[idx].owned + h.blocks[n].owned));
    LinkedFrame(h, h1, order);
    UnlinkRemoves(h1, order, n);
    UnlinkFreeNode(h1, n)
  }

  /** Lines 293 to 295 of `deallocate`. */
  function Release(h: Heap, idx: nat, ghost order: seq<nat>): (r: Heap)
    requires Linked(h, order) && idx < |h.blocks| < INVALID_IDX && idx !in order && Loose(h.blocks, idx)
    ensures r.used == h.used && r.peak == h.peak
  {
    var h1 := h.(blocks := MarkUsed(h.blocks, idx, false));
    LinkedFrame(h, h1, order);
    UnlinkRemoves(h1, order, idx);
    PushInserts(h1, order, idx);
    PushFreeNode(UnlinkFreeNode(h1, idx), idx)
  }

  lemma {:induction false} MergeEffect(b: seq<Header>, heads: set<nat>, h: nat)
    requires Tiling(b, heads) && h in heads && h < |b| <= BEFORE_RANGE && h + b[h].owned < |b|
    ensures MergeTags(b, SetBlocksOwned(b, h, b[h].owned + b[h + b[h].owned].owned), h)
  {
    assert TiledAt(b, heads, h) && TiledAt(b, heads, h + b[h].owned);
  }

  ghost predicate MergedTo(b: seq<Header>, c: seq<Header>, heads: set<nat>, h: nat)
    requires h < |b| && h + b[h].owned < |b|
  {
    var n := h + b[h].owned;
    && Kept(b, c, heads, {h, n})
    && ChunkIs(c, h, b[h].owned + b[n].owned, b[h].used)
    && Quiet(b, c, heads, h, n)
  }

  lemma {:induction false} MergedInSteps(b: seq<Header>, b1: seq<Header>, c: seq<Header>, heads: set<nat>, h: nat)
    requires Tiling(b, heads) && h in heads && h < |b| && h + b[h].owned < |b|
    requires MergeTags(b, b1, h) && SameLinks(b, b1) && SameUse(b, b1)
    requires SameTags(b1, c) && SameUse(b1, c) && Quiet(b1, c, heads, 0, 0)
    ensures MergedTo(b, c, heads, h)
  {
    hide Tiling;
    TiledHead(b, heads, h);
    TiledHead(b, heads, h + b[h].owned);
  }

  lemma {:induction false} ShapeMergeIntoPrevious(h: Heap, heads: set<nat>, order: seq<nat>, idx: nat)
    requires Shape(h, heads, order) && idx in heads && idx !in order && idx < |h.blocks|
    requires 0 < h.blocks[idx].before <= idx && idx - h.blocks[idx].before in order
    ensures var p := idx - h.blocks[idx].before;
            && p in heads && p + h.blocks[p].owned == idx
            && var r := MergeIntoPrevious(h, idx, order);
               && Shape(r, heads - {idx}, Without(order, p))
               && MergedTo(h.blocks, r.blocks, heads, p)
               && (forall x :: x in Without(order, p) <==> x in order && x != p)
  {
    hide SetBlocksOwned, UnlinkFreeNode, Without, Linked, Tiling, MergeTags, MergedTo, Quiet;
    TiledHead(h.blocks, heads, idx);
    var p := idx - h.blocks[idx].before;
    MergeEffect(h.blocks, heads, p);
    var h1 := h.(blocks := SetBlocksOwned(h.blocks, p, h.blocks[p].owned + h.blocks[idx].owned));
    MergeTiles(h.blocks, h1.blocks, heads, p);
    LinkedFrame(h, h1, order);
    ShapeUnlink(h1, heads - {idx}, order, p);
    var r := UnlinkFreeNode(h1, p);
    QuietWiden(h1.blocks, r.blocks, heads - {idx}, heads);
    MergedInSteps(h.blocks, h1.blocks, r.blocks, heads, p);
  }

  lemma {:induction false} QuietWiden(b: seq<Header>, c: seq<Header>, hs: set<nat>, heads: set<nat>)
    requires Quiet(b, c, hs, 0, 0) && hs <= heads
    ensures Quiet(b, c, heads, 0, 0)
  {
  }

  lemma {:induction false} ShapeMergeNext(h: Heap, heads: set<nat>, order: seq<nat>, idx: nat)
    requires Shape(h, heads, order) && idx in heads && idx !in order && idx < |h.blocks|
    requires idx + h.blocks[idx].owned < |h.blocks| && idx + h.blocks[idx].owned in order
    ensures var n := idx + h.blocks[idx].owned;
            var r := MergeNext(h, idx, order);
            && Shape(r, heads - {n}, Without(order, n))
            && MergedTo(h.blocks, r.blocks, heads, idx)
            && (forall x :: x in Without(order, n) <==> x in order && x != n)
  {
    hide SetBlocksOwned, UnlinkFreeNode, Without, Linked, Tiling, MergeTags, MergedTo;
    var n := idx + h.blocks[idx].owned;
    MergeEffect(h.blocks, heads, idx);
    var h1 := h.(blocks := SetBlocksOwned(h.blocks, idx, h.blocks[idx].owned + h.blocks[n].owned));
    MergeTiles(h.blocks, h1.blocks, heads, idx);
    LinkedFrame(h, h1, order);
    UnlinkRemoves(h1, order, n);
    var r := UnlinkFreeNode(h1, n);
    SameTagsTile(h1.blocks, r.blocks, heads - {n});
    assert Quiet(h1.blocks, r.blocks, heads, 0, 0);
    MergedInSteps(h.blocks, h1.blocks, r.blocks, heads, idx);
    forall x | x in heads - {n} && x !in Without(order, n) ensures x < |r.blocks| && Loose(r.blocks, x) {
      TiledHead(h.blocks, heads, x);
    }
  }

  lemma {:induction false} ShapeRelease(h: Heap, heads: set<nat>, order: seq<nat>, idx: nat)
    requires Shape(h, heads, order) && idx in heads && idx !in order && idx < |h.blocks|
    ensures var r := Release(h, idx, order);
            && Shape(r, heads, PushOrder(|h.blocks|, h.blocks[idx].owned, order, idx))
            && Kept(h.blocks, r.blocks, heads, {idx})
            && ChunkIs(r.blocks, idx, h.blocks[idx].owned, false)
            && Quiet(h.blocks, r.blocks, heads, 0, 0)
  {
    hide UnlinkFreeNode, PushFreeNode, PushOrder;
    ShapeMark(h, heads, order, idx, false);
    var h1 := h.(blocks := MarkUsed(h.blocks, idx, false));
    ShapeUnlink(h1, heads, order, idx);
    var h2 := UnlinkFreeNode(h1, idx);
    assert Without(order, idx) == order;
    ShapePush(h2, heads, order, idx);
  }
}
