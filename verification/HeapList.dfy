/** The free list as a walker of the memory sees it: from `first` along the `next` links. */
module HeapList {
  import opened Basics
  import opened HeapArith
  import opened HeapModel
  import opened HeapTiling
  import opened HeapOps
  import opened HeapAlloc
  import opened HeapFree
  import opened HeapRuns

  /** Where `k` steps along the list lead; a link that is no block leads nowhere. */
  ghost function Nth(b: seq<Header>, first: nat, k: nat): nat {
    if k == 0 then first
    else
      var x := Nth(b, first, k - 1);
      if x < |b| then b[x].next else INVALID_IDX
  }

  /** The walk goes over the list that the links represent and then ends. */
  lemma {:induction false} WalkIsList(h: Heap, order: seq<nat>, k: nat)
    requires Linked(h, order) && |h.blocks| < INVALID_IDX
    ensures k < |order| ==> Nth(h.blocks, h.first, k) == order[k] < |h.blocks|
    ensures k >= |order| ==> Nth(h.blocks, h.first, k) == INVALID_IDX
  {
    if k > 0 {
      WalkIsList(h, order, k - 1);
    }
    if k <= |order| && k > 0 {
      assert LinkedAt(h.blocks, order, k - 1);
    }
    if k < |order| {
      assert LinkedAt(h.blocks, order, k);
    }
  }

  /** The chunk at `x` has as many bytes as lines 163 to 167 ask for: header, request and the gap
      up to an aligned address, counted modulo 2^64. */
  ghost predicate Enough(b: seq<Header>, base: nat, x: nat, size: nat, alignment: nat)
    requires alignment > 0 && x < |b|
  {
    (16 + size + AlignRightDiff(base + 16 * (x + 1), alignment)) % 0x1_0000_0000_0000_0000 <= 16 * b[x].owned
  }

  lemma {:induction false} FitsIffEnough(b: seq<Header>, base: nat, x: nat, size: nat, alignment: nat)
    requires alignment > 0 && x < |b|
    ensures Fits(b, base, x, size, alignment) <==> Enough(b, base, x, size, alignment)
  {
    var n := (16 + size + AlignRightDiff(DataAddr(base, x), alignment)) % SIZE_T;
    assert CeilDiv(n, 16) * 16 >= n && (n > 0 ==> CeilDiv(n, 16) * 16 < n + 16);
  }

  /** The `k`-th chunk of the list is the first that has enough. */
  ghost predicate FirstAt(b: seq<Header>, first: nat, base: nat, size: nat, alignment: nat, k: nat)
    requires alignment > 0
  {
    && Nth(b, first, k) < |b| && Enough(b, base, Nth(b, first, k), size, alignment)
    && forall j: nat :: j < k ==> Nth(b, first, j) < |b| && !Enough(b, base, Nth(b, first, j), size, alignment)
  }

  /** No chunk of the list has enough. */
  ghost predicate NoneEnough(b: seq<Header>, first: nat, base: nat, size: nat, alignment: nat)
    requires alignment > 0
  {
    forall k: nat :: Nth(b, first, k) < |b| ==> !Enough(b, base, Nth(b, first, k), size, alignment)
  }

  lemma {:induction false} FirstFitPlace(b: seq<Header>, base: nat, order: seq<nat>, size: nat, alignment: nat)
    returns (k: nat)
    requires alignment > 0 && |b| < INVALID_IDX
    ensures k <= |order| && forall j :: 0 <= j < k ==> !Fits(b, base, order[j], size, alignment)
    ensures FirstFit(b, base, order, size, alignment) == if k < |order| then order[k] else INVALID_IDX
    ensures k < |order| ==> Fits(b, base, order[k], size, alignment)
  {
    hide Fits;
    if order == [] || Fits(b, base, order[0], size, alignment) {
      k := 0;
    } else {
      var m := FirstFitPlace(b, base, order[1..], size, alignment);
      k := m + 1;
      assert forall j :: 0 < j < |order| ==> order[j] == order[1..][j - 1];
    }
  }

  /** The search gives the first chunk along the links that has enough, or finds that none has. */
  lemma {:induction false} FirstFitIsFirst(h: Heap, base: nat, order: seq<nat>, size: nat, alignment: nat)
    requires Linked(h, order) && |h.blocks| < INVALID_IDX && alignment > 0
    ensures var r := FirstFit(h.blocks, base, order, size, alignment);
            if r == INVALID_IDX then NoneEnough(h.blocks, h.first, base, size, alignment)
            else exists k: nat :: FirstAt(h.blocks, h.first, base, size, alignment, k) && Nth(h.blocks, h.first, k) == r
  {
    hide Linked, Fits, Enough, FirstFit;
    var b := h.blocks;
    var k := FirstFitPlace(b, base, order, size, alignment);
    forall j: nat
      ensures j < |order| ==> Nth(b, h.first, j) == order[j] < |b|
      ensures j >= |order| ==> Nth(b, h.first, j) == INVALID_IDX
      ensures j < |order| ==> (Fits(b, base, order[j], size, alignment) <==> Enough(b, base, order[j], size, alignment))
    {
      WalkIsList(h, order, j);
      if j < |order| {
        FitsIffEnough(b, base, order[j], size, alignment);
      }
    }
    if k < |order| {
      assert FirstAt(b, h.first, base, size, alignment, k);
    }
  }

  /** The address behind the header of the first chunk that has enough, moved up to the next
      aligned address. */
  ghost predicate ServedFromFirst(b: seq<Header>, first: nat, base: nat, size: nat, alignment: nat, ptr: nat)
    requires alignment > 0
  {
    exists k: nat ::
      && FirstAt(b, first, base, size, alignment, k)
      && ptr == base + 16 * (Nth(b, first, k) + 1) + AlignRightDiff(base + 16 * (Nth(b, first, k) + 1), alignment)
  }

  /** `allocate` answers from the first chunk along the links that has enough, and with null if
      none has. */
  lemma {:induction false} AnswerIsFromFirst(s: System, size: nat, alignment: nat)
    requires Inv(s) && Request(s.base, |s.heap.blocks|, size, alignment)
    ensures alignment > 0
    ensures var ptr := AllocateResult(s, size, alignment);
            if ptr == 0 then NoneEnough(s.heap.blocks, s.heap.first, s.base, size, alignment)
            else ServedFromFirst(s.heap.blocks, s.heap.first, s.base, size, alignment, ptr)
  {
    hide FirstFit, Tiling, Linked, Coalesced, UsedBlocks, PowerOfTwo, AlignRightDiff;
    PositivePower(alignment);
    FirstFitIsFirst(s.heap, s.base, s.order, size, alignment);
    var idx := FirstFit(s.heap.blocks, s.base, s.order, size, alignment);
    if idx != INVALID_IDX {
      ResultIsAligned(s.base, idx, alignment);
    }
  }

  // ---------------------------------------------------------------- the list afterwards

  /** A chunk goes to the front if it owns more than a quarter of the blocks. */
  ghost predicate Joined(r: seq<nat>, list: seq<nat>, x: nat, owned: nat, blocks: nat) {
    r == if owned > blocks / 4 then [x] + list else list + [x]
  }

  /** The `k`-th chunk has left the list; the `skip` blocks at its front, if any, have joined it,
      which gives `mid`; and then what is left behind the next `need` blocks, if anything. */
  ghost predicate ListCarved(b: seq<Header>, order: seq<nat>, skip: nat, need: nat, k: nat, mid: seq<nat>, r: seq<nat>)
    requires k < |order|
  {
    var x, n := order[k], |b|;
    && x < n
    && var owned, rest := b[x].owned, order[..k] + order[k + 1..];
       && skip + need <= owned
       && (if skip == 0 then mid == rest else Joined(mid, rest, x, skip, n))
       && (if skip + need == owned then r == mid else Joined(r, mid, x + skip + need, owned - skip - need, n))
  }

  /** After serving a request from the `k`-th chunk: blocks skipped for alignment and blocks left
      over have joined the list, in this order. */
  lemma {:induction false} ListAfterAllocate(s: System, size: nat, alignment: nat, k: nat) returns (mid: seq<nat>)
    requires Inv(s) && Request(s.base, |s.heap.blocks|, size, alignment) && k < |s.order| && alignment > 0
    requires FirstFit(s.heap.blocks, s.base, s.order, size, alignment) == s.order[k]
    ensures ListCarved(s.heap.blocks, s.order, AlignRightDiff(s.base + 16 * (s.order[k] + 1), alignment) / 16,
                   1 + CeilDiv(size, 16), k, mid, AfterAllocate(s, size, alignment).order)
  {
    hide FirstFit, WellFormed, LiveAt, UsedIsLive, Request, AlignRightDiff, Place, TakeHeads, TakeOrder, Fits,
         ListCarved;
    var x, n := s.order[k], |s.heap.blocks|;
    NeedIsPositive(size);
    ListedFits(s, size, alignment, x);
    mid := TakenList(s.heap, s.heads, s.order, k, SkipBlocks(s.base, x, alignment), RequestBlocks(size));
  }

  lemma {:induction false} ListedFits(s: System, size: nat, alignment: nat, x: nat)
    requires Inv(s) && Request(s.base, |s.heap.blocks|, size, alignment) && alignment > 0
    requires FirstFit(s.heap.blocks, s.base, s.order, size, alignment) == x && x in s.order
    ensures x < |s.heap.blocks| < INVALID_IDX && Takeable(s.heap, x, SkipBlocks(s.base, x, alignment),
                                                          RequestBlocks(size), s.heads, s.order)
  {
    hide Tiling, Linked, Coalesced, UsedBlocks, AlignRightDiff, RequestBlocks, Fits, FirstFit, PowerOfTwo;
    BlocksBounded(s.heap, s.heads, s.order);
    NeedIsPositive(size);
    TiledHead(s.heap.blocks, s.heads, x);
    assert Fits(s.heap.blocks, s.base, x, size, alignment);
    PlaceSizes(s.heap, s.base, x, size, alignment, s.heads, s.order);
  }

  lemma {:induction false} TakenList(h: Heap, heads: set<nat>, order: seq<nat>, k: nat, skip: nat, need: nat)
    returns (mid: seq<nat>)
    requires k < |order| && Takeable(h, order[k], skip, need, heads, order) && need > 0
    ensures ListCarved(h.blocks, order, skip, need, k, mid,
                   TakeOrder(|h.blocks|, order, order[k], skip, h.blocks[order[k]].owned, need))
  {
    hide Tiling, Linked, TakeOrder, Distinct;
    ListIsDistinct(h, order);
    if skip != 0 {
      InsideChunk(h.blocks, heads, order[k], skip);
    }
    mid := OrderOfTaken(|h.blocks|, order, k, skip, h.blocks[order[k]].owned, need);
  }

  lemma {:induction false} OrderOfTaken(n: nat, order: seq<nat>, k: nat, skip: nat, owned: nat, need: nat)
    returns (mid: seq<nat>)
    requires k < |order| && Distinct(order) && skip + need <= owned && (skip != 0 ==> order[k] + skip !in order)
    ensures var x, rest := order[k], order[..k] + order[k + 1..];
            var r := TakeOrder(n, order, x, skip, owned, need);
            && (if skip == 0 then mid == rest else Joined(mid, rest, x, skip, n))
            && (if skip + need == owned then r == mid else Joined(r, mid, x + skip + need, owned - skip - need, n))
  {
    hide Without, Distinct, PushOrder;
    var x := order[k];
    WithoutAt(order, k);
    mid := Without(order, x);
    if skip != 0 {
      mid := PushOrder(n, skip, Without(order, x), x);
      WithoutAbsent(mid, x + skip);
      PushIsJoin(n, skip, Without(order, x), x);
    }
    if skip + need < owned {
      PushIsJoin(n, owned - skip - need, mid, x + skip + need);
    }
  }

  lemma {:induction false} WithoutAbsent(order: seq<nat>, x: nat)
    requires x !in order
    ensures Without(order, x) == order
  {
  }

  lemma {:induction false} PushIsJoin(n: nat, owned: nat, list: seq<nat>, x: nat)
    ensures Joined(PushOrder(n, owned, list, x), list, x, owned, n)
  {
  }

  lemma {:induction false} ListIsDistinct(h: Heap, order: seq<nat>)
    requires Linked(h, order)
    ensures Distinct(order)
  {
  }

  /** After a return: the free neighbours have left the list, and the merged chunk has joined it. */
  lemma {:induction false} ListAfterDeallocate(s: System, ptr: nat)
    requires Inv(s) && ptr in s.live
    ensures LiveAt(s, ptr)
    ensures var b, k := s.heap.blocks, HeaderIndex(s.base, ptr);
            var next := k + b[k].owned;
            var back := 0 < b[k].before <= k && !b[k - b[k].before].used;
            var front := next < |b| && !b[next].used;
            var lo := if back then k - b[k].before else k;
            var hi := if front then next + b[next].owned else next;
            var one := if back then Without(s.order, lo) else s.order;
            var two := if front then Without(one, next) else one;
            lo <= hi && Joined(AfterDeallocate(s, ptr).order, two, lo, hi - lo, |b|)
  {
    hide Tiling, Linked, Coalesced, UsedBlocks, HeaderIndex, Without, HeapFree.Deallocate;
    assert LiveAt(s, ptr);
    TiledHead(s.heap.blocks, s.heads, HeaderIndex(s.base, ptr));
  }
}
