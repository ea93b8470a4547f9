/** The allocator's memory as a value.

    `m_mem` is cut into 16-byte blocks. The first block of every chunk holds a header; what
    the other blocks hold is up to the user of the chunk, so a block is modelled as a header
    whose fields are meaningful only where a chunk starts. The private helpers of the
    allocator are functions from one value to the next; the class in Allocator.dfy performs
    the same updates in place. */
module HeapModel {
  import opened HeapArith

  const INVALID_IDX: nat := 0xFFFF_FFFF
  /** `blocks_before` is a 31-bit field. */
  const BEFORE_RANGE: nat := 0x8000_0000

  datatype Header = Header(before: nat, used: bool, owned: nat, prev: nat, next: nat)

  /** `blocks` is the buffer, `first` and `last` the ends of the free list, `used` and `peak`
      the byte counters. */
  datatype Heap = Heap(blocks: seq<Header>, first: nat, last: nat, used: nat, peak: nat)

  // ---------------------------------------------------------------- header updates

  function SetBlocksOwned(b: seq<Header>, idx: nat, value: nat): (r: seq<Header>)
    requires idx < |b|
    ensures |r| == |b|
    ensures SameLinks(b, r) && SameUse(b, r)
    ensures forall i :: 0 <= i < |b| ==> r[i].owned == if i == idx then value else b[i].owned
    ensures forall i :: 0 <= i < |b| ==>
              r[i].before == if i == idx + value then value % BEFORE_RANGE else b[i].before
  {
    var b1 := b[idx := b[idx].(owned := value)];
    if idx + value < |b1| then
      b1[idx + value := b1[idx + value].(before := value % BEFORE_RANGE)]
    else b1
  }

  /** The 31-bit field records a length faithfully exactly when the length has 31 bits. */
  lemma {:induction false} BeforeIsFaithfulIff(b: seq<Header>, idx: nat, value: nat)
    requires idx + value < |b|
    ensures SetBlocksOwned(b, idx, value)[idx + value].before == value <==> value < 0x8000_0000
  {
  }

  ghost predicate SameLinks(b: seq<Header>, c: seq<Header>) {
    |b| == |c| &&
    forall i :: 0 <= i < |b| ==> c[i].prev == b[i].prev && c[i].next == b[i].next
  }

  ghost predicate SameUse(b: seq<Header>, c: seq<Header>) {
    |b| == |c| && forall i :: 0 <= i < |b| ==> c[i].used == b[i].used
  }

  /** Same lengths and predecessor lengths. */
  ghost predicate SameTags(b: seq<Header>, c: seq<Header>) {
    |b| == |c| &&
    forall i :: 0 <= i < |b| ==> c[i].owned == b[i].owned && c[i].before == b[i].before
  }

  function DefaultInitialize(b: seq<Header>, idx: nat): (r: seq<Header>)
    requires idx < |b|
    ensures |r| == |b|
  {
    b[idx := b[idx].(prev := INVALID_IDX, next := INVALID_IDX, used := false)]
  }

  predicate LinkInRange(b: seq<Header>, idx: nat) {
    idx == INVALID_IDX || idx < |b|
  }

  function SetPrev(b: seq<Header>, idx: nat, prev: nat): (r: seq<Header>)
    requires idx < |b|
    ensures SameTags(b, r) && SameUse(b, r)
  {
    b[idx := b[idx].(prev := prev)]
  }

  function SetNext(b: seq<Header>, idx: nat, next: nat): (r: seq<Header>)
    requires idx < |b|
    ensures SameTags(b, r) && SameUse(b, r)
  {
    b[idx := b[idx].(next := next)]
  }

  function PushFreeNode(h: Heap, idx: nat): (r: Heap)
    requires PushReady(h, idx)
    ensures SameTags(h.blocks, r.blocks) && SameUse(h.blocks, r.blocks)
    ensures r.used == h.used && r.peak == h.peak
  {
    var b := h.blocks;
    if h.first == INVALID_IDX then
      h.(first := idx, last := idx)
    else if b[idx].owned > |b| / 4 then
      h.(blocks := SetNext(SetPrev(b, h.first, idx), idx, h.first), first := idx)
    else
      h.(blocks := SetPrev(SetNext(b, h.last, idx), idx, h.last), last := idx)
  }

  /** The neighbours of `idx` are joined to each other and `idx` is left unlinked. */
  ghost predicate Bypassed(b: seq<Header>, c: seq<Header>, idx: nat)
    requires idx < |b| == |c|
  {
    forall i :: 0 <= i < |b| ==>
      && c[i].next == (if i == idx then INVALID_IDX
                       else if i == b[idx].prev then b[idx].next else b[i].next)
      && c[i].prev == (if i == idx then INVALID_IDX
                       else if i == b[idx].next then b[idx].prev else b[i].prev)
  }

  function UnlinkFreeNode(h: Heap, idx: nat): (r: Heap)
    requires UnlinkReady(h, idx)
    ensures SameTags(h.blocks, r.blocks) && SameUse(h.blocks, r.blocks)
    ensures r.used == h.used && r.peak == h.peak
  {
    var b := h.blocks;
    var next := b[idx].next;
    var prev := b[idx].prev;
    var b1 := if next != INVALID_IDX then SetPrev(b, next, prev) else b;
    var b2 := if prev != INVALID_IDX then SetNext(b1, prev, next) else b1;
    var b3 := SetNext(SetPrev(b2, idx, INVALID_IDX), idx, INVALID_IDX);
    Heap(b3,
         if h.first == idx then next else h.first,
         if h.last == idx then prev else h.last,
         h.used, h.peak)
  }

  // ---------------------------------------------------------------- the free list

  function At(order: seq<nat>, i: int): nat {
    if 0 <= i < |order| then order[i] else INVALID_IDX
  }

  ghost predicate Distinct(order: seq<nat>) {
    forall i, j :: 0 <= i < j < |order| ==> order[i] != order[j]
  }

  /** The doubly linked list threaded through the headers visits exactly `order`, forward by
      `next` from `first` and backward by `prev` from `last`. */
  ghost predicate Linked(h: Heap, order: seq<nat>) {
    && Distinct(order)
    && h.first == At(order, 0)
    && h.last == At(order, |order| - 1)
    && (forall i :: 0 <= i < |order| ==> LinkedAt(h.blocks, order, i))
  }

  predicate Loose(b: seq<Header>, idx: nat)
    requires idx < |b|
  {
    b[idx].prev == INVALID_IDX && b[idx].next == INVALID_IDX
  }

  function Without(order: seq<nat>, idx: nat): (r: seq<nat>)
    ensures forall x :: x in r ==> x in order
    ensures idx !in order ==> r == order
  {
    if order == [] then []
    else if order[0] == idx then order[1..]
    else [order[0]] + Without(order[1..], idx)
  }

  lemma {:induction false} WithoutAt(order: seq<nat>, k: nat)
    requires Distinct(order) && k < |order|
    ensures Without(order, order[k]) == order[..k] + order[k + 1..]
    ensures forall x :: x in Without(order, order[k]) <==> x in order && x != order[k]
  {
    hide Without, Distinct;
    WithoutIsCut(order, k);
    forall x ensures x in order[..k] + order[k + 1..] <==> x in order && x != order[k] {
      CutMember(order, k, x);
    }
  }

  lemma {:induction false} CutMember(order: seq<nat>, k: nat, x: nat)
    requires Distinct(order) && k < |order|
    ensures x in order[..k] + order[k + 1..] <==> x in order && x != order[k]
  {
    var cut := order[..k] + order[k + 1..];
    if x in cut {
      var i :| 0 <= i < |cut| && cut[i] == x;
      assert x == order[if i < k then i else i + 1];
    }
    if x in order && x != order[k] {
      var i :| 0 <= i < |order| && order[i] == x;
      assert x == cut[if i < k then i else i - 1];
    }
  }

  lemma {:induction false} WithoutIsCut(order: seq<nat>, k: nat)
    requires Distinct(order) && k < |order|
    ensures Without(order, order[k]) == order[..k] + order[k + 1..]
  {
    if k > 0 {
      var tail := order[1..];
      assert Distinct(tail) by {
        forall i, j | 0 <= i < j < |tail| ensures tail[i] != tail[j] {
          assert tail[i] == order[i + 1] && tail[j] == order[j + 1];
        }
      }
      WithoutIsCut(tail, k - 1);
      assert [order[0]] + (tail[..k - 1] + tail[k..]) == order[..k] + order[k + 1..];
    }
  }

  lemma {:induction false} WithoutMembers(order: seq<nat>, idx: nat)
    requires Distinct(order)
    ensures forall x :: x in Without(order, idx) <==> x in order && x != idx
    ensures Distinct(Without(order, idx))
  {
    if idx in order {
      var k :| 0 <= k < |order| && order[k] == idx;
      WithoutAt(order, k);
      DistinctWithout(order, k);
    }
  }

  /** Links outside the list are untouched by list surgery. */
  ghost predicate SameOutside(b: seq<Header>, c: seq<Header>, order: seq<nat>, idx: nat) {
    |b| == |c| &&
    forall i :: 0 <= i < |b| && i !in order && i != idx ==>
      c[i].prev == b[i].prev && c[i].next == b[i].next
  }

  /** The links of the `i`-th list member. */
  ghost predicate LinkedAt(b: seq<Header>, order: seq<nat>, i: nat)
    requires i < |order|
  {
    order[i] < |b| && b[order[i]].next == At(order, i + 1) && b[order[i]].prev == At(order, i - 1)
  }

  lemma {:induction false} BypassedAt(b: seq<Header>, c: seq<Header>, order: seq<nat>, k: nat, i: nat)
    requires k < |order| && i < |order| - 1 && Distinct(order) && |b| < INVALID_IDX
    requires forall j :: 0 <= j < |order| ==> LinkedAt(b, order, j)
    requires order[k] < |b| == |c| && Bypassed(b, c, order[k])
    ensures LinkedAt(c, order[..k] + order[k + 1..], i)
  {
    var j := if i < k then i else i + 1;
    assert LinkedAt(b, order, j) && LinkedAt(b, order, k);
    var o := order[..k] + order[k + 1..];
    assert o[i] == order[j];
    assert At(o, i + 1) == if j + 1 == k then At(order, k + 1) else At(order, j + 1);
    assert At(o, i - 1) == if j == k + 1 then At(order, k - 1) else At(order, j - 1);
    assert order[j] == At(order, k - 1) <==> j == k - 1;
    assert order[j] == At(order, k + 1) <==> j == k + 1;
  }

  lemma {:induction false} DistinctWithout(order: seq<nat>, k: nat)
    requires Distinct(order) && k < |order|
    ensures Distinct(order[..k] + order[k + 1..])
  {
    var o := order[..k] + order[k + 1..];
    forall i, j | 0 <= i < j < |o| ensures o[i] != o[j] {
      assert o[i] == order[if i < k then i else i + 1];
      assert o[j] == order[if j < k then j else j + 1];
    }
  }

  lemma {:induction false} BypassOutside(b: seq<Header>, c: seq<Header>, order: seq<nat>, k: nat)
    requires k < |order| && order[k] < |b| == |c| && |b| < INVALID_IDX
    requires LinkedAt(b, order, k) && Bypassed(b, c, order[k])
    ensures SameOutside(b, c, order, order[k])
  {
    forall i | 0 <= i < |b| && i !in order
      ensures c[i].prev == b[i].prev && c[i].next == b[i].next
    {
      assert i != At(order, k + 1) && i != At(order, k - 1);
    }
  }

  lemma {:induction false} DistinctPush(blocks: nat, owned: nat, order: seq<nat>, idx: nat)
    requires Distinct(order) && idx !in order
    ensures Distinct(PushOrder(blocks, owned, order, idx))
  {
  }

  lemma {:induction false} UnlinkBypasses(h: Heap, idx: nat)
    requires UnlinkReady(h, idx)
    ensures var r := UnlinkFreeNode(h, idx);
            && |r.blocks| == |h.blocks|
            && Bypassed(h.blocks, r.blocks, idx)
            && r.first == (if h.first == idx then h.blocks[idx].next else h.first)
            && r.last == (if h.last == idx then h.blocks[idx].prev else h.last)
  {
  }

  lemma {:induction false} BypassedIsLinked(h: Heap, r: Heap, order: seq<nat>, k: nat)
    requires Linked(h, order) && |h.blocks| < INVALID_IDX && k < |order|
    requires |r.blocks| == |h.blocks| && order[k] < |h.blocks| && Bypassed(h.blocks, r.blocks, order[k])
    requires r.first == (if h.first == order[k] then h.blocks[order[k]].next else h.first)
    requires r.last == (if h.last == order[k] then h.blocks[order[k]].prev else h.last)
    ensures Linked(r, order[..k] + order[k + 1..])
  {
    var o := order[..k] + order[k + 1..];
    DistinctWithout(order, k);
    forall i | 0 <= i < |o| ensures LinkedAt(r.blocks, o, i) {
      BypassedAt(h.blocks, r.blocks, order, k, i);
    }
    assert LinkedAt(h.blocks, order, k);
    assert order[0] == order[k] <==> k == 0;
    assert order[|order| - 1] == order[k] <==> k == |order| - 1;
    assert r.first == At(o, 0) && r.last == At(o, |o| - 1);
  }

  lemma {:induction false} UnlinkMember(h: Heap, order: seq<nat>, k: nat)
    requires Linked(h, order) && |h.blocks| < INVALID_IDX && k < |order|
    ensures UnlinkReady(h, order[k])
    ensures var r := UnlinkFreeNode(h, order[k]);
            && Linked(r, order[..k] + order[k + 1..])
            && Loose(r.blocks, order[k])
            && SameOutside(h.blocks, r.blocks, order, order[k])
  {
    var idx := order[k];
    assert LinkedAt(h.blocks, order, k);
    assert At(order, k + 1) == INVALID_IDX || LinkedAt(h.blocks, order, k + 1);
    assert At(order, k - 1) == INVALID_IDX || LinkedAt(h.blocks, order, k - 1);
    UnlinkBypasses(h, idx);
    var r := UnlinkFreeNode(h, idx);
    BypassOutside(h.blocks, r.blocks, order, k);
    BypassedIsLinked(h, r, order, k);
  }

  predicate UnlinkReady(h: Heap, idx: nat) {
    && idx < |h.blocks| < INVALID_IDX
    && LinkInRange(h.blocks, h.blocks[idx].prev) && LinkInRange(h.blocks, h.blocks[idx].next)
    && h.blocks[idx].prev != idx && h.blocks[idx].next != idx
  }

  /** Unlinking a header removes it from the list; on a header outside the list it does
      nothing. */
  lemma {:induction false} UnlinkRemoves(h: Heap, order: seq<nat>, idx: nat)
    requires Linked(h, order) && idx < |h.blocks| < INVALID_IDX
    requires idx in order || Loose(h.blocks, idx)
    ensures UnlinkReady(h, idx)
    ensures var r := UnlinkFreeNode(h, idx);
            && Linked(r, Without(order, idx))
            && Loose(r.blocks, idx)
            && SameOutside(h.blocks, r.blocks, order, idx)
    ensures forall x :: x in Without(order, idx) <==> x in order && x != idx
  {
    if idx in order {
      var k :| 0 <= k < |order| && order[k] == idx;
      UnlinkMember(h, order, k);
      WithoutAt(order, k);
    } else {
      assert UnlinkFreeNode(h, idx) == h;
    }
  }

  /** Where `push_free_node` puts a header: in front when it owns more than a quarter of the
      buffer, behind otherwise. */
  function PushOrder(blocks: nat, owned: nat, order: seq<nat>, idx: nat): (r: seq<nat>)
    ensures forall x :: x in r <==> x in order || x == idx
  {
    if owned > blocks / 4 then [idx] + order else order + [idx]
  }

  predicate PushReady(h: Heap, idx: nat) {
    && idx < |h.blocks|
    && LinkInRange(h.blocks, h.first) && LinkInRange(h.blocks, h.last)
    && (h.first != INVALID_IDX ==> h.last != INVALID_IDX)
  }

  lemma {:induction false} PushInserts(h: Heap, order: seq<nat>, idx: nat)
    requires Linked(h, order) && idx < |h.blocks| < INVALID_IDX
    requires idx !in order && Loose(h.blocks, idx)
    ensures PushReady(h, idx)
    ensures var r := PushFreeNode(h, idx);
            && Linked(r, PushOrder(|h.blocks|, h.blocks[idx].owned, order, idx))
            && Linked(r, if h.blocks[idx].owned > |h.blocks| / 4 then [idx] + order else order + [idx])
            && SameOutside(h.blocks, r.blocks, order, idx)
  {
    if order == [] {
      assert PushOrder(|h.blocks|, h.blocks[idx].owned, order, idx) == [idx];
    } else if h.blocks[idx].owned > |h.blocks| / 4 {
      PushFront(h, order, idx);
    } else {
      PushBack(h, order, idx);
    }
  }

  lemma {:induction false} PushFront(h: Heap, order: seq<nat>, idx: nat)
    requires Linked(h, order) && idx < |h.blocks| < INVALID_IDX && order != []
    requires idx !in order && Loose(h.blocks, idx)
    requires h.blocks[idx].owned > |h.blocks| / 4
    ensures PushReady(h, idx)
    ensures var r := PushFreeNode(h, idx);
            Linked(r, [idx] + order) && SameOutside(h.blocks, r.blocks, order, idx)
  {
    assert LinkedAt(h.blocks, order, 0) && LinkedAt(h.blocks, order, |order| - 1);
    var r := PushFreeNode(h, idx);
    var o := [idx] + order;
    forall i | 0 <= i < |o| ensures LinkedAt(r.blocks, o, i) {
      if i > 0 {
        assert o[i] == order[i - 1] && order[i - 1] != idx;
        assert LinkedAt(h.blocks, order, i - 1);
        assert i > 1 ==> order[i - 1] != order[0];
      }
    }
  }

  lemma {:induction false} PushBack(h: Heap, order: seq<nat>, idx: nat)
    requires Linked(h, order) && idx < |h.blocks| < INVALID_IDX && order != []
    requires idx !in order && Loose(h.blocks, idx)
    requires h.blocks[idx].owned <= |h.blocks| / 4
    ensures PushReady(h, idx)
    ensures var r := PushFreeNode(h, idx);
            Linked(r, order + [idx]) && SameOutside(h.blocks, r.blocks, order, idx)
  {
    assert LinkedAt(h.blocks, order, 0) && LinkedAt(h.blocks, order, |order| - 1);
    var r := PushFreeNode(h, idx);
    var o := order + [idx];
    forall i | 0 <= i < |o| ensures LinkedAt(r.blocks, o, i) {
      if i < |order| {
        assert o[i] == order[i] && order[i] != idx;
        assert LinkedAt(h.blocks, order, i);
        assert i < |order| - 1 ==> order[i] != order[|order| - 1];
      }
    }
  }
}
