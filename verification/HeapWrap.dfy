/** Requests whose byte count wraps around `size_t`. */
module HeapWrap {
  import opened Basics
  import opened HeapArith
  import opened HeapModel
  import opened HeapTiling
  import opened HeapOps
  import opened HeapAlloc
  import opened HeapRuns
  import opened HeapTheorems

  /** The chunk is accepted because its byte count wraps. */
  ghost predicate Misleads(b: seq<Header>, base: nat, x: nat, size: nat, alignment: nat)
    requires alignment > 0
  {
    Fits(b, base, x, size, alignment) && !Countable(base, x, size, alignment)
  }

  lemma {:induction false} HalfRange(alignment: nat)
    requires PowerOfTwo(alignment) && alignment < SIZE_T
    ensures 0 < alignment && 2 * alignment <= SIZE_T
  {
    hide PowerOfTwo;
    PositivePower(alignment);
    RangeIsPowerOfTwo();
    PowersDivide(alignment, SIZE_T);
    var q := SIZE_T / alignment;
    assert SIZE_T == q * alignment;
    TimesMonotone(q, 1, alignment);
    TimesMonotone(2, q, alignment);
  }

  /** A count can wrap only for a request larger than any buffer. */
  lemma {:induction false} WrapsOnlyIfHuge(base: nat, idx: nat, size: nat, alignment: nat)
    requires PowerOfTwo(alignment) && alignment < SIZE_T && !Countable(base, idx, size, alignment)
    ensures size >= BLOCK_SIZE * BEFORE_RANGE
  {
    hide PowerOfTwo;
    HalfRange(alignment);
  }

  lemma {:induction false} HugeHasNoPlacement(h: Heap, heads: set<nat>, base: nat, p: nat, size: nat, alignment: nat)
    requires |h.blocks| <= BEFORE_RANGE && size >= BLOCK_SIZE * BEFORE_RANGE && alignment > 0
    ensures !Placement(h.blocks, heads, base, p, size, alignment)
  {
  }

  lemma {:induction false} HugeFitsOnlyByWrapping(h: Heap, heads: set<nat>, order: seq<nat>, base: nat, x: nat,
                                                  size: nat, alignment: nat)
    requires WellFormed(h, heads, order) && x in order && size >= BLOCK_SIZE * BEFORE_RANGE && alignment > 0
    ensures Fits(h.blocks, base, x, size, alignment) ==> !Countable(base, x, size, alignment)
  {
    hide Linked, Coalesced, UsedBlocks, AlignRightDiff;
    assert TiledAt(h.blocks, heads, x);
    BlocksNeededCoversRequest(size, AlignRightDiff(DataAddr(base, x), alignment));
  }

  /** The answer of `allocate` is null exactly when no placement exists, if and only if no free
      chunk is accepted by a count that wraps. This asks nothing of the size. */
  lemma {:induction false} AnswersRightIff(h: Heap, heads: set<nat>, order: seq<nat>, base: nat, size: nat,
                                           alignment: nat)
    requires WellFormed(h, heads, order) && base % BLOCK_SIZE == 0 && PowerOfTwo(alignment) && 0 < alignment < SIZE_T
    ensures (FirstFit(h.blocks, base, order, size, alignment) == INVALID_IDX
             <==> !exists p :: Placement(h.blocks, heads, base, p, size, alignment))
            <==> forall x :: x in order ==> !Misleads(h.blocks, base, x, size, alignment)
  {
    hide WellFormed, PowerOfTwo, Fits, Placement, Countable, FirstFit;
    BlocksBounded(h, heads, order);
    BlocksInRange(h, heads, order);
    var b := h.blocks;
    if Request(base, |b|, size, alignment) {
      FailsIffNoPlacement(h, heads, order, base, size, alignment);
      forall x | x in order ensures !Misleads(b, base, x, size, alignment) {
        ListedInRange(h, heads, order, x);
      }
    } else {
      var idx: nat :| idx < |b| && !Countable(base, idx, size, alignment);
      WrapsOnlyIfHuge(base, idx, size, alignment);
      forall p: nat ensures !Placement(b, heads, base, p, size, alignment) {
        HugeHasNoPlacement(h, heads, base, p, size, alignment);
      }
      forall x | x in order
        ensures Fits(b, base, x, size, alignment) ==> Misleads(b, base, x, size, alignment)
      {
        HugeFitsOnlyByWrapping(h, heads, order, base, x, size, alignment);
      }
      NoneFitsIff(b, base, order, size, alignment);
    }
  }

  lemma {:induction false} NoneFitsIff(b: seq<Header>, base: nat, order: seq<nat>, size: nat, alignment: nat)
    requires |b| < INVALID_IDX && alignment > 0
    ensures FirstFit(b, base, order, size, alignment) == INVALID_IDX <==>
            forall x :: x in order ==> !Fits(b, base, x, size, alignment)
  {
    hide BlocksNeeded, AlignRightDiff;
    var r := FirstFit(b, base, order, size, alignment);
  }

  lemma {:induction false} ListedInRange(h: Heap, heads: set<nat>, order: seq<nat>, x: nat)
    requires WellFormed(h, heads, order) && x in order
    ensures x < |h.blocks|
  {
    assert TiledAt(h.blocks, heads, x);
  }

  lemma {:induction false} BlocksInRange(h: Heap, heads: set<nat>, order: seq<nat>)
    requires WellFormed(h, heads, order)
    ensures |h.blocks| <= BEFORE_RANGE
  {
  }

  /** Such a request: 2^64 - 16 bytes are served from a new buffer of one block. */
  lemma {:induction false} SomeRequestWraps(base: nat, block: Header, size: nat)
    requires base % BLOCK_SIZE == 0 && size == SIZE_T - BLOCK_SIZE
    ensures var s := Fresh(base, [block]);
            && Inv(s)
            && FirstFit(s.heap.blocks, base, s.order, size, 1) == 0
            && !exists p :: Placement(s.heap.blocks, s.heads, base, p, size, 1)
  {
    hide Inv;
    FreshIsInv(base, [block]);
    var s := Fresh(base, [block]);
    assert AlignRightDiff(DataAddr(base, 0), 1) == 0;
    assert BlocksNeeded(size, 0) == 0;
    assert Fits(s.heap.blocks, base, 0, size, 1);
    forall p: nat ensures !Placement(s.heap.blocks, s.heads, base, p, size, 1) {
      HugeHasNoPlacement(s.heap, s.heads, base, p, size, 1);
    }
  }
}
