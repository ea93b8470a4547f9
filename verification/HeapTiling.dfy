/** Chunks tile the buffer. `heads` is the set of blocks that start a chunk. */
module HeapTiling {
  import opened HeapArith
  import opened HeapModel

  ghost predicate TiledAt(b: seq<Header>, heads: set<nat>, h: nat) {
    && h < |b|
    && b[h].owned > 0
    && h + b[h].owned <= |b|
    && (h + b[h].owned < |b| ==> h + b[h].owned in heads)
    && (if h == 0 then b[h].before == 0
        else 0 < b[h].before <= h && h - b[h].before in heads && b[h - b[h].before].owned == b[h].before)
  }

  ghost predicate Apart(b: seq<Header>, h: nat, k: nat) {
    h < |b| && h + b[h].owned <= k
  }

  /** The chunks follow one another from block 0 to the end of the buffer without gap or
      overlap, and each header records the length of the chunk before it. */
  ghost predicate Tiling(b: seq<Header>, heads: set<nat>) {
    && (|b| > 0 ==> 0 in heads)
    && (forall h {:trigger TiledAt(b, heads, h)} :: h in heads ==> TiledAt(b, heads, h))
    && (forall h, k {:trigger Apart(b, h, k)} :: h in heads && k in heads && h < k ==> Apart(b, h, k))
  }

  lemma {:induction false} TiledHead(b: seq<Header>, heads: set<nat>, h: nat)
    requires Tiling(b, heads) && h in heads
    ensures TiledAt(b, heads, h)
  {
  }

  lemma {:induction false} HeadsApart(b: seq<Header>, heads: set<nat>, h: nat, k: nat)
    requires Tiling(b, heads) && h in heads && k in heads
    ensures h < k ==> Apart(b, h, k)
  {
  }

  lemma {:induction false} SameTagsTile(b: seq<Header>, c: seq<Header>, heads: set<nat>)
    requires Tiling(b, heads) && SameTags(b, c)
    ensures Tiling(c, heads)
  {
    forall h {:trigger TiledAt(c, heads, h)} | h in heads ensures TiledAt(c, heads, h) {
      assert TiledAt(b, heads, h);
    }
    forall h, k {:trigger Apart(c, h, k)} | h in heads && k in heads && h < k ensures Apart(c, h, k) {
      assert Apart(b, h, k);
    }
  }

  /** The lengths after cutting the chunk at `h` behind its first `k` blocks. */
  ghost predicate SplitTags(b: seq<Header>, c: seq<Header>, h: nat, k: nat)
    requires h < |b|
  {
    && |c| == |b|
    && (forall i :: 0 <= i < |b| ==>
          c[i].owned == if i == h then k else if i == h + k then b[h].owned - k else b[i].owned)
    && (forall i :: 0 <= i < |b| ==>
          c[i].before == if i == h + k then k
                         else if i == h + b[h].owned then b[h].owned - k else b[i].before)
  }

  lemma {:induction false} SplitTiles(b: seq<Header>, c: seq<Header>, heads: set<nat>, h: nat, k: nat)
    requires Tiling(b, heads) && h in heads && h < |b| && 0 < k < b[h].owned
    requires SplitTags(b, c, h, k)
    ensures h + k !in heads && Tiling(c, heads + {h + k})
  {
    var hs := heads + {h + k};
    assert TiledAt(b, heads, h);
    assert h + k in heads ==> Apart(b, h, h + k);
    forall x {:trigger TiledAt(c, hs, x)} | x in hs ensures TiledAt(c, hs, x) {
      SplitTiledAt(b, c, heads, h, k, x);
    }
    forall x, y {:trigger Apart(c, x, y)} | x in hs && y in hs && x < y ensures Apart(c, x, y) {
      if x == h + k {
        assert Apart(b, h, y);
      } else if y == h + k {
        assert x < h ==> Apart(b, x, h);
        assert h < x ==> Apart(b, h, x);
      } else {
        assert Apart(b, x, y);
      }
    }
  }

  lemma {:induction false} SplitTiledAt(b: seq<Header>, c: seq<Header>, heads: set<nat>, h: nat, k: nat, x: nat)
    requires Tiling(b, heads) && h in heads && h < |b| && 0 < k < b[h].owned && h + k !in heads
    requires SplitTags(b, c, h, k) && x in heads + {h + k}
    ensures TiledAt(c, heads + {h + k}, x)
  {
    assert TiledAt(b, heads, h);
    if x != h + k {
      assert TiledAt(b, heads, x);
      if x == h + b[h].owned {
        assert TiledAt(b, heads, x - b[x].before);
      } else if x != 0 && b[x].before != 0 {
        assert x - b[x].before != h;
      }
    }
  }

  /** The lengths after the chunk at `h` takes over the chunk behind it. */
  ghost predicate MergeTags(b: seq<Header>, c: seq<Header>, h: nat)
    requires h < |b| && h + b[h].owned < |b|
  {
    var n := h + b[h].owned;
    && |c| == |b|
    && (forall i :: 0 <= i < |b| ==>
          c[i].owned == if i == h then b[h].owned + b[n].owned else b[i].owned)
    && (forall i :: 0 <= i < |b| ==>
          c[i].before == if i == n + b[n].owned then b[h].owned + b[n].owned else b[i].before)
  }

  lemma {:induction false} MergeTiles(b: seq<Header>, c: seq<Header>, heads: set<nat>, h: nat)
    requires Tiling(b, heads) && h in heads && h < |b| && h + b[h].owned < |b|
    requires MergeTags(b, c, h)
    ensures h + b[h].owned in heads && Tiling(c, heads - {h + b[h].owned})
  {
    assert TiledAt(b, heads, h);
    var n := h + b[h].owned;
    var hs := heads - {n};
    forall x {:trigger TiledAt(c, hs, x)} | x in hs ensures TiledAt(c, hs, x) {
      MergeTiledAt(b, c, heads, h, x);
    }
    forall x, y {:trigger Apart(c, x, y)} | x in hs && y in hs && x < y ensures Apart(c, x, y) {
      assert Apart(b, x, y);
      if x == h {
        assert Apart(b, n, y);
      }
    }
  }

  lemma {:induction false} MergeTiledAt(b: seq<Header>, c: seq<Header>, heads: set<nat>, h: nat, x: nat)
    requires Tiling(b, heads) && h in heads && h < |b| && h + b[h].owned < |b|
    requires MergeTags(b, c, h) && x in heads - {h + b[h].owned}
    ensures TiledAt(c, heads - {h + b[h].owned}, x)
  {
    var n := h + b[h].owned;
    assert TiledAt(b, heads, h) && TiledAt(b, heads, x);
    assert TiledAt(b, heads, n);
    assert x < h ==> Apart(b, x, h);
    assert h < x ==> Apart(b, h, x);
    assert x + b[x].owned == n ==> x == h;
    if x == n + b[n].owned {
      NoTwoPredecessors(b, heads, x, n);
    } else if x != 0 {
      assert x - b[x].before != n && x - b[x].before != h;
    }
  }

  /** The recorded predecessor is the chunk that ends where this one starts. */
  lemma {:induction false} NoTwoPredecessors(b: seq<Header>, heads: set<nat>, x: nat, p: nat)
    requires Tiling(b, heads) && x in heads && p in heads && p < |b| && p + b[p].owned == x
    ensures x < |b| && x != 0 && b[x].before == x - p
  {
    assert TiledAt(b, heads, x) && TiledAt(b, heads, p);
    var q := x - b[x].before;
    assert q < p ==> Apart(b, q, p);
    assert p < q ==> Apart(b, p, q);
  }

  /** Every block belongs to a chunk. */
  lemma {:induction false} HeadOf(b: seq<Header>, heads: set<nat>, x: nat, from: nat) returns (h: nat)
    requires Tiling(b, heads) && x < |b| && from in heads && from <= x
    ensures h in heads && h < |b| && h <= x < h + b[h].owned
    decreases x - from
  {
    assert TiledAt(b, heads, from);
    if x < from + b[from].owned {
      h := from;
    } else {
      h := HeadOf(b, heads, x, from + b[from].owned);
    }
  }

  /** The headers met when walking from `from` by `blocks_owned`. */
  ghost function Walk(b: seq<Header>, from: nat): (r: set<nat>)
    decreases |b| - from
  {
    if from < |b| && b[from].owned > 0 then {from} + Walk(b, from + b[from].owned) else {}
  }

  /** `heads` is not a choice: it is what the walk from block 0 meets. */
  lemma {:induction false} WalkMeetsHeads(b: seq<Header>, heads: set<nat>, from: nat)
    requires Tiling(b, heads) && (from in heads || from == |b|)
    ensures Walk(b, from) == set h | h in heads && from <= h
    decreases |b| - from
  {
    if from < |b| {
      assert TiledAt(b, heads, from);
      var next := from + b[from].owned;
      WalkMeetsHeads(b, heads, next);
      forall h | h in heads && from < h ensures next <= h {
        assert Apart(b, from, h);
      }
    } else {
      forall h | h in heads ensures h < from {
        assert TiledAt(b, heads, h);
      }
    }
  }

  // ---------------------------------------------------------------- blocks in use

  ghost predicate InChunk(b: seq<Header>, h: nat, x: nat) {
    h < |b| && h <= x < h + b[h].owned
  }

  lemma {:induction false} OneChunkPerBlock(b: seq<Header>, heads: set<nat>, g: nat, k: nat, x: nat)
    requires Tiling(b, heads) && g in heads && k in heads && InChunk(b, g, x) && InChunk(b, k, x)
    ensures g == k
  {
    assert g < k ==> Apart(b, g, k);
    assert k < g ==> Apart(b, k, g);
  }

  ghost predicate InUsed(b: seq<Header>, heads: set<nat>, x: nat) {
    exists h :: h in heads && InChunk(b, h, x) && b[h].used
  }

  ghost function UsedBlocks(b: seq<Header>, heads: set<nat>): set<nat> {
    set x: nat | x < |b| && InUsed(b, heads, x)
  }

  ghost predicate Between(lo: nat, x: nat, hi: nat) {
    lo <= x < hi
  }

  ghost function Interval(lo: nat, hi: nat): set<nat> {
    set x: nat | x < hi && Between(lo, x, hi)
  }

  lemma {:induction false} IntervalSize(lo: nat, hi: nat)
    requires lo <= hi
    ensures |Interval(lo, hi)| == hi - lo
    decreases hi - lo
  {
    if lo < hi {
      IntervalSize(lo, hi - 1);
      assert Interval(lo, hi) == Interval(lo, hi - 1) + {hi - 1};
    } else {
      assert Interval(lo, hi) == {};
    }
  }

  lemma {:induction false} SubsetSize(a: set<nat>, b: set<nat>)
    requires a <= b
    ensures |a| <= |b|
  {
    assert b == a + (b - a);
  }

  lemma {:induction false} UsedBlocksBounded(b: seq<Header>, heads: set<nat>)
    ensures |UsedBlocks(b, heads)| <= |b|
  {
    IntervalSize(0, |b|);
    assert UsedBlocks(b, heads) <= Interval(0, |b|);
    SubsetSize(UsedBlocks(b, heads), Interval(0, |b|));
  }

  ghost predicate FreeAt(b: seq<Header>, h: nat) {
    h < |b| && !b[h].used
  }

  /** No two neighbouring chunks are both free. */
  ghost predicate Coalesced(b: seq<Header>, heads: set<nat>) {
    forall h :: h in heads && FreeAt(b, h) ==> !FreeAt(b, h + b[h].owned)
  }
}
