/** Addresses and block counts of the allocator. */
module HeapArith {
  import opened Basics

  const BLOCK_SIZE: nat := 16

  function CeilDiv(a: nat, b: nat): (r: nat)
    requires b > 0
  {
    a / b + if a % b != 0 then 1 else 0
  }

  /** Bytes from `p` up to the next multiple of `alignment`: masking `p + alignment - 1` with
      `~(alignment - 1)` rounds up to a multiple of a power of two. */
  function AlignRightDiff(p: nat, alignment: nat): (r: nat)
    requires alignment > 0
    ensures r < alignment
  {
    if p % alignment == 0 then 0 else alignment - p % alignment
  }

  lemma {:induction false} ModUnique(x: nat, q: nat, r: nat, a: nat)
    requires a > r && x == q * a + r
    ensures x % a == r
  {
    var k := q - x / a;
    assert x == x / a * a + x % a;
    assert k * a == q * a - x / a * a;
    assert k >= 1 ==> k * a >= a;
    assert k <= -1 ==> k * a + a <= 0;
  }

  /** The gap reaches an aligned address, and no shorter gap does. */
  lemma {:induction false} AlignRightDiffIsLeast(p: nat, alignment: nat, d: nat)
    requires alignment > 0
    ensures (p + AlignRightDiff(p, alignment)) % alignment == 0
    ensures (p + d) % alignment == 0 ==> AlignRightDiff(p, alignment) <= d
  {
    var q := p / alignment;
    var m := p % alignment;
    assert p == q * alignment + m;
    if m != 0 {
      assert (q + 1) * alignment == q * alignment + alignment;
      ModUnique(p + AlignRightDiff(p, alignment), q + 1, 0, alignment);
      if d < alignment - m {
        ModUnique(p + d, q, m + d, alignment);
      }
    }
  }

  ghost predicate PowerOfTwo(a: nat)
  {
    a == 1 || (a > 1 && a % 2 == 0 && PowerOfTwo(a / 2))
  }

  /** `BlockMetadata::get_mem` of the header in block `idx`. */
  function DataAddr(base: nat, idx: nat): nat {
    base + BLOCK_SIZE * (idx + 1)
  }

  function HeaderIndex(base: nat, ptr: nat): int
    requires base <= ptr
  {
    var index := (ptr - base) / BLOCK_SIZE;
    if ptr % BLOCK_SIZE == 0 then index - 1 else index
  }

  /** Blocks taken from a free chunk by a request, counting the header and the blocks skipped
      for alignment. The byte count is a `size_t`. */
  function BlocksNeeded(size: nat, alignDiff: nat): nat {
    CeilDiv((BLOCK_SIZE + size + alignDiff) % SIZE_T, BLOCK_SIZE)
  }

  /** The block count covers the request exactly when the byte count does not wrap. */
  lemma {:induction false} BlocksNeededCoversRequest(size: nat, alignDiff: nat)
    ensures 16 * BlocksNeeded(size, alignDiff) >= 16 + size + alignDiff
            <==> 16 + size + alignDiff < 0x1_0000_0000_0000_0000
  {
    var n := BLOCK_SIZE + size + alignDiff;
    if n >= SIZE_T {
      var m := n % SIZE_T;
      assert n == n / SIZE_T * SIZE_T + m && n / SIZE_T >= 1;
      assert n >= SIZE_T + m;
      assert BLOCK_SIZE * CeilDiv(m, BLOCK_SIZE) < m + BLOCK_SIZE;
    }
  }

  /** Blocks a request occupies once aligned: its header and its data. */
  function RequestBlocks(size: nat): (r: nat)
    ensures size <= 16 * (r - 1) < size + 16
  {
    1 + CeilDiv(size, BLOCK_SIZE)
  }

  /** What `allocate` asserts, and that the byte count of line 164 wraps for no block. */
  ghost predicate Request(base: nat, blocks: nat, size: nat, alignment: nat) {
    && PowerOfTwo(alignment)
    && forall idx :: 0 <= idx < blocks ==> Countable(base, idx, size, alignment)
  }

  ghost predicate Countable(base: nat, idx: nat, size: nat, alignment: nat) {
    alignment > 0 && BLOCK_SIZE + size + AlignRightDiff(DataAddr(base, idx), alignment) < SIZE_T
  }

  /** The gap as line 28 computes it, in arithmetic modulo 2^64: round up by masking, then
      subtract. Clearing the low bits of a power of two is rounding down to its multiple. */
  function MaskedGap(p: nat, alignment: nat): nat
    requires alignment > 0
  {
    ((p + alignment - 1) % SIZE_T / alignment * alignment - p) % SIZE_T
  }

  lemma {:induction false} PowersDivide(a: nat, b: nat)
    requires PowerOfTwo(a) && PowerOfTwo(b) && a <= b
    ensures b % a == 0
  {
    if a > 1 {
      PowersDivide(a / 2, b / 2);
      var q := b / 2 / (a / 2);
      assert b / 2 == q * (a / 2);
      assert b == q * a;
      ModUnique(b, q, 0, a);
    }
  }

  lemma {:induction false} RangeIsPowerOfTwo()
    ensures PowerOfTwo(SIZE_T)
  {
    Times256(0x1);
    Times256(0x100);
    Times256(0x1_0000);
    Times256(0x100_0000);
    Times256(0x1_0000_0000);
    Times256(0x100_0000_0000);
    Times256(0x1_0000_0000_0000);
    Times256(0x100_0000_0000_0000);
  }

  lemma {:induction false} Times256(a: nat)
    requires PowerOfTwo(a)
    ensures PowerOfTwo(256 * a)
  {
    hide PowerOfTwo;
    Twice(a);
    Twice(2 * a);
    Twice(4 * a);
    Twice(8 * a);
    Twice(16 * a);
    Twice(32 * a);
    Twice(64 * a);
    Twice(128 * a);
  }

  lemma {:induction false} PositivePower(a: nat)
    requires PowerOfTwo(a)
    ensures a > 0
  {
  }

  lemma {:induction false} Twice(a: nat)
    requires PowerOfTwo(a)
    ensures PowerOfTwo(2 * a)
  {
  }

  lemma {:induction false} DivUnique(x: nat, q: nat, r: nat, a: nat)
    requires a > r && x == q * a + r
    ensures x / a == q
  {
    ModUnique(x, q, r, a);
    var k := q - x / a;
    assert x == x / a * a + r;
    assert k * a == q * a - x / a * a == 0;
  }

  /** A multiple below a multiple leaves room for one more. */
  lemma {:induction false} NextMultiple(q: nat, s: nat, a: nat)
    requires q * a < s * a
    ensures (q + 1) * a == q * a + a <= s * a
  {
    TimesMonotone(s, q, a);
    TimesMonotone(q + 1, s, a);
  }

  lemma {:induction false} TimesMonotone(x: nat, y: nat, a: nat)
    ensures x <= y ==> x * a <= y * a
  {
    if x <= y {
      var d: nat := y - x;
      assert y * a == x * a + d * a;
    }
  }

  /** The gap is right even where the sum of line 28 wraps, since 2^64 is a multiple of every
      alignment. */
  lemma {:induction false} MaskGivesGap(p: nat, a: nat)
    requires PowerOfTwo(a) && a < SIZE_T && p < SIZE_T
    ensures MaskedGap(p, a) == AlignRightDiff(p, a)
  {
    hide PowerOfTwo, MaskedGap, AlignRightDiff;
    RangeIsPowerOfTwo();
    PowersDivide(a, SIZE_T);
    PositivePower(a);
    MaskGivesGapHere(p, a, p / a, p % a, SIZE_T / a);
  }

  lemma {:induction false} MaskGivesGapHere(p: nat, a: nat, q: nat, m: nat, s: nat)
    requires a > m && p == q * a + m < SIZE_T == s * a && m == p % a
    ensures MaskedGap(p, a) == AlignRightDiff(p, a)
  {
    hide MaskedGap;
    var n := p + a - 1;
    var x, y := q * a, (q + 1) * a;
    NextMultiple(q, s, a);
    if m == 0 {
      Masked(p, a, q, x, a - 1);
    } else if y < SIZE_T {
      NextMultiple(q + 1, s, a);
      Masked(p, a, q + 1, y, m - 1);
    } else {
      assert n == SIZE_T + (m - 1);
      Masked(p, a, 0, 0, m - 1);
    }
  }

  lemma {:induction false} Masked(p: nat, a: nat, k: nat, x: nat, r: nat)
    requires a > r && x == k * a && (p + a - 1) % SIZE_T == x + r
    ensures MaskedGap(p, a) == (x - p) % SIZE_T
  {
    DivUnique(x + r, k, r, a);
  }

  lemma {:induction false} SmallOrMultipleOf16(a: nat)
    requires PowerOfTwo(a)
    ensures a in {1, 2, 4, 8} || (a >= 16 && a % 16 == 0)
  {
    hide PowerOfTwo;
    var b := Half(a);
    var c := Half(b);
    var d := Half(c);
    var e := Half(d);
    if a > 8 {
      assert a == 2 * b && b == 2 * c && c == 2 * d && d == 2 * e;
      SixteenTimes(e);
    }
  }

  lemma {:induction false} SixteenTimes(e: nat)
    ensures 16 * e % 16 == 0
  {
  }

  lemma {:induction false} Half(a: nat) returns (b: nat)
    requires PowerOfTwo(a)
    ensures PowerOfTwo(b) && b >= 1 && ((a == 1 && b == 1) || a == 2 * b)
  {
    b := if a == 1 then 1 else a / 2;
  }

  lemma {:induction false} RemainderIsWholeBlocks(p: nat, m: nat)
    requires p % 16 == 0 && m > 0
    ensures p % (16 * m) % 16 == 0
  {
    var a := 16 * m;
    var q := p / a;
    assert q * a == 16 * (q * m);
    assert p == q * a + p % a;
    var k := p / 16;
    assert p == 16 * k;
    assert p % a == 16 * (k - q * m);
  }

  lemma {:induction false} SmallPowersDivide(p: nat, a: nat)
    requires p % 16 == 0 && a in {1, 2, 4, 8}
    ensures p % a == 0
  {
    var k := p / 16;
    assert p == 16 * k;
    EvenParts(k);
  }

  lemma {:induction false} EvenParts(k: nat)
    ensures var p := 16 * k; p % 1 == 0 && p % 2 == 0 && p % 4 == 0 && p % 8 == 0
  {
    assert 16 * k == 8 * (2 * k) == 4 * (4 * k) == 2 * (8 * k);
  }

  /** Since blocks are 16-aligned, the alignment gap is a whole number of blocks, so the data
      of an aligned chunk starts right behind its header. */
  lemma {:induction false} AlignDiffIsWholeBlocks(base: nat, idx: nat, alignment: nat)
    requires base % BLOCK_SIZE == 0 && PowerOfTwo(alignment)
    ensures AlignRightDiff(DataAddr(base, idx), alignment) % BLOCK_SIZE == 0
  {
    SmallOrMultipleOf16(alignment);
    var p := DataAddr(base, idx);
    assert p % 16 == 0;
    if alignment < 16 {
      SmallPowersDivide(p, alignment);
    } else {
      RemainderIsWholeBlocks(p, alignment / 16);
      GapOfRemainder(alignment, p % alignment);
    }
  }

  lemma {:induction false} GapOfRemainder(a: nat, m: nat)
    requires a % 16 == 0 && m % 16 == 0 && m <= a
    ensures (a - m) % 16 == 0
  {
  }

  /** With no wrap-around, what `allocate` computes: the gap, in blocks, plus the request. */
  lemma {:induction false} BlocksNeededSplits(base: nat, blocks: nat, idx: nat, size: nat, alignment: nat)
    requires base % BLOCK_SIZE == 0 && idx < blocks && Request(base, blocks, size, alignment)
    ensures var d := AlignRightDiff(DataAddr(base, idx), alignment);
            BlocksNeeded(size, d) == d / BLOCK_SIZE + RequestBlocks(size)
  {
    AlignDiffIsWholeBlocks(base, idx, alignment);
    assert Countable(base, idx, size, alignment);
    WholeBlocksAdd(size, AlignRightDiff(DataAddr(base, idx), alignment));
  }

  lemma {:induction false} WholeBlocksAdd(size: nat, d: nat)
    requires d % BLOCK_SIZE == 0 && BLOCK_SIZE + size + d < SIZE_T
    ensures BlocksNeeded(size, d) == d / BLOCK_SIZE + RequestBlocks(size)
  {
    var n := BLOCK_SIZE + size + d;
    assert n % SIZE_T == n;
    assert n / 16 == 1 + d / 16 + size / 16;
    assert n % 16 == size % 16;
  }
}
