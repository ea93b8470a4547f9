/** The buffered byte stream of the ChaCha20 generator. */
module RandomStream {
  type Word = bv32

  const STATE_WORDS: nat := 16
  const BLOCK_BYTES: nat := 64

  /** Sixteen words. */
  type Words = s: seq<Word> | |s| == STATE_WORDS witness seq(STATE_WORDS, _ => 0)

  function Plus(x: Word, y: Word): Word {
    x + y
  }

  function Xor(x: Word, y: Word): Word {
    x ^ y
  }

  function Rotate(x: Word, left: nat): Word
    requires left <= 32
  {
    (x << left) | (x >> (32 - left))
  }

  function QuarterRound(s: Words, a: nat, b: nat, c: nat, d: nat): Words
    requires a < STATE_WORDS && b < STATE_WORDS && c < STATE_WORDS && d < STATE_WORDS
  {
    var s := s[a := Plus(s[a], s[b])];
    var s := s[d := Rotate(Xor(s[d], s[a]), 16)];
    var s := s[c := Plus(s[c], s[d])];
    var s := s[b := Rotate(Xor(s[b], s[c]), 12)];
    var s := s[a := Plus(s[a], s[b])];
    var s := s[d := Rotate(Xor(s[d], s[a]), 8)];
    var s := s[c := Plus(s[c], s[d])];
    s[b := Rotate(Xor(s[b], s[c]), 7)]
  }

  function DoubleRound(s: Words): Words {
    var s := QuarterRound(s, 0, 4, 8, 12);
    var s := QuarterRound(s, 1, 5, 9, 13);
    var s := QuarterRound(s, 2, 6, 10, 14);
    var s := QuarterRound(s, 3, 7, 11, 15);
    var s := QuarterRound(s, 0, 5, 10, 15);
    var s := QuarterRound(s, 1, 6, 11, 12);
    var s := QuarterRound(s, 2, 7, 8, 13);
    QuarterRound(s, 3, 4, 9, 14)
  }

  function Rounds(s: Words, n: nat): Words {
    if n == 0 then s else DoubleRound(Rounds(s, n - 1))
  }

  function AddWords(a: Words, b: Words): (r: Words)
    ensures forall i :: 0 <= i < STATE_WORDS ==> r[i] == Plus(a[i], b[i])
  {
    hide Plus;
    seq(STATE_WORDS, i requires 0 <= i < STATE_WORDS => Plus(a[i], b[i]))
  }

  /** The block becomes the next state, with its counter words advanced. */
  function Advance(block: Words): Words {
    var s := block[12 := Plus(block[12], 1)];
    if s[12] == 0 then s[13 := Plus(s[13], 1)] else s
  }

  /** The low counter word counts up, the high one exactly when the low one wraps, and no
      other word changes. */
  lemma {:induction false} AdvanceCarries(block: Words)
    ensures Advance(block)[12] == Plus(block[12], 1)
    ensures Advance(block)[13] == if block[12] == 0xFFFF_FFFF then Plus(block[13], 1) else block[13]
    ensures forall i :: 0 <= i < STATE_WORDS && i != 12 && i != 13 ==> Advance(block)[i] == block[i]
  {
    assert Plus(block[12], 1) == 0 <==> block[12] == 0xFFFF_FFFF;
  }

  function BlockOf(state: Words): Words {
    AddWords(Rounds(state, 10), state)
  }

  /** Octet `k` of the block: words are stored least significant octet first. */
  function OctetOf(block: Words, k: nat): Word
    requires k < BLOCK_BYTES
  {
    WordOctet(block[k / 4], k % 4)
  }

  function WordOctet(w: Word, j: nat): Word
    requires j < 4
  {
    if j == 0 then w & 0xFF
    else if j == 1 then (w >> 8) & 0xFF
    else if j == 2 then (w >> 16) & 0xFF
    else (w >> 24) & 0xFF
  }

  /** The generator: state, current block, and how much of the block has been given out. */
  datatype Generator = Generator(state: Words, block: Words, pos: nat)

  predicate Ok(g: Generator) {
    g.pos <= BLOCK_BYTES
  }

  function Refill(g: Generator): Generator {
    var block := BlockOf(g.state);
    Generator(Advance(block), block, 0)
  }

  /** A refill computes the block of the state; the block is the next state, but for its counter. */
  lemma {:induction false} RefillFeedsBack(g: Generator)
    ensures var r := Refill(g);
            && r.pos == 0 && r.block == BlockOf(g.state)
            && r.state[12] == Plus(r.block[12], 1)
            && r.state[13] == (if r.block[12] == 0xFFFF_FFFF then Plus(r.block[13], 1) else r.block[13])
            && forall i :: 0 <= i < 16 && i != 12 && i != 13 ==> r.state[i] == r.block[i]
  {
    hide BlockOf, Advance;
    AdvanceCarries(BlockOf(g.state));
  }

  function Ready(g: Generator): (r: Generator)
    requires Ok(g)
    ensures r.pos < BLOCK_BYTES
  {
    if g.pos == BLOCK_BYTES then Refill(g) else g
  }

  /** "expand 32-byte k", the seed, the block counter and the nonce. */
  function InitialWords(seed: seq<Word>, nonce: seq<Word>, counter: Word): Words
    requires |seed| == 8 && |nonce| == 3
  {
    [0x61707865, 0x3320646e, 0x79622d32, 0x6b206574] + seed + [counter] + nonce
  }

  /** The quarter round gives the values of the test vector in section 2.1.1 of RFC 7539. */
  lemma {:induction false} QuarterRoundMeetsTestVector(s: Words)
    requires s[0] == 0x11111111 && s[1] == 0x01020304 && s[2] == 0x9b8d6f43 && s[3] == 0x01234567
    ensures var r := QuarterRound(s, 0, 1, 2, 3);
            && r[0] == 0xea2a92f4 && r[1] == 0xcb1cf8ce && r[2] == 0x4581472e && r[3] == 0x5881c4bb
            && r[4..] == s[4..]
  {
    assert Rotate(Xor(0x01234567, 0x12131415), 16) == 0x51721330;
  }

  // ---------------------------------------------------------------- one octet at a time

  /** The next `n` octets, fetched singly, and the generator behind them. */
  function Stream(g: Generator, n: nat): (r: (seq<Word>, Generator))
    requires Ok(g)
    ensures |r.0| == n && Ok(r.1)
  {
    if n == 0 then ([], g)
    else
      var (before, h) := Stream(g, n - 1);
      var k := Ready(h);
      (before + [OctetOf(k.block, k.pos)], k.(pos := k.pos + 1))
  }

  /** The stream has no seams: `m` octets and then `n` more are `m + n` octets. */
  lemma {:induction false} StreamSplits(g: Generator, m: nat, n: nat)
    requires Ok(g)
    ensures Stream(g, m + n) == (Stream(g, m).0 + Stream(Stream(g, m).1, n).0, Stream(Stream(g, m).1, n).1)
    decreases n
  {
    hide OctetOf, Ready;
    if n == 0 {
      assert Stream(g, m).0 + [] == Stream(g, m).0;
    } else {
      StreamSplits(g, m, n - 1);
      var h := Stream(g, m).1;
      var k := Ready(Stream(h, n - 1).1);
      var o := [OctetOf(k.block, k.pos)];
      assert Stream(g, m).0 + Stream(h, n - 1).0 + o == Stream(g, m).0 + (Stream(h, n - 1).0 + o);
    }
  }

  /** Within one block the stream is a piece of the block. */
  lemma {:induction false} StreamWithinBlock(g: Generator, n: nat)
    requires g.pos + n <= BLOCK_BYTES && (n > 0 ==> g.pos < BLOCK_BYTES)
    ensures Stream(g, n).1 == g.(pos := g.pos + n)
    ensures forall i :: 0 <= i < n ==> Stream(g, n).0[i] == OctetOf(g.block, g.pos + i)
    decreases n
  {
    hide OctetOf;
    if n > 0 {
      StreamWithinBlock(g, n - 1);
    }
  }

  /** Fetching from a used-up block is fetching from the refilled one. */
  lemma {:induction false} StreamRefills(g: Generator, n: nat)
    requires Ok(g) && n > 0
    ensures Stream(g, n) == Stream(Ready(g), n)
    decreases n
  {
    hide OctetOf, Refill;
    if n > 1 {
      StreamRefills(g, n - 1);
    } else {
      ReadyTwice(g);
    }
  }

  lemma {:induction false} ReadyTwice(g: Generator)
    requires Ok(g)
    ensures Ready(Ready(g)) == Ready(g)
  {
    hide BlockOf, Advance;
  }

  // ---------------------------------------------------------------- calls of any lengths

  function Total(lengths: seq<nat>): nat {
    if lengths == [] then 0 else lengths[0] + Total(lengths[1..])
  }

  /** What a sequence of calls delivers, end to end. */
  function Calls(g: Generator, lengths: seq<nat>): (r: (seq<Word>, Generator))
    requires Ok(g)
    ensures Ok(r.1)
    decreases |lengths|
  {
    if lengths == [] then ([], g)
    else
      var (first, h) := Stream(g, lengths[0]);
      var (rest, k) := Calls(h, lengths[1..]);
      (first + rest, k)
  }

  /** However the requests are cut, the octets and the final generator are those of one request
      of the total length. */
  lemma {:induction false} ChunkingIsInvisible(g: Generator, lengths: seq<nat>)
    requires Ok(g)
    ensures Calls(g, lengths) == Stream(g, Total(lengths))
    decreases |lengths|
  {
    hide Stream;
    StreamNothing(g);
    if lengths != [] {
      var h := Stream(g, lengths[0]).1;
      ChunkingIsInvisible(h, lengths[1..]);
      StreamSplits(g, lengths[0], Total(lengths[1..]));
    }
  }

  // ---------------------------------------------------------------- in place

  class ChaCha20RandomGenerator {
    const state: array<Word>
    const working: array<Word>
    var pos: nat

    ghost predicate Valid()
      reads this
    {
      state.Length == STATE_WORDS && working.Length == STATE_WORDS && state != working && pos <= BLOCK_BYTES
    }

    ghost function View(): Generator
      requires Valid()
      reads this, state, working
    {
      Generator(state[..], working[..], pos)
    }

    constructor (seed: seq<Word>, nonce: seq<Word>, counter: Word)
      requires |seed| == 8 && |nonce| == 3
      ensures Valid() && fresh(state) && fresh(working)
      ensures state[..] == InitialWords(seed, nonce, counter) && pos == BLOCK_BYTES
    {
      var words := InitialWords(seed, nonce, counter);
      state := new Word[STATE_WORDS](i requires 0 <= i < STATE_WORDS => words[i]);
      working := new Word[STATE_WORDS](_ => 0);
      pos := BLOCK_BYTES;
    }

    method QuarterRoundAt(a: nat, b: nat, c: nat, d: nat)
      requires Valid() && a < STATE_WORDS && b < STATE_WORDS && c < STATE_WORDS && d < STATE_WORDS
      modifies working
      ensures working[..] == QuarterRound(old(working[..]), a, b, c, d)
    {
      hide Rotate, Plus, Xor;
      var s := working;
      s[a] := Plus(s[a], s[b]);
      s[d] := Rotate(Xor(s[d], s[a]), 16);
      s[c] := Plus(s[c], s[d]);
      s[b] := Rotate(Xor(s[b], s[c]), 12);
      s[a] := Plus(s[a], s[b]);
      s[d] := Rotate(Xor(s[d], s[a]), 8);
      s[c] := Plus(s[c], s[d]);
      s[b] := Rotate(Xor(s[b], s[c]), 7);
    }

    method RefillState()
      requires Valid()
      modifies this, state, working
      ensures Valid() && View() == Refill(old(View())) && pos == 0
    {
      hide QuarterRound, Plus, AddWords;
      ghost var start: Words := state[..];
      for i := 0 to STATE_WORDS
        invariant Valid() && state[..] == start
        invariant forall k :: 0 <= k < i ==> working[k] == start[k]
      {
        working[i] := state[i];
      }
      assert working[..] == start;
      for i := 0 to 10
        invariant Valid() && state[..] == start && working[..] == Rounds(start, i)
      {
        QuarterRoundAt(0, 4, 8, 12);
        QuarterRoundAt(1, 5, 9, 13);
        QuarterRoundAt(2, 6, 10, 14);
        QuarterRoundAt(3, 7, 11, 15);
        QuarterRoundAt(0, 5, 10, 15);
        QuarterRoundAt(1, 6, 11, 12);
        QuarterRoundAt(2, 7, 8, 13);
        QuarterRoundAt(3, 4, 9, 14);
      }
      AddState(start, working[..]);
      state[12] := Plus(state[12], 1);
      if state[12] == 0 {
        state[13] := Plus(state[13], 1);
      }
      pos := 0;
    }

    method AddState(ghost start: Words, ghost mixed: Words)
      requires Valid() && state[..] == start && working[..] == mixed
      modifies state, working
      ensures working[..] == AddWords(mixed, start) && state[..] == working[..]
    {
      hide Plus;
      for i := 0 to STATE_WORDS
        invariant forall k :: 0 <= k < i ==> working[k] == Plus(mixed[k], start[k]) && state[k] == working[k]
        invariant forall k :: i <= k < STATE_WORDS ==> working[k] == mixed[k] && state[k] == start[k]
      {
        working[i] := Plus(working[i], state[i]);
        state[i] := working[i];
      }
      assert working[..] == AddWords(mixed, start);
      assert state[..] == working[..];
    }

    /** Copies out of the block what it still has, as often as needed. */
    method GenerateBytes(len: nat) returns (out: seq<Word>)
      requires Valid()
      modifies this, state, working
      ensures Valid() && (out, View()) == Stream(old(View()), len)
    {
      hide Stream, OctetOf, Refill;
      out := [];
      var left: nat := len;
      ghost var start := View();
      StreamNothing(start);
      while left > 0
        invariant Valid() && left <= len && (out, View()) == Stream(start, len - left)
        decreases left
      {
        ghost var here := View();
        assert here.pos <= BLOCK_BYTES;
        if pos == BLOCK_BYTES {
          RefillState();
        }
        var toCopy := if left < BLOCK_BYTES - pos then left else BLOCK_BYTES - pos;
        ghost var g := View();
        StreamRefills(here, toCopy);
        StreamWithinBlock(g, toCopy);
        StreamSplits(start, len - left, toCopy);
        var piece := CopyBlock(toCopy);
        assert piece == Stream(g, toCopy).0;
        out := out + piece;
        left := left - toCopy;
        pos := pos + toCopy;
      }
    }

    method CopyBlock(n: nat) returns (piece: seq<Word>)
      requires Valid() && pos + n <= BLOCK_BYTES
      ensures |piece| == n && forall i :: 0 <= i < n ==> piece[i] == OctetOf(working[..], pos + i)
    {
      piece := [];
      for i := 0 to n
        invariant |piece| == i && forall k :: 0 <= k < i ==> piece[k] == OctetOf(working[..], pos + k)
      {
        piece := piece + [OctetOf(working[..], pos + i)];
      }
    }
  }

  lemma {:induction false} StreamNothing(g: Generator)
    requires Ok(g)
    ensures Stream(g, 0) == ([], g)
  {
  }
}
