/** When a call of `parse_domain_name` stops. The state after `k` steps of a call is
    `ParseFrom(msg, Start(start, end), k)`, so everything here speaks of the positions the call
    reaches and of nothing else in the message. */
module DnsTermination {
  import opened Basics
  import opened DnsParser

  ghost predicate Stops(msg: Octets, c: Cursor)
    requires InMessage(msg, c)
  {
    exists fuel :: !ParseFrom(msg, c, fuel).Running?
  }

  lemma {:induction false} RunOn(msg: Octets, c: Cursor, a: nat, b: nat)
    requires InMessage(msg, c) && ParseFrom(msg, c, a).Running?
    ensures ParseFrom(msg, c, a + b) == ParseFrom(msg, ParseFrom(msg, c, a).cursor, b)
    decreases a
  {
    hide ParseStep;
    if a > 0 {
      RunOn(msg, ParseStep(msg, c).cursor, a - 1, b);
    }
  }

  /** Not stopping from a reached state is not stopping at all. */
  lemma {:induction false} StopsLater(msg: Octets, c: Cursor, k: nat)
    requires InMessage(msg, c) && ParseFrom(msg, c, k).Running?
    ensures Stops(msg, c) <==> Stops(msg, ParseFrom(msg, c, k).cursor)
  {
    hide ParseFrom;
    var d := ParseFrom(msg, c, k).cursor;
    if fuel: nat :| !ParseFrom(msg, c, fuel).Running? {
      if fuel <= k {
        MoreFuel(msg, c, fuel, k);
      }
      RunOn(msg, c, k, fuel - k);
    }
    if fuel: nat :| !ParseFrom(msg, d, fuel).Running? {
      RunOn(msg, c, k, fuel);
    }
  }

  // ---------------------------------------------------------------- without pointer cycles

  /** A pointer met after `k` steps leads to a smaller rank. */
  ghost predicate DescendsAt(msg: Octets, c: Cursor, rank: nat -> nat, k: nat)
    requires InMessage(msg, c)
  {
    match ParseFrom(msg, c, k)
    case Running(d) =>
      (match DecodeCompressionPtr(msg, d.pos, d.end)
       case Some(t) => t < |msg| ==> rank(t) < rank(d.pos)
       case None => true)
    case _ => true
  }

  ghost predicate Descends(msg: Octets, c: Cursor, rank: nat -> nat)
    requires InMessage(msg, c)
  {
    forall k: nat :: DescendsAt(msg, c, rank, k)
  }

  /** The pointers met form no cycle. */
  ghost predicate Acyclic(msg: Octets, c: Cursor)
    requires InMessage(msg, c)
  {
    exists rank :: Descends(msg, c, rank)
  }

  predicate Settled(r: Outcome) {
    !r.Running? && r != Failed(CompressionPtrInfiniteLoop)
  }

  lemma {:induction false} DescendsOn(msg: Octets, c: Cursor, rank: nat -> nat)
    requires InMessage(msg, c) && Descends(msg, c, rank) && ParseStep(msg, c).Running?
    ensures Descends(msg, ParseStep(msg, c).cursor, rank)
  {
    hide ParseStep;
    var d := ParseStep(msg, c).cursor;
    forall k: nat ensures DescendsAt(msg, d, rank, k) {
      assert DescendsAt(msg, c, rank, k + 1);
    }
  }

  /** Each label uses up some of the 255 octets, each pointer lowers the rank; and the rank of
      what the loop check remembers cannot come back. */
  lemma {:induction false} Terminates(msg: Octets, c: Cursor, rank: nat -> nat) returns (fuel: nat)
    requires InMessage(msg, c) && c.total <= FQDN_MAX_OCTET_LEN && Descends(msg, c, rank)
    requires c.first.Some? ==> rank(c.pos) <= rank(c.first.value)
    ensures Settled(ParseFrom(msg, c, fuel))
    decreases FQDN_MAX_OCTET_LEN - c.total, rank(c.pos)
  {
    hide Descends;
    DescendsNow(msg, c, rank);
    match ParseStep(msg, c)
    case Running(d) =>
      DescendsOn(msg, c, rank);
      var f := Terminates(msg, d, rank);
      fuel := f + 1;
    case _ =>
      fuel := 1;
  }

  lemma {:induction false} DescendsNow(msg: Octets, c: Cursor, rank: nat -> nat)
    requires InMessage(msg, c) && Descends(msg, c, rank)
    ensures match DecodeCompressionPtr(msg, c.pos, c.end)
            case Some(t) => t < |msg| ==> rank(t) < rank(c.pos)
            case None => true
  {
    assert DescendsAt(msg, c, rank, 0);
  }

  /** A pointer met after `k` steps leads strictly backward. */
  ghost predicate BackwardAt(msg: Octets, c: Cursor, k: nat)
    requires InMessage(msg, c)
  {
    match ParseFrom(msg, c, k)
    case Running(d) =>
      (match DecodeCompressionPtr(msg, d.pos, d.end)
       case Some(t) => t < d.pos
       case None => true)
    case _ => true
  }

  /** If every pointer the call meets leads to a prior place, as section 4.1.4 of RFC 1035 has
      it, the call stops, and not by its loop check. */
  lemma {:induction false} BackwardTerminates(msg: Octets, start: nat, end: nat)
    requires start <= end <= |msg| && forall k: nat :: BackwardAt(msg, Start(start, end), k)
    ensures exists fuel :: Settled(ParseFrom(msg, Start(start, end), fuel))
  {
    var c := Start(start, end);
    var rank := (o: nat) => o;
    forall k: nat ensures DescendsAt(msg, c, rank, k) {
      assert BackwardAt(msg, c, k);
    }
    var fuel := Terminates(msg, c, rank);
  }

  /** How many pointers lead on from `pos`, counting to `fuel`. */
  ghost function Hops(msg: Octets, pos: nat, fuel: nat): nat
    decreases fuel
  {
    if fuel == 0 || pos > |msg| then 0
    else
      match DecodeCompressionPtr(msg, pos, |msg|)
      case Some(t) => if t < |msg| then 1 + Hops(msg, t, fuel - 1) else 0
      case None => 0
  }

  /** A chain the parser comes to the end of has no more pointers. */
  lemma {:induction false} HopsEnd(msg: Octets, c: Cursor, fuel: nat)
    requires InMessage(msg, c) && c.end == |msg| && Settled(ParseFrom(msg, c, fuel))
    ensures Hops(msg, c.pos, fuel + 1) == Hops(msg, c.pos, fuel)
    decreases fuel
  {
    match DecodeCompressionPtr(msg, c.pos, |msg|)
    case Some(t) =>
      if t < |msg| {
        HopsEnd(msg, ParseStep(msg, c).cursor, fuel - 1);
      }
    case None =>
  }

  lemma {:induction false} HopsDescend(msg: Octets, d: Cursor, fuel: nat)
    requires InMessage(msg, d) && Settled(ParseFrom(msg, d, fuel))
    ensures match DecodeCompressionPtr(msg, d.pos, d.end)
            case Some(t) => t < |msg| ==> Hops(msg, t, fuel) < Hops(msg, d.pos, fuel)
            case None => true
  {
    match DecodeCompressionPtr(msg, d.pos, d.end)
    case Some(t) =>
      if t < |msg| {
        assert DecodeCompressionPtr(msg, d.pos, |msg|) == Some(t);
        HopsEnd(msg, ParseStep(msg, d).cursor, fuel - 1);
      }
    case None =>
  }

  /** A call comes to an answer of its own, and not to a report by its loop check, if and only
      if the pointers it meets form no cycle. */
  lemma {:induction false} SettlesIffAcyclic(msg: Octets, start: nat, end: nat)
    requires start <= end <= |msg|
    ensures (exists fuel :: Settled(ParseFrom(msg, Start(start, end), fuel))) <==> Acyclic(msg, Start(start, end))
  {
    hide ParseFrom, Descends;
    var c := Start(start, end);
    if rank :| Descends(msg, c, rank) {
      var fuel := Terminates(msg, c, rank);
    }
    if fuel :| Settled(ParseFrom(msg, c, fuel)) {
      SettledDescends(msg, c, fuel);
    }
  }

  lemma {:induction false} SettledDescends(msg: Octets, c: Cursor, fuel: nat)
    requires InMessage(msg, c) && Settled(ParseFrom(msg, c, fuel))
    ensures Acyclic(msg, c)
  {
    hide ParseFrom;
    var rank := (o: nat) => Hops(msg, o, fuel);
    forall k: nat ensures DescendsAt(msg, c, rank, k) {
      if ParseFrom(msg, c, k).Running? {
        MoreFuel(msg, c, fuel, k + fuel);
        RunOn(msg, c, k, fuel);
        HopsDescend(msg, ParseFrom(msg, c, k).cursor, fuel);
      }
    }
    assert Descends(msg, c, rank);
  }

  // ---------------------------------------------------------------- on an endless chain

  /** `chain(n)` is where the parser stands after `n` more pointers. */
  ghost predicate LinkAt(msg: Octets, chain: nat -> nat, n: nat) {
    chain(n) < |msg| && DecodeCompressionPtr(msg, chain(n), |msg|) == Some(chain(n + 1))
  }

  /** The cursor stands on a pointer from which pointers lead on for ever. */
  ghost predicate OnChain(msg: Octets, d: Cursor, chain: nat -> nat) {
    && InMessage(msg, d)
    && DecodeCompressionPtr(msg, d.pos, d.end) == Some(chain(0))
    && forall n: nat :: LinkAt(msg, chain, n)
  }

  /** What the loop check remembers while the chain is followed: the first target if no pointer
      was followed before, and otherwise what it remembers already. */
  function Remembered(d: Cursor, target: nat): Option<nat> {
    if d.jumped then d.first else Some(target)
  }

  /** The loop check reports the `n`-th target of the chain. */
  predicate CaughtAt(d: Cursor, chain: nat -> nat, n: nat) {
    if n == 0 then d.first == Some(chain(0)) else Remembered(d, chain(0)) == Some(chain(n))
  }

  function InChain(msg: Octets, d: Cursor, chain: nat -> nat, n: nat): Cursor {
    d.(pos := chain(n), end := |msg|, jumped := true, first := Remembered(d, chain(0)),
       consumed := if d.jumped then d.consumed else (d.consumed + 2) % 256)
  }

  lemma {:induction false} ChainStarts(msg: Octets, d: Cursor, chain: nat -> nat)
    requires OnChain(msg, d, chain)
    ensures ParseStep(msg, d) == if CaughtAt(d, chain, 0) then Failed(CompressionPtrInfiniteLoop)
                                 else Running(InChain(msg, d, chain, 0))
  {
    assert LinkAt(msg, chain, 0);
  }

  lemma {:induction false} ChainStep(msg: Octets, d: Cursor, chain: nat -> nat, n: nat)
    requires OnChain(msg, d, chain)
    ensures chain(n) < |msg|
    ensures ParseStep(msg, InChain(msg, d, chain, n)) ==
            if CaughtAt(d, chain, n + 1) then Failed(CompressionPtrInfiniteLoop)
            else Running(InChain(msg, d, chain, n + 1))
  {
    assert LinkAt(msg, chain, n) && LinkAt(msg, chain, n + 1);
  }

  lemma {:induction false} ChainRuns(msg: Octets, d: Cursor, chain: nat -> nat, n: nat, fuel: nat)
    requires OnChain(msg, d, chain) && chain(n) < |msg|
    ensures var r := ParseFrom(msg, InChain(msg, d, chain, n), fuel);
            if exists m :: n < m <= n + fuel && CaughtAt(d, chain, m) then r == Failed(CompressionPtrInfiniteLoop)
            else r.Running?
    decreases fuel
  {
    hide ParseStep, OnChain, CaughtAt;
    if fuel > 0 {
      ChainStep(msg, d, chain, n);
      if !CaughtAt(d, chain, n + 1) {
        ChainStep(msg, d, chain, n + 1);
        ChainRuns(msg, d, chain, n + 1, fuel - 1);
      }
    }
  }

  /** On an endless chain the parser goes on for ever if and only if the loop check reports none
      of its targets; otherwise the check's report is the answer. */
  lemma {:induction false} EndlessChainIsFollowedIff(msg: Octets, d: Cursor, chain: nat -> nat)
    requires OnChain(msg, d, chain)
    ensures !Stops(msg, d) <==> forall n: nat :: !CaughtAt(d, chain, n)
    ensures forall fuel: nat :: var r := ParseFrom(msg, d, fuel);
              r.Running? || r == Failed(CompressionPtrInfiniteLoop)
  {
    hide ParseStep, CaughtAt;
    ChainStarts(msg, d, chain);
    ChainStep(msg, d, chain, 0);
    forall fuel: nat
      ensures ParseFrom(msg, d, fuel) == Failed(CompressionPtrInfiniteLoop) || ParseFrom(msg, d, fuel).Running?
      ensures (exists n: nat :: n < fuel && CaughtAt(d, chain, n)) <==> !ParseFrom(msg, d, fuel).Running?
    {
      if fuel > 0 && !CaughtAt(d, chain, 0) {
        ChainRuns(msg, d, chain, 0, fuel - 1);
      }
    }
    if n: nat :| CaughtAt(d, chain, n) {
      assert !ParseFrom(msg, d, n + 1).Running?;
    }
  }

  /** A call that starts on such a chain: it goes on for ever if and only if the chain never
      comes back to its first target. */
  lemma {:induction false} CallOnChainIsFollowedIff(msg: Octets, start: nat, end: nat, chain: nat -> nat)
    requires OnChain(msg, Start(start, end), chain)
    ensures !Stops(msg, Start(start, end)) <==> forall n: nat :: n > 0 ==> chain(n) != chain(0)
  {
    var c := Start(start, end);
    EndlessChainIsFollowedIff(msg, c, chain);
    assert forall n: nat :: CaughtAt(c, chain, n) <==> n > 0 && chain(n) == chain(0);
  }

  /** Such a message: a pointer to a pointer to a pointer to itself. */
  lemma {:induction false} SomeMessageDiverges()
    ensures !Stops([0xC0, 2, 0xC0, 4, 0xC0, 4], Start(0, 6))
  {
    var msg: Octets := [0xC0, 2, 0xC0, 4, 0xC0, 4];
    var chain := (n: nat) => if n == 0 then 2 else 4;
    assert forall n: nat :: LinkAt(msg, chain, n);
    CallOnChainIsFollowedIff(msg, 0, 6, chain);
  }

  // ---------------------------------------------------------------- exactly when a call goes on for ever

  /** After `k` steps the parser stands on an endless chain that the loop check does not end. */
  ghost predicate TrappedAt(msg: Octets, c: Cursor, k: nat, chain: nat -> nat)
    requires InMessage(msg, c)
  {
    && ParseFrom(msg, c, k).Running?
    && OnChain(msg, ParseFrom(msg, c, k).cursor, chain)
    && forall n: nat :: !CaughtAt(ParseFrom(msg, c, k).cursor, chain, n)
  }

  /** The cursor after `n` steps of a run that does not stop. */
  ghost function After(msg: Octets, c: Cursor, n: nat): (d: Cursor)
    requires InMessage(msg, c) && !Stops(msg, c)
    ensures InMessage(msg, d) && ParseFrom(msg, c, n) == Running(d)
  {
    assert ParseFrom(msg, c, n).Running?;
    ParseFrom(msg, c, n).cursor
  }

  lemma {:induction false} AfterStep(msg: Octets, c: Cursor, n: nat)
    requires InMessage(msg, c) && !Stops(msg, c)
    ensures After(msg, c, 0) == c
    ensures ParseStep(msg, After(msg, c, n)) == Running(After(msg, c, n + 1))
    ensures After(msg, c, n + 1).total >= After(msg, c, n).total
    ensures After(msg, c, n + 1).total <= FQDN_MAX_OCTET_LEN || After(msg, c, n + 1).total == After(msg, c, n).total
  {
    hide ParseStep;
    var d := After(msg, c, n);
    RunOn(msg, c, n, 1);
    assert ParseFrom(msg, d, 1) == Running(After(msg, c, n + 1));
    assert ParseStep(msg, d).Running? ==> ParseFrom(msg, d, 1) == ParseFrom(msg, ParseStep(msg, d).cursor, 0);
    StepKinds(msg, d);
  }

  /** If the length of the name does not grow any more, only pointers are followed. */
  lemma {:induction false} OnlyPointers(msg: Octets, c: Cursor, chain: nat -> nat, n: nat)
    requires InMessage(msg, c) && !Stops(msg, c) && forall k: nat :: After(msg, c, k).total == c.total
    requires forall k: nat :: chain(k) == After(msg, c, k + 1).pos
    ensures After(msg, c, n + 1) == InChain(msg, c, chain, n)
    ensures DecodeCompressionPtr(msg, c.pos, c.end) == Some(chain(0))
    ensures !CaughtAt(c, chain, n)
    ensures chain(n) < |msg|
    decreases n
  {
    hide Stops;
    PointerOnly(msg, c, n);
    if n > 0 {
      OnlyPointers(msg, c, chain, n - 1);
    } else {
      AfterStep(msg, c, 0);
    }
  }

  lemma {:induction false} PointerOnly(msg: Octets, c: Cursor, n: nat)
    requires InMessage(msg, c) && !Stops(msg, c) && After(msg, c, n + 1).total == After(msg, c, n).total
    ensures var d, e := After(msg, c, n), After(msg, c, n + 1);
            && DecodeCompressionPtr(msg, d.pos, d.end) == Some(e.pos) && e.pos < |msg| && d.first != Some(e.pos)
            && e == d.(pos := e.pos, end := |msg|, jumped := true, first := Remembered(d, e.pos),
                       consumed := if d.jumped then d.consumed else (d.consumed + 2) % 256)
  {
    hide Stops;
    AfterStep(msg, c, n);
    StepKinds(msg, After(msg, c, n));
  }

  lemma {:induction false} TailIsChain(msg: Octets, c: Cursor)
    requires InMessage(msg, c) && !Stops(msg, c) && forall k: nat :: After(msg, c, k).total == c.total
    ensures exists chain :: TrappedAt(msg, c, 0, chain)
  {
    hide Stops, CaughtAt;
    var chain := (k: nat) => After(msg, c, k + 1).pos;
    forall n: nat ensures LinkAt(msg, chain, n) && !CaughtAt(c, chain, n) {
      OnlyPointers(msg, c, chain, n);
      OnlyPointers(msg, c, chain, n + 1);
      PointerOnly(msg, c, n + 1);
    }
    OnlyPointers(msg, c, chain, 0);
    assert TrappedAt(msg, c, 0, chain);
  }

  /** A run that does not stop comes to an endless chain: at most 255 octets of labels can be
      taken before. */
  lemma {:induction false} EndlessRunIsTrapped(msg: Octets, c: Cursor)
    requires InMessage(msg, c) && c.total <= FQDN_MAX_OCTET_LEN && !Stops(msg, c)
    ensures exists k, chain :: TrappedAt(msg, c, k, chain)
    decreases FQDN_MAX_OCTET_LEN - c.total
  {
    hide Stops, TrappedAt;
    if n: nat :| After(msg, c, n).total != c.total {
      TotalGrows(msg, c, n);
      var d := After(msg, c, n);
      StopsLater(msg, c, n);
      EndlessRunIsTrapped(msg, d);
      var k, chain :| TrappedAt(msg, d, k, chain);
      TrappedLater(msg, c, n, k, chain);
    } else {
      TailIsChain(msg, c);
    }
  }

  lemma {:induction false} TrappedLater(msg: Octets, c: Cursor, n: nat, k: nat, chain: nat -> nat)
    requires InMessage(msg, c) && ParseFrom(msg, c, n).Running?
    requires TrappedAt(msg, ParseFrom(msg, c, n).cursor, k, chain)
    ensures TrappedAt(msg, c, n + k, chain)
  {
    RunOn(msg, c, n, k);
  }

  lemma {:induction false} TotalGrows(msg: Octets, c: Cursor, n: nat)
    requires InMessage(msg, c) && c.total <= FQDN_MAX_OCTET_LEN && !Stops(msg, c)
    ensures c.total <= After(msg, c, n).total <= FQDN_MAX_OCTET_LEN
    decreases n
  {
    hide Stops;
    AfterStep(msg, c, 0);
    if n > 0 {
      TotalGrows(msg, c, n - 1);
      AfterStep(msg, c, n - 1);
    }
  }

  /** Exactly when a call goes on for ever: if and only if, after some labels and pointers, it
      stands on a pointer from which pointers lead on for ever, and none of their targets is
      what the loop check remembers there. */
  lemma {:induction false} GoesOnForeverIff(msg: Octets, start: nat, end: nat)
    requires start <= end <= |msg|
    ensures !Stops(msg, Start(start, end)) <==> exists k, chain :: TrappedAt(msg, Start(start, end), k, chain)
  {
    hide Stops, CaughtAt, OnChain;
    var c := Start(start, end);
    if !Stops(msg, c) {
      EndlessRunIsTrapped(msg, c);
    }
    if k, chain :| TrappedAt(msg, c, k, chain) {
      EndlessChainIsFollowedIff(msg, ParseFrom(msg, c, k).cursor, chain);
      StopsLater(msg, c, k);
    }
  }

  // ---------------------------------------------------------------- and how soon it stops

  /** More than `n` numbers below `n` are not all different. */
  lemma {:induction false} Pigeonhole(n: nat, f: nat -> nat, count: nat) returns (i: nat, j: nat)
    requires count > n && forall k: nat :: k < count ==> f(k) < n
    ensures i < j < count && f(i) == f(j)
    decreases n
  {
    var top := count - 1;
    if k: nat :| k < top && f(k) == f(top) {
      i, j := k, top;
    } else {
      // The largest number takes the place of the last one.
      assert n > 0 by { assert f(0) < n; }
      var g := (k: nat) => if f(k) == n - 1 then f(top) else f(k);
      i, j := Pigeonhole(n - 1, g, top);
    }
  }

  /** A state met twice is met for ever. */
  lemma {:induction false} RepeatIsEndless(msg: Octets, c: Cursor, period: nat, fuel: nat)
    requires InMessage(msg, c) && period > 0 && ParseFrom(msg, c, period) == Running(c)
    ensures ParseFrom(msg, c, fuel).Running?
    decreases fuel
  {
    hide ParseFrom;
    if fuel >= period {
      RunOn(msg, c, period, fuel - period);
      RepeatIsEndless(msg, c, period, fuel - period);
    } else if !ParseFrom(msg, c, fuel).Running? {
      MoreFuel(msg, c, fuel, period);
    }
  }

  lemma {:induction false} EarlierRuns(msg: Octets, c: Cursor, k: nat, n: nat)
    requires InMessage(msg, c) && k <= n && ParseFrom(msg, c, n).Running?
    ensures ParseFrom(msg, c, k).Running?
    ensures ParseFrom(msg, c, n) == ParseFrom(msg, ParseFrom(msg, c, k).cursor, n - k)
  {
    hide ParseFrom;
    if !ParseFrom(msg, c, k).Running? {
      MoreFuel(msg, c, k, n);
    }
    RunOn(msg, c, k, n - k);
  }

  lemma {:induction false} TotalOnlyGrows(msg: Octets, c: Cursor, n: nat)
    requires InMessage(msg, c) && c.total <= FQDN_MAX_OCTET_LEN && ParseFrom(msg, c, n).Running?
    ensures c.total <= ParseFrom(msg, c, n).cursor.total <= FQDN_MAX_OCTET_LEN
    decreases n
  {
    hide ParseStep;
    if n > 0 {
      StepKinds(msg, c);
      TotalOnlyGrows(msg, ParseStep(msg, c).cursor, n - 1);
    }
  }

  /** Behind a pointer, as long as no label is taken, only the position changes. */
  lemma {:induction false} OnlyPositionChanges(msg: Octets, c: Cursor, n: nat)
    requires InMessage(msg, c) && c.total <= FQDN_MAX_OCTET_LEN && c.jumped && c.end == |msg|
    requires ParseFrom(msg, c, n).Running? && ParseFrom(msg, c, n).cursor.total == c.total
    ensures ParseFrom(msg, c, n).cursor == c.(pos := ParseFrom(msg, c, n).cursor.pos)
    ensures n > 0 ==> ParseFrom(msg, c, n).cursor.pos < |msg|
    decreases n
  {
    if n > 0 {
      var d := ParseStep(msg, c).cursor;
      TotalOnlyGrows(msg, d, n - 1);
      OnlyPositionChanges(msg, d, n - 1);
    }
  }

  ghost predicate LongChain(msg: Octets, c: Cursor)
    requires InMessage(msg, c)
  {
    && c.total <= FQDN_MAX_OCTET_LEN && c.jumped && c.end == |msg|
    && ParseFrom(msg, c, |msg| + 1).Running? && ParseFrom(msg, c, |msg| + 1).cursor.total == c.total
  }

  ghost function PositionAfter(msg: Octets, c: Cursor, k: nat): nat
    requires InMessage(msg, c)
  {
    match ParseFrom(msg, c, k)
    case Running(d) => d.pos
    case _ => 0
  }

  lemma {:induction false} LongChainAt(msg: Octets, c: Cursor, k: nat)
    requires InMessage(msg, c) && LongChain(msg, c) && 0 < k <= |msg| + 1
    ensures ParseFrom(msg, c, k) == Running(c.(pos := PositionAfter(msg, c, k)))
    ensures PositionAfter(msg, c, k) < |msg|
  {
    hide ParseFrom;
    EarlierRuns(msg, c, k, |msg| + 1);
    TotalOnlyGrows(msg, c, k);
    TotalOnlyGrows(msg, ParseFrom(msg, c, k).cursor, |msg| + 1 - k);
    OnlyPositionChanges(msg, c, k);
  }

  /** More pointers in a row than there are octets come to the same place twice. */
  lemma {:induction false} LongChainIsEndless(msg: Octets, c: Cursor)
    requires InMessage(msg, c) && LongChain(msg, c)
    ensures !Stops(msg, c)
  {
    hide ParseFrom, LongChain, PositionAfter;
    var f := (k: nat) => PositionAfter(msg, c, k + 1);
    forall k: nat | k < |msg| + 1 ensures f(k) < |msg| {
      LongChainAt(msg, c, k + 1);
    }
    var i, j := Pigeonhole(|msg|, f, |msg| + 1);
    LongChainAt(msg, c, i + 1);
    LongChainAt(msg, c, j + 1);
    var d := c.(pos := f(i));
    EarlierRuns(msg, c, i + 1, j + 1);
    forall fuel: nat ensures ParseFrom(msg, d, fuel).Running? {
      RepeatIsEndless(msg, d, j - i, fuel);
    }
    StopsLater(msg, c, i + 1);
  }

  function Bound(msg: Octets, total: nat): nat
    requires total <= FQDN_MAX_OCTET_LEN
  {
    (FQDN_MAX_OCTET_LEN + 1 - total) * (|msg| + 2)
  }

  lemma {:induction false} BoundShrinks(msg: Octets, a: nat, b: nat)
    requires a < b <= FQDN_MAX_OCTET_LEN
    ensures |msg| + 2 + Bound(msg, b) <= Bound(msg, a)
  {
    TimesGrows(FQDN_MAX_OCTET_LEN + 1 - b, FQDN_MAX_OCTET_LEN + 1 - a, |msg| + 2);
  }

  lemma {:induction false} TimesGrows(x: nat, y: nat, n: nat)
    requires x < y
    ensures x * n + n <= y * n
  {
    if x + 1 < y {
      TimesGrows(x, y - 1, n);
    }
    TimesNext(y - 1, n);
  }

  lemma {:induction false} TimesNext(x: nat, n: nat)
    ensures (x + 1) * n == x * n + n
  {
  }

  lemma {:induction false} LongRunIsEndless(msg: Octets, c: Cursor)
    requires InMessage(msg, c) && c.total <= FQDN_MAX_OCTET_LEN && ParseFrom(msg, c, Bound(msg, c.total)).Running?
    ensures !Stops(msg, c)
    decreases FQDN_MAX_OCTET_LEN - c.total
  {
    hide ParseFrom, Stops, Bound;
    var n := |msg| + 2;
    assert n <= Bound(msg, c.total) by { BoundAtLeast(msg, c.total); }
    EarlierRuns(msg, c, n, Bound(msg, c.total));
    TotalOnlyGrows(msg, c, n);
    var e := ParseFrom(msg, c, n).cursor;
    if e.total > c.total {
      BoundShrinks(msg, c.total, e.total);
      EarlierRuns(msg, e, Bound(msg, e.total), Bound(msg, c.total) - n);
      LongRunIsEndless(msg, e);
      StopsLater(msg, c, n);
    } else {
      EarlierRuns(msg, c, 1, n);
      FirstIsPointer(msg, c, n);
      LongChainIsEndless(msg, ParseFrom(msg, c, 1).cursor);
      StopsLater(msg, c, 1);
    }
  }

  lemma {:induction false} BoundAtLeast(msg: Octets, total: nat)
    requires total <= FQDN_MAX_OCTET_LEN
    ensures |msg| + 2 <= Bound(msg, total)
  {
    TimesGrows(0, FQDN_MAX_OCTET_LEN + 1 - total, |msg| + 2);
  }

  lemma {:induction false} FirstIsPointer(msg: Octets, c: Cursor, n: nat)
    requires InMessage(msg, c) && c.total <= FQDN_MAX_OCTET_LEN && n > 0
    requires ParseFrom(msg, c, n).Running? && ParseFrom(msg, c, n).cursor.total == c.total
    ensures ParseFrom(msg, c, 1).Running?
    ensures var d := ParseFrom(msg, c, 1).cursor; d.jumped && d.end == |msg| && d.total == c.total
  {
    EarlierRuns(msg, c, 1, n);
    TotalOnlyGrows(msg, ParseFrom(msg, c, 1).cursor, n - 1);
    assert ParseFrom(msg, c, 1) == ParseStep(msg, c);
  }

  /** A call that stops at all stops within 256 times two more steps than the message has
      octets: whether it does can be found out by counting. */
  lemma {:induction false} StopsIffSoon(msg: Octets, start: nat, end: nat)
    requires start <= end <= |msg|
    ensures Stops(msg, Start(start, end)) <==> !ParseFrom(msg, Start(start, end), 256 * (|msg| + 2)).Running?
  {
    hide ParseFrom;
    assert Bound(msg, 0) == 256 * (|msg| + 2);
    if ParseFrom(msg, Start(start, end), 256 * (|msg| + 2)).Running? {
      LongRunIsEndless(msg, Start(start, end));
    }
  }
}
