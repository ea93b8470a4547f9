/** The counting semaphore: units, a queue of suspended waiters, and hand-over through the
    reactor's ready list. */
module SemaphoreModel {
  import opened Basics

  /** A coroutine asking for units, or holding them. */
  datatype Party = Party(id: nat, units: nat)

  /** `waiters` are suspended in the queue; `granted` have their units and wait in the ready
      list to be resumed; `holders` run. `suspended` and `resumed` are history: who was ever put
      into the queue, and who came back out of it, in order. */
  datatype State = State(max: nat, current: nat, waiters: seq<Party>, granted: seq<Party>, holders: seq<Party>,
                         suspended: seq<Party>, resumed: seq<Party>)

  function Sum(ps: seq<Party>): nat {
    if ps == [] then 0 else ps[0].units + Sum(ps[1..])
  }

  /** The sum is a `size_t`. */
  predicate WouldBlock(s: State, units: nat) {
    (s.current + units) % SIZE_T > s.max
  }

  /** The test says whether the units fit exactly when the sum does not wrap. */
  lemma {:induction false} WouldBlockIsRightIff(s: State, units: nat)
    requires s.current <= s.max < SIZE_T && units < SIZE_T
    ensures (WouldBlock(s, units) <==> s.current + units > s.max) <==> s.current + units < 0x1_0000_0000_0000_0000
  {
    var n := s.current + units;
    if n >= SIZE_T {
      assert n % SIZE_T == n - SIZE_T;
    } else {
      assert n % SIZE_T == n;
    }
  }

  lemma {:induction false} BlocksIffTooMany(s: State, units: nat)
    requires s.current + units < SIZE_T
    ensures WouldBlock(s, units) <==> s.current + units > s.max
    ensures Take(s, units).current == s.current + units
  {
  }

  function Take(s: State, units: nat): State {
    s.(current := (s.current + units) % SIZE_T)
  }

  /** `try_hold`. */
  function TryTake(s: State, p: Party): State {
    if WouldBlock(s, p.units) then s else Take(s, p.units).(holders := s.holders + [p])
  }

  /** The wake-up loop of `free_units`. */
  function Wake(s: State): (r: State)
    decreases |s.waiters|
  {
    if s.waiters != [] && !WouldBlock(s, s.waiters[0].units) then
      var w := s.waiters[0];
      Wake(Take(s, w.units).(waiters := s.waiters[1..], granted := s.granted + [w]))
    else s
  }

  function FreeUnits(s: State, units: nat): State
    requires units <= s.current
  {
    Wake(s.(current := s.current - units))
  }

  datatype Op =
    | TryHold(p: Party)
    | Hold(p: Party)
    | Resume
    | Release(k: nat)

  /** What the code asserts of its callers, and no wrap-around in `try_hold`; a coroutine can be
      resumed if one was scheduled, a holder released if it is there. */
  predicate Enabled(s: State, op: Op) {
    match op
    case TryHold(p) => s.current + p.units < SIZE_T
    case Hold(p) => p.units <= s.max
    case Resume => s.granted != []
    case Release(k) => k < |s.holders| && s.holders[k].units <= s.current
  }

  function Without(ps: seq<Party>, k: nat): (r: seq<Party>)
    requires k < |ps|
    ensures |r| == |ps| - 1
    ensures forall i :: 0 <= i < |r| ==> r[i] == if i < k then ps[i] else ps[i + 1]
  {
    ps[..k] + ps[k + 1..]
  }

  /** One call, by whichever coroutine runs. `Hold` is `hold` with `co_await`: ready at once or
      suspended. */
  function Step(s: State, op: Op): State {
    if !Enabled(s, op) then s
    else
      match op
      case TryHold(p) => TryTake(s, p)
      case Hold(p) =>
        if WouldBlock(s, p.units) then s.(waiters := s.waiters + [p], suspended := s.suspended + [p])
        else Take(s, p.units).(holders := s.holders + [p])
      case Resume =>
        var w := s.granted[0];
        s.(granted := s.granted[1..], holders := s.holders + [w], resumed := s.resumed + [w])
      case Release(k) =>
        var rest := s.(holders := Without(s.holders, k));
        if s.holders[k].units != 0 then FreeUnits(rest, s.holders[k].units) else rest
  }

  // ---------------------------------------------------------------- safety

  /** The units in use are those of the holders and of the granted waiters and at most the
      maximum; waiters are granted and resumed in the order in which they were suspended; and a
      waiter at the front of the queue does not fit. */
  ghost predicate Safe(s: State) {
    && s.current == Sum(s.holders) + Sum(s.granted)
    && s.current <= s.max
    && (forall i :: 0 <= i < |s.waiters| ==> s.waiters[i].units <= s.max)
    && s.suspended == s.resumed + s.granted + s.waiters
    && (s.waiters != [] ==> s.current + s.waiters[0].units > s.max)
  }

  /** Sums of what is in use and what is asked for stay below the range of a `size_t`. */
  ghost predicate Inv(s: State) {
    s.max + s.max < SIZE_T && Safe(s)
  }

  lemma {:induction false} SumAppend(a: seq<Party>, b: seq<Party>)
    ensures Sum(a + b) == Sum(a) + Sum(b)
  {
    if a == [] {
      assert a + b == b;
    } else {
      assert (a + b)[1..] == a[1..] + b;
      SumAppend(a[1..], b);
    }
  }

  lemma {:induction false} SumOne(p: Party)
    ensures Sum([p]) == p.units
  {
    assert [p][1..] == [];
  }

  lemma {:induction false} SumPart(ps: seq<Party>, k: nat)
    requires k < |ps|
    ensures Sum(ps) == ps[k].units + Sum(Without(ps, k))
  {
    assert ps == ps[..k] + ([ps[k]] + ps[k + 1..]);
    SumAppend(ps[..k], [ps[k]] + ps[k + 1..]);
    SumAppend([ps[k]], ps[k + 1..]);
    SumOne(ps[k]);
    SumAppend(ps[..k], ps[k + 1..]);
  }

  /** The loop grants from the front of the queue, as many as fit, and stops at the first that
      does not fit or at the end. */
  lemma {:induction false} WakeKeeps(s: State)
    requires Wakeable(s)
    ensures Inv(Wake(s))
    decreases |s.waiters|
  {
    hide WouldBlock;
    if s.waiters != [] {
      var w := s.waiters[0];
      BlocksIffTooMany(s, w.units);
      if !WouldBlock(s, w.units) {
        SumAppend(s.granted, [w]);
        SumOne(w);
        var t := Take(s, w.units).(waiters := s.waiters[1..], granted := s.granted + [w]);
        assert t.suspended == t.resumed + t.granted + t.waiters by {
          assert s.waiters == [w] + s.waiters[1..];
        }
        WakeKeeps(t);
      }
    }
  }

  /** The invariant, except that waiters at the front may fit. */
  ghost predicate Wakeable(s: State) {
    && s.max + s.max < SIZE_T && s.current <= s.max
    && s.current == Sum(s.holders) + Sum(s.granted)
    && (forall i :: 0 <= i < |s.waiters| ==> s.waiters[i].units <= s.max)
    && s.suspended == s.resumed + s.granted + s.waiters
  }

  lemma {:induction false} WakeMoves(s: State)
    ensures var r := Wake(s);
            && r.max == s.max && r.holders == s.holders && r.resumed == s.resumed && r.suspended == s.suspended
            && |r.waiters| <= |s.waiters|
            && r.waiters == s.waiters[|s.waiters| - |r.waiters|..]
            && r.granted == s.granted + s.waiters[..|s.waiters| - |r.waiters|]
    decreases |s.waiters|
  {
    hide WouldBlock;
    if s.waiters != [] && !WouldBlock(s, s.waiters[0].units) {
      var w := s.waiters[0];
      var t := Take(s, w.units).(waiters := s.waiters[1..], granted := s.granted + [w]);
      WakeMoves(t);
      var r := Wake(s);
      var k := |s.waiters| - |r.waiters|;
      assert s.waiters[..k] == [w] + t.waiters[..k - 1];
    }
  }

  lemma {:induction false} ReleaseKeepsInv(s: State, k: nat)
    requires Inv(s) && k < |s.holders|
    ensures Inv(Step(s, Release(k)))
  {
    hide Wake, WouldBlock;
    SumPart(s.holders, k);
    assert Enabled(s, Release(k));
    var u := s.holders[k].units;
    var rest := s.(holders := Without(s.holders, k));
    if u != 0 {
      WakeKeeps(rest.(current := s.current - u));
    }
  }

  lemma {:induction false} StepKeepsInv(s: State, op: Op)
    requires Inv(s)
    ensures Inv(Step(s, op))
  {
    hide Wake, WouldBlock;
    if Enabled(s, op) {
      match op
      case TryHold(p) =>
        BlocksIffTooMany(s, p.units);
        SumAppend(s.holders, [p]);
        SumOne(p);
      case Hold(p) =>
        SumAppend(s.holders, [p]);
        SumOne(p);
        BlocksIffTooMany(s, p.units);
        assert s.resumed + s.granted + s.waiters + [p] == s.resumed + s.granted + (s.waiters + [p]);
      case Resume =>
        var w := s.granted[0];
        SumAppend(s.holders, [w]);
        SumOne(w);
        assert s.granted == [w] + s.granted[1..];
        SumAppend([w], s.granted[1..]);
        assert s.resumed + ([w] + s.granted[1..]) + s.waiters == s.resumed + [w] + s.granted[1..] + s.waiters;
      case Release(k) =>
        ReleaseKeepsInv(s, k);
    }
  }

  function Initial(max: nat): State {
    State(max, 0, [], [], [], [], [])
  }

  function Execute(s: State, ops: seq<Op>): State
    decreases |ops|
  {
    if ops == [] then s else Execute(Step(s, ops[0]), ops[1..])
  }

  /** Every run is safe if and only if twice the maximum is below the range of a `size_t`.
      Otherwise a request can be asked for that wraps the count of the units in use to zero. */
  lemma {:induction false} RunsAreSafeIff(max: nat)
    requires max < 0x1_0000_0000_0000_0000
    ensures (forall ops :: Safe(Execute(Initial(max), ops))) <==> max + max < 0x1_0000_0000_0000_0000
  {
    hide Execute, Safe;
    if max + max < SIZE_T {
      InitialIsInv(max);
      forall ops ensures Safe(Execute(Initial(max), ops)) {
        RunKeepsInv(Initial(max), ops);
      }
    } else {
      var ops := WrappingRun(max);
    }
  }

  lemma {:induction false} InitialIsInv(max: nat)
    requires max + max < SIZE_T
    ensures Inv(Initial(max))
  {
  }

  lemma {:induction false} WrappingRun(max: nat) returns (ops: seq<Op>)
    requires max < SIZE_T <= max + max
    ensures !Safe(Execute(Initial(max), ops))
  {
    hide Wake;
    var a, b := Party(0, max), Party(1, SIZE_T - max);
    ops := [Hold(a), Hold(b)];
    var s1 := Step(Initial(max), Hold(a));
    assert s1 == Initial(max).(current := max, holders := [a]) by { assert [] + [a] == [a]; }
    assert !WouldBlock(s1, b.units) by { assert max + b.units == SIZE_T; }
    var s2 := Step(s1, Hold(b));
    assert s2.current == 0 && s2.holders == [a] + [b] && s2.granted == [];
    SumAppend([a], [b]);
    SumOne(a);
    SumOne(b);
    assert ops[1..] == [Hold(b)] && [Hold(b)][1..] == [];
    assert Execute(Initial(max), ops) == Execute(s1, [Hold(b)]) == Execute(s2, []) == s2;
  }

  /** `try_hold` asserts nothing of its argument. It keeps the books right if and only if the sum
      does not wrap. */
  lemma {:induction false} TryHoldIsSafeIff(s: State, p: Party)
    requires Inv(s) && p.units < SIZE_T
    ensures Inv(TryTake(s, p)) <==> s.current + p.units < SIZE_T
  {
    SumAppend(s.holders, [p]);
    SumOne(p);
    if s.current + p.units < SIZE_T {
      BlocksIffTooMany(s, p.units);
    } else {
      assert (s.current + p.units) % SIZE_T == s.current + p.units - SIZE_T;
    }
  }

  lemma {:induction false} RunKeepsInv(s: State, ops: seq<Op>)
    requires Inv(s)
    ensures Inv(Execute(s, ops))
    decreases |ops|
  {
    if ops != [] {
      StepKeepsInv(s, ops[0]);
      RunKeepsInv(Step(s, ops[0]), ops[1..]);
    }
  }

  /** Nobody can be stuck behind an idle semaphore. */
  lemma {:induction false} QueueMeansUse(s: State)
    requires Inv(s) && s.waiters != []
    ensures s.current > 0 && (s.granted != [] || s.holders != [])
  {
  }

  // ---------------------------------------------------------------- draining

  /** Weighs a waiter three, a granted waiter two and a holder one. */
  function Outstanding(s: State): nat {
    3 * |s.waiters| + 2 * |s.granted| + |s.holders|
  }

  predicate Draining(op: Op) {
    op.Resume? || op.Release?
  }

  lemma {:induction false} DrainStep(s: State, op: Op)
    requires Inv(s) && Draining(op) && Enabled(s, op)
    ensures Outstanding(Step(s, op)) < Outstanding(s)
  {
    hide Wake, WouldBlock, Sum;
    if op.Release? {
      SumPart(s.holders, op.k);
      WakeMoves(s.(holders := Without(s.holders, op.k), current := s.current - s.holders[op.k].units));
    }
  }

  /** Every step of the run is a resume or a release that can happen. */
  predicate DrainRun(s: State, ops: seq<Op>)
    decreases |ops|
  {
    ops != [] ==> Draining(ops[0]) && Enabled(s, ops[0]) && DrainRun(Step(s, ops[0]), ops[1..])
  }

  /** Once no new holds are made, no run of resumes and releases is longer than what was
      outstanding. */
  lemma {:induction false} DrainIsFinite(s: State, ops: seq<Op>)
    requires Inv(s) && DrainRun(s, ops)
    ensures |ops| + Outstanding(Execute(s, ops)) <= Outstanding(s)
    decreases |ops|
  {
    if ops != [] {
      DrainStep(s, ops[0]);
      StepKeepsInv(s, ops[0]);
      DrainIsFinite(Step(s, ops[0]), ops[1..]);
    }
  }

  lemma {:induction false} HolderCanRelease(s: State)
    requires Inv(s)
    ensures s.holders != [] ==> Enabled(s, Release(0))
  {
    if s.holders != [] {
      SumPart(s.holders, 0);
    }
  }

  /** And where such a run cannot go on, the queue is empty and all units are back. */
  lemma {:induction false} DrainEndsIdle(s: State)
    requires Inv(s) && forall op :: Draining(op) ==> !Enabled(s, op)
    ensures s.waiters == [] && s.granted == [] && s.holders == [] && s.current == 0
  {
    assert Draining(Resume) && Draining(Release(0));
    assert !Enabled(s, Resume) && !Enabled(s, Release(0));
    HolderCanRelease(s);
  }

  /** So from every reachable state there is a run of resumes and releases to the idle state. */
  lemma {:induction false} DrainExists(s: State) returns (ops: seq<Op>)
    requires Inv(s)
    ensures DrainRun(s, ops)
    ensures Execute(s, ops).waiters == [] && Execute(s, ops).current == 0
    decreases Outstanding(s)
  {
    if s.granted != [] || s.holders != [] {
      var op := if s.granted != [] then Resume else Release(0);
      HolderCanRelease(s);
      StepKeepsInv(s, op);
      DrainStep(s, op);
      var rest := DrainExists(Step(s, op));
      ops := [op] + rest;
      assert ops[1..] == rest;
    } else {
      ops := [];
    }
  }

  // ---------------------------------------------------------------- arrival order

  /** A run with its history: who asked for units, in order, leaving out failed `try_hold`s, and
      who got them, in order. */
  datatype Log = Log(state: State, arrived: seq<Party>, served: seq<Party>)

  function LogStep(l: Log, op: Op): Log {
    var s := l.state;
    var t := Step(s, op);
    if !Enabled(s, op) then l
    else
      match op
      case TryHold(p) => if WouldBlock(s, p.units) then l else Log(t, l.arrived + [p], l.served + [p])
      case Hold(p) => Log(t, l.arrived + [p], if WouldBlock(s, p.units) then l.served else l.served + [p])
      case Resume => Log(t, l.arrived, l.served)
      case Release(_) =>
        Log(t, l.arrived, if |s.granted| <= |t.granted| then l.served + t.granted[|s.granted|..] else l.served)
  }

  function Record(l: Log, ops: seq<Op>): Log
    decreases |ops|
  {
    if ops == [] then l else Record(LogStep(l, ops[0]), ops[1..])
  }

  /** A request that goes on at once although others wait. */
  predicate Overtakes(s: State, op: Op) {
    && s.waiters != []
    && Enabled(s, op)
    && (op.Hold? || op.TryHold?)
    && !WouldBlock(s, op.p.units)
  }

  predicate OvertakingIn(s: State, ops: seq<Op>)
    decreases |ops|
  {
    ops != [] && (Overtakes(s, ops[0]) || OvertakingIn(Step(s, ops[0]), ops[1..]))
  }

  /** `await_ready` and `try_hold` do not look at the queue. Exactly the requests that fit now go
      on before those that wait, and they are smaller than the one at the front. */
  lemma {:induction false} OvertakesIffItFits(s: State, op: Op)
    requires Inv(s) && s.waiters != [] && Enabled(s, op) && (op.Hold? || op.TryHold?)
    ensures Overtakes(s, op) <==> s.current + op.p.units <= s.max
    ensures Overtakes(s, op) ==> op.p.units < s.waiters[0].units
  {
    BlocksIffTooMany(s, op.p.units);
  }

  /** Served and waiting together are those who arrived. */
  ghost predicate InStep(l: Log) {
    Inv(l.state) && l.arrived == l.served + l.state.waiters
  }

  lemma {:induction false} StaysInStep(l: Log, op: Op)
    requires InStep(l) && !Overtakes(l.state, op)
    ensures InStep(LogStep(l, op)) && LogStep(l, op).state == Step(l.state, op)
  {
    hide Wake, WouldBlock, Sum, Safe;
    var s := l.state;
    StepKeepsInv(s, op);
    if Enabled(s, op) {
      match op
      case TryHold(p) =>
        assert s.waiters == [] ==> l.served + [p] + [] == l.served + [] + [p];
      case Hold(p) =>
        assert l.served + s.waiters + [p] == l.served + (s.waiters + [p]);
        assert s.waiters == [] ==> l.served + [p] + [] == l.served + [] + [p];
      case Resume =>
      case Release(k) =>
        var rest := s.(holders := Without(s.holders, k));
        WakeMoves(rest.(current := s.current - s.holders[k].units));
        var t := Step(s, op);
        var n := |s.waiters| - |t.waiters|;
        assert t.granted == s.granted + s.waiters[..n] && t.waiters == s.waiters[n..];
        assert t.granted[|s.granted|..] == s.waiters[..n];
        assert l.served + s.waiters == l.served + s.waiters[..n] + s.waiters[n..];
    }
  }

  /** Once someone was served out of turn, the order stays wrong. */
  lemma {:induction false} WrongStaysWrong(l: Log, ops: seq<Op>, i: nat)
    requires i < |l.served| && i < |l.arrived| && l.served[i] != l.arrived[i]
    ensures !(Record(l, ops).served <= Record(l, ops).arrived)
    decreases |ops|
  {
    hide Step, WouldBlock;
    if ops != [] {
      WrongStaysWrong(LogStep(l, ops[0]), ops[1..], i);
    }
  }

  /** Over every run, units are given out in the order in which they were asked for if and only
      if no request in it overtakes. */
  lemma {:induction false} ServedInOrderIff(l: Log, ops: seq<Op>)
    requires InStep(l)
    ensures Record(l, ops).served <= Record(l, ops).arrived <==> !OvertakingIn(l.state, ops)
    decreases |ops|
  {
    hide Step, WouldBlock, Inv, Overtakes;
    if ops != [] {
      if Overtakes(l.state, ops[0]) {
        OutOfTurn(l, ops[0]);
        WrongStaysWrong(LogStep(l, ops[0]), ops[1..], |l.served|);
      } else {
        StaysInStep(l, ops[0]);
        ServedInOrderIff(LogStep(l, ops[0]), ops[1..]);
      }
    }
  }

  lemma {:induction false} OutOfTurn(l: Log, op: Op)
    requires InStep(l) && Overtakes(l.state, op)
    ensures var r := LogStep(l, op);
            |l.served| < |r.served| && |l.served| < |r.arrived| && r.served[|l.served|] != r.arrived[|l.served|]
  {
    OvertakesIffItFits(l.state, op);
  }

  /** In particular over every run from the start. */
  lemma {:induction false} RunServesInOrderIff(max: nat, ops: seq<Op>)
    requires max + max < SIZE_T
    ensures var r := Record(Log(Initial(max), [], []), ops);
            r.served <= r.arrived <==> !OvertakingIn(Initial(max), ops)
  {
    InitialIsInv(max);
    ServedInOrderIff(Log(Initial(max), [], []), ops);
  }

  /** A run in which it happens: of a maximum of two, one unit is held, two are waited for, and
      then one more is asked for and given. */
  lemma {:induction false} SmallRequestOvertakes()
    ensures var a, b, c := Party(0, 1), Party(1, 2), Party(2, 1);
            var r := Record(Log(Initial(2), [], []), [Hold(a), Hold(b), Hold(c)]);
            && r.arrived == [a, b, c] && r.served == [a, c]
            && r.state == State(2, 2, [b], [], [a, c], [b], [])
  {
    hide Wake, Sum;
    var a, b, c := Party(0, 1), Party(1, 2), Party(2, 1);
    var l0 := Log(Initial(2), [], []);
    var l1 := LogStep(l0, Hold(a));
    assert l1 == Log(State(2, 1, [], [], [a], [], []), [a], [a]);
    var l2 := LogStep(l1, Hold(b));
    assert l2 == Log(State(2, 1, [b], [], [a], [b], []), [a, b], [a]);
    var l3 := LogStep(l2, Hold(c));
    assert l3 == Log(State(2, 2, [b], [], [a, c], [b], []), [a, b, c], [a, c]);
    var ops := [Hold(a), Hold(b), Hold(c)];
    assert ops[1..] == [Hold(b), Hold(c)] && ops[1..][1..] == [Hold(c)] && ops[1..][1..][1..] == [];
    assert Record(l0, ops) == Record(l1, ops[1..]) == Record(l2, ops[1..][1..]) == Record(l3, []);
  }

  // ---------------------------------------------------------------- in place

  class Semaphore {
    const max: nat
    var current: nat
    var waiters: seq<Party>
    /** The part of the reactor's ready list that this semaphore put there. */
    var scheduled: seq<Party>

    ghost function View(holders: seq<Party>, suspended: seq<Party>, resumed: seq<Party>): State
      reads this
    {
      State(max, current, waiters, scheduled, holders, suspended, resumed)
    }

    constructor (maxParallelism: nat)
      ensures max == maxParallelism && View([], [], []) == Initial(maxParallelism)
    {
      max, current, waiters, scheduled := maxParallelism, 0, [], [];
    }

    predicate Blocks(units: nat)
      reads this
    {
      (current + units) % SIZE_T > max
    }

    method TryHold(p: Party, ghost holders: seq<Party>, ghost suspended: seq<Party>, ghost resumed: seq<Party>)
      returns (got: bool)
      modifies this`current
      ensures got <==> !old(WouldBlock(View(holders, suspended, resumed), p.units))
      ensures View(if got then holders + [p] else holders, suspended, resumed)
              == old(TryTake(View(holders, suspended, resumed), p))
    {
      if Blocks(p.units) {
        return false;
      }
      current := (current + p.units) % SIZE_T;
      return true;
    }

    /** `hold` and `co_await`: whether the coroutine goes on at once. */
    method Hold(p: Party, ghost holders: seq<Party>, ghost suspended: seq<Party>, ghost resumed: seq<Party>)
      returns (ready: bool)
      requires p.units <= max
      modifies this
      ensures View(if ready then holders + [p] else holders, if ready then suspended else suspended + [p], resumed)
              == old(Step(View(holders, suspended, resumed), Op.Hold(p)))
    {
      if !Blocks(p.units) {
        current := (current + p.units) % SIZE_T;
        return true;
      }
      waiters := waiters + [p];
      return false;
    }

    method GiveUnits(units: nat, ghost holders: seq<Party>, ghost suspended: seq<Party>, ghost resumed: seq<Party>)
      requires units <= current
      modifies this
      ensures View(holders, suspended, resumed)
              == old(FreeUnits(View(holders, suspended, resumed), units))
    {
      current := current - units;
      ghost var goal := Wake(View(holders, suspended, resumed));
      while waiters != [] && !Blocks(waiters[0].units)
        invariant goal == Wake(View(holders, suspended, resumed))
        decreases |waiters|
      {
        var waiter := waiters[0];
        waiters := waiters[1..];
        current := (current + waiter.units) % SIZE_T;
        scheduled := scheduled + [waiter];
      }
    }

    /** `Holder::reset` of the holder at position `k` among those that exist. */
    method Reset(holders: seq<Party>, k: nat, ghost suspended: seq<Party>, ghost resumed: seq<Party>)
      requires k < |holders| && holders[k].units <= current
      modifies this
      ensures View(Without(holders, k), suspended, resumed)
              == old(Step(View(holders, suspended, resumed), Op.Release(k)))
    {
      if holders[k].units != 0 {
        GiveUnits(holders[k].units, Without(holders, k), suspended, resumed);
      }
    }

    /** The reactor takes the first scheduled waiter off its list and resumes it. */
    method ResumeNext(ghost holders: seq<Party>, ghost suspended: seq<Party>, ghost resumed: seq<Party>)
      returns (w: Party)
      requires scheduled != []
      modifies this`scheduled
      ensures View(holders + [w], suspended, resumed + [w])
              == old(Step(View(holders, suspended, resumed), Op.Resume))
    {
      w := scheduled[0];
      scheduled := scheduled[1..];
    }
  }
}
