/** One poll pass of the reactor: a snapshot of descriptors is matched, by handle, against a
    list of waiting nodes while the resumed coroutines change that list. */
module ReactorPoll {
  datatype Node = Node(id: nat, handle: int)

  datatype PollFd = PollFd(fd: int, ready: bool)

  /** What one resumed coroutine does to the waiting nodes before it suspends again: some are
      unlinked, wherever they are, and some are added. */
  datatype Effect = Effect(unlinked: set<nat>, added: seq<Node>)

  type Environment = nat -> Effect

  function Keep(nodes: seq<Node>, gone: set<nat>): (r: seq<Node>) {
    if nodes == [] then []
    else if nodes[0].id in gone then Keep(nodes[1..], gone)
    else [nodes[0]] + Keep(nodes[1..], gone)
  }

  /** A filter: each node stays or goes by itself, and those that stay keep their order. */
  lemma {:induction false} KeepFilters(a: seq<Node>, n: Node, gone: set<nat>)
    ensures Keep(a + [n], gone) == if n.id in gone then Keep(a, gone) else Keep(a, gone) + [n]
  {
    if a == [] {
      assert a + [n] == [n] && [n][1..] == [];
    } else {
      assert (a + [n])[1..] == a[1..] + [n];
      KeepFilters(a[1..], n, gone);
    }
  }

  function Drop(nodes: seq<Node>, gone: set<nat>): (r: multiset<Node>)
    ensures r + multiset(Keep(nodes, gone)) == multiset(nodes)
  {
    if nodes == [] then multiset{}
    else
      assert nodes == [nodes[0]] + nodes[1..];
      if nodes[0].id in gone then multiset{nodes[0]} + Drop(nodes[1..], gone) else Drop(nodes[1..], gone)
  }

  function CountReady(fds: seq<PollFd>): nat {
    if fds == [] then 0 else (if fds[0].ready then 1 else 0) + CountReady(fds[1..])
  }

  // ---------------------------------------------------------------- the pass as the code does it

  /** `polled` is the list moved aside, `queued` the reactor's list, which resumed coroutines
      append to. The rest is history. */
  datatype Pass = Pass(i: nat, handled: nat, polled: seq<Node>, queued: seq<Node>,
                       resumed: seq<Node>, dropped: multiset<Node>, added: seq<Node>)

  function Begin(nodes: seq<Node>): Pass {
    Pass(0, 0, nodes, [], [], multiset{}, [])
  }

  function Resume(p: Pass, env: Environment): Pass
    requires p.polled != []
  {
    var rest := p.polled[1..];
    var effect := env(|p.resumed|);
    p.(i := p.i + 1, handled := p.handled + 1,
       polled := Keep(rest, effect.unlinked),
       queued := Keep(p.queued, effect.unlinked) + effect.added,
       resumed := p.resumed + [p.polled[0]],
       dropped := p.dropped + Drop(rest, effect.unlinked) + Drop(p.queued, effect.unlinked),
       added := p.added + effect.added)
  }

  predicate More(p: Pass, fds: seq<PollFd>, ret: nat) {
    p.handled < ret && p.i < |fds| && p.polled != []
  }

  function PassStep(p: Pass, fds: seq<PollFd>, env: Environment): Pass
    requires p.i < |fds| && p.polled != []
  {
    var node := p.polled[0];
    var pollfd := fds[p.i];
    if pollfd.fd != node.handle then
      p.(i := p.i + 1, handled := p.handled + if pollfd.ready then 1 else 0)
    else if !pollfd.ready then
      p.(i := p.i + 1, polled := p.polled[1..], queued := p.queued + [node])
    else
      Resume(p, env)
  }

  /** The loop and the final splice. */
  function RunPass(p: Pass, fds: seq<PollFd>, ret: nat, env: Environment): Pass
    decreases |fds| - p.i
  {
    if More(p, fds, ret) then RunPass(PassStep(p, fds, env), fds, ret, env)
    else p.(polled := [], queued := p.queued + p.polled)
  }

  /** No node is lost and none is made up: what was waiting and what was added is what was
      resumed, what was unlinked and what is still queued. */
  ghost predicate Conserved(p: Pass, nodes: seq<Node>) {
    multiset(nodes) + multiset(p.added)
    == multiset(p.resumed) + p.dropped + multiset(p.polled) + multiset(p.queued)
  }

  lemma {:induction false} StepConserves(p: Pass, fds: seq<PollFd>, env: Environment, nodes: seq<Node>)
    requires p.i < |fds| && p.polled != [] && Conserved(p, nodes)
    ensures Conserved(PassStep(p, fds, env), nodes)
  {
    hide Keep, Drop;
    var node, rest := p.polled[0], p.polled[1..];
    assert p.polled == [node] + rest;
    if fds[p.i].fd == node.handle && fds[p.i].ready {
      var effect := env(|p.resumed|);
      var r := Resume(p, env);
      assert multiset(r.resumed) == multiset(p.resumed) + multiset{node};
      assert multiset(r.added) == multiset(p.added) + multiset(effect.added);
      assert multiset(r.queued) == multiset(Keep(p.queued, effect.unlinked)) + multiset(effect.added);
      assert multiset(rest) == Drop(rest, effect.unlinked) + multiset(r.polled);
      assert multiset(p.queued) == Drop(p.queued, effect.unlinked) + multiset(Keep(p.queued, effect.unlinked));
      assert multiset(p.polled) == multiset{node} + multiset(rest);
    }
  }

  lemma {:induction false} PassConserves(p: Pass, fds: seq<PollFd>, ret: nat, env: Environment, nodes: seq<Node>)
    requires Conserved(p, nodes)
    ensures var r := RunPass(p, fds, ret, env);
            && r.polled == []
            && multiset(nodes) + multiset(r.added) == multiset(r.resumed) + r.dropped + multiset(r.queued)
    decreases |fds| - p.i
  {
    if More(p, fds, ret) {
      StepConserves(p, fds, env, nodes);
      PassConserves(PassStep(p, fds, env), fds, ret, env, nodes);
    }
  }

  // ---------------------------------------------------------------- the pass as intended

  /** Each node in turn, by identity: one that has been unlinked is skipped, one whose own
      descriptor is ready is resumed, any other is queued again. */
  datatype Turn = Turn(gone: set<nat>, queued: seq<Node>, resumed: seq<Node>, added: seq<Node>)

  function TurnAt(nodes: seq<Node>, ready: seq<bool>, env: Environment, i: nat): Turn
    requires i <= |ready| <= |nodes|
  {
    if i == 0 then Turn({}, [], [], [])
    else
      var t := TurnAt(nodes, ready, env, i - 1);
      var node := nodes[i - 1];
      if node.id in t.gone then t
      else if !ready[i - 1] then t.(queued := t.queued + [node])
      else
        var effect := env(|t.resumed|);
        Turn(t.gone + effect.unlinked,
             Keep(t.queued, effect.unlinked) + effect.added,
             t.resumed + [node],
             t.added + effect.added)
  }

  /** The `i`-th node is still linked when its turn comes. */
  predicate LinkedAtTurn(nodes: seq<Node>, ready: seq<bool>, env: Environment, i: nat)
    requires i < |ready| <= |nodes|
  {
    nodes[i].id !in TurnAt(nodes, ready, env, i).gone
  }

  ghost predicate DistinctIds(nodes: seq<Node>) {
    forall i, j :: 0 <= i < j < |nodes| ==> nodes[i].id != nodes[j].id
  }

  lemma {:induction false} TurnResumes(nodes: seq<Node>, ready: seq<bool>, env: Environment, i: nat)
    requires i <= |ready| <= |nodes| && DistinctIds(nodes)
    ensures forall n :: n in TurnAt(nodes, ready, env, i).resumed <==>
              DueBefore(nodes, ready, env, i, n)
    ensures forall a, b :: 0 <= a < b < |TurnAt(nodes, ready, env, i).resumed| ==>
              TurnAt(nodes, ready, env, i).resumed[a] != TurnAt(nodes, ready, env, i).resumed[b]
  {
    if i > 0 {
      TurnResumes(nodes, ready, env, i - 1);
      var t := TurnAt(nodes, ready, env, i - 1);
      var u := TurnAt(nodes, ready, env, i);
      assert !DueBefore(nodes, ready, env, i - 1, nodes[i - 1]);
      forall n ensures n in u.resumed <==> DueBefore(nodes, ready, env, i, n) {
        DueStep(nodes, ready, env, i, n);
      }
    }
  }

  /** `n` is one of the first `i` nodes, its own descriptor is ready and it is linked when its
      turn comes. */
  ghost predicate DueBefore(nodes: seq<Node>, ready: seq<bool>, env: Environment, i: nat, n: Node)
    requires i <= |ready| <= |nodes|
  {
    exists k :: 0 <= k < i && nodes[k] == n && ready[k] && LinkedAtTurn(nodes, ready, env, k)
  }

  lemma {:induction false} DueStep(nodes: seq<Node>, ready: seq<bool>, env: Environment, i: nat, n: Node)
    requires 0 < i <= |ready| <= |nodes|
    ensures DueBefore(nodes, ready, env, i, n) <==>
              || DueBefore(nodes, ready, env, i - 1, n)
              || (nodes[i - 1] == n && ready[i - 1] && LinkedAtTurn(nodes, ready, env, i - 1))
  {
    hide LinkedAtTurn;
  }

  // ---------------------------------------------------------------- when the two agree

  ghost predicate SnapshotOf(fds: seq<PollFd>, nodes: seq<Node>) {
    |fds| <= |nodes| && forall i :: 0 <= i < |fds| ==> fds[i].fd == nodes[i].handle
  }

  /** Apart from the first, no node of the snapshot shares its handle with a later node of the
      list. */
  ghost predicate HandlesTellApart(nodes: seq<Node>, n: nat) {
    forall i, j :: 1 <= i < n && i < j < |nodes| ==> nodes[i].handle != nodes[j].handle
  }

  function ReadyFlags(fds: seq<PollFd>): (r: seq<bool>)
    ensures |r| == |fds| && forall i :: 0 <= i < |fds| ==> r[i] == fds[i].ready
  {
    if fds == [] then [] else [fds[0].ready] + ReadyFlags(fds[1..])
  }

  lemma {:induction false} KeepKeep(nodes: seq<Node>, a: set<nat>, b: set<nat>)
    ensures Keep(Keep(nodes, a), b) == Keep(nodes, a + b)
  {
    if nodes != [] {
      KeepKeep(nodes[1..], a, b);
      if nodes[0].id !in a {
        var k := Keep(nodes[1..], a);
        assert ([nodes[0]] + k)[1..] == k;
      }
    }
  }

  lemma {:induction false} KeepAll(nodes: seq<Node>)
    ensures Keep(nodes, {}) == nodes
  {
    if nodes != [] {
      KeepAll(nodes[1..]);
    }
  }

  lemma {:induction false} CountSplit(fds: seq<PollFd>, i: nat)
    requires i < |fds|
    ensures CountReady(fds[..i + 1]) == CountReady(fds[..i]) + if fds[i].ready then 1 else 0
    ensures CountReady(fds[..i]) <= CountReady(fds)
  {
    if i == 0 {
      assert fds[..1] == [fds[0]] && fds[..0] == [];
      assert [fds[0]][1..] == [];
    } else {
      assert fds[..i + 1][1..] == fds[1..][..i] && fds[..i][1..] == fds[1..][..i - 1];
      CountSplit(fds[1..], i - 1);
    }
  }

  /** The state of the code after `i` entries, expressed by the intended turns. */
  ghost predicate InStep(p: Pass, nodes: seq<Node>, fds: seq<PollFd>, env: Environment) {
    && p.i <= |fds| <= |nodes|
    && var t := TurnAt(nodes, ReadyFlags(fds), env, p.i);
       && p.polled == Keep(nodes[p.i..], t.gone)
       && p.queued == t.queued && p.resumed == t.resumed && p.added == t.added
       && p.handled == CountReady(fds[..p.i])
       && (p.i == 0 ==> t.gone == {})
  }

  lemma {:induction false} StepInStep(p: Pass, nodes: seq<Node>, fds: seq<PollFd>, env: Environment)
    requires SnapshotOf(fds, nodes) && HandlesTellApart(nodes, |fds|)
    requires InStep(p, nodes, fds, env) && p.i < |fds| && p.polled != []
    ensures InStep(PassStep(p, fds, env), nodes, fds, env)
  {
    hide Keep, CountReady, TurnAt, PassStep;
    var i := p.i;
    var t := TurnAt(nodes, ReadyFlags(fds), env, i);
    var q := PassStep(p, fds, env);
    CountSplit(fds, i);
    KeepHead(nodes, i, t.gone);
    TurnStep(nodes, ReadyFlags(fds), env, i);
    StepCases(p, fds, env);
    if nodes[i].id in t.gone {
      var k := FrontIsLater(nodes, i + 1, t.gone);
      assert p.polled[0] == nodes[k];
    } else {
      assert p.polled[1..] == Keep(nodes[i + 1..], t.gone);
      if fds[i].ready {
        KeepKeep(nodes[i + 1..], t.gone, env(|t.resumed|).unlinked);
      }
    }
  }

  lemma {:induction false} TurnStep(nodes: seq<Node>, ready: seq<bool>, env: Environment, i: nat)
    requires i < |ready| <= |nodes|
    ensures var t := TurnAt(nodes, ready, env, i);
            TurnAt(nodes, ready, env, i + 1) ==
            if nodes[i].id in t.gone then t
            else if !ready[i] then t.(queued := t.queued + [nodes[i]])
            else Turn(t.gone + env(|t.resumed|).unlinked,
                      Keep(t.queued, env(|t.resumed|).unlinked) + env(|t.resumed|).added,
                      t.resumed + [nodes[i]], t.added + env(|t.resumed|).added)
  {
  }

  lemma {:induction false} StepCases(p: Pass, fds: seq<PollFd>, env: Environment)
    requires p.i < |fds| && p.polled != []
    ensures var q := PassStep(p, fds, env);
            && q.i == p.i + 1
            && q.handled == p.handled + (if fds[p.i].ready then 1 else 0)
            && (fds[p.i].fd != p.polled[0].handle ==> q == p.(i := q.i, handled := q.handled))
            && (fds[p.i].fd == p.polled[0].handle && !fds[p.i].ready ==>
                  q == p.(i := q.i, polled := p.polled[1..], queued := p.queued + [p.polled[0]]))
            && (fds[p.i].fd == p.polled[0].handle && fds[p.i].ready ==> q == Resume(p, env))
  {
  }

  lemma {:induction false} KeepHead(nodes: seq<Node>, i: nat, gone: set<nat>)
    requires i < |nodes|
    ensures Keep(nodes[i..], gone) ==
            if nodes[i].id in gone then Keep(nodes[i + 1..], gone) else [nodes[i]] + Keep(nodes[i + 1..], gone)
  {
    assert nodes[i..][0] == nodes[i] && nodes[i..][1..] == nodes[i + 1..];
  }

  lemma {:induction false} FrontIsLater(nodes: seq<Node>, i: nat, gone: set<nat>) returns (k: nat)
    requires i <= |nodes| && Keep(nodes[i..], gone) != []
    ensures i <= k < |nodes| && nodes[k] == Keep(nodes[i..], gone)[0]
    decreases |nodes| - i
  {
    assert nodes[i..] != [] && nodes[i..][1..] == nodes[i + 1..];
    if nodes[i].id in gone {
      k := FrontIsLater(nodes, i + 1, gone);
    } else {
      k := i;
    }
  }

  /** Once no ready entry is left, or no node, the remaining turns only queue nodes again. */
  lemma {:induction false} QuietTurns(nodes: seq<Node>, fds: seq<PollFd>, env: Environment, i: nat)
    requires i <= |fds| <= |nodes|
    requires || CountReady(fds[..i]) == CountReady(fds)
             || Keep(nodes[i..], TurnAt(nodes, ReadyFlags(fds), env, i).gone) == []
    ensures var t := TurnAt(nodes, ReadyFlags(fds), env, i);
            var u := TurnAt(nodes, ReadyFlags(fds), env, |fds|);
            && u.gone == t.gone && u.resumed == t.resumed && u.added == t.added
            && u.queued + Keep(nodes[|fds|..], u.gone) == t.queued + Keep(nodes[i..], t.gone)
    decreases |fds| - i
  {
    if i < |fds| {
      var t := TurnAt(nodes, ReadyFlags(fds), env, i);
      CountSplit(fds, i);
      CountWhole(fds, i + 1);
      assert nodes[i..][0] == nodes[i] && nodes[i..][1..] == nodes[i + 1..];
      if nodes[i].id !in t.gone {
        assert Keep(nodes[i..], t.gone) == [nodes[i]] + Keep(nodes[i + 1..], t.gone);
        assert !fds[i].ready;
        var behind := Keep(nodes[i + 1..], t.gone);
        assert t.queued + ([nodes[i]] + behind) == t.queued + [nodes[i]] + behind;
      }
      QuietTurns(nodes, fds, env, i + 1);
    }
  }

  lemma {:induction false} CountWhole(fds: seq<PollFd>, i: nat)
    requires i <= |fds|
    ensures CountReady(fds[..i]) <= CountReady(fds)
  {
    if i < |fds| {
      CountSplit(fds, i);
    } else {
      assert fds[..i] == fds;
    }
  }

  lemma {:induction false} PassFollowsTurns(p: Pass, nodes: seq<Node>, fds: seq<PollFd>, env: Environment)
    requires SnapshotOf(fds, nodes) && HandlesTellApart(nodes, |fds|) && InStep(p, nodes, fds, env)
    ensures var r := RunPass(p, fds, CountReady(fds), env);
            var t := TurnAt(nodes, ReadyFlags(fds), env, |fds|);
            && r.resumed == t.resumed && r.added == t.added
            && r.queued == t.queued + Keep(nodes[|fds|..], t.gone)
    decreases |fds| - p.i
  {
    hide TurnAt, PassStep;
    CountWhole(fds, p.i);
    if More(p, fds, CountReady(fds)) {
      StepInStep(p, nodes, fds, env);
      StepAdvances(p, fds, env);
      PassFollowsTurns(PassStep(p, fds, env), nodes, fds, env);
    } else {
      assert p.i == |fds| ==> fds[..p.i] == fds;
      QuietTurns(nodes, fds, env, p.i);
    }
  }

  lemma {:induction false} StepAdvances(p: Pass, fds: seq<PollFd>, env: Environment)
    requires p.i < |fds| && p.polled != []
    ensures PassStep(p, fds, env).i == p.i + 1
  {
  }

  /** If handles tell the nodes apart, then whatever the coroutines do, matching by handle
      resumes exactly the nodes whose own descriptor reported events and that are still linked
      at their turn, each once and in order, and queues the others as intended. */
  lemma {:induction false} PassIsExact(nodes: seq<Node>, fds: seq<PollFd>, env: Environment)
    requires DistinctIds(nodes) && SnapshotOf(fds, nodes) && HandlesTellApart(nodes, |fds|)
    ensures var r := RunPass(Begin(nodes), fds, CountReady(fds), env);
            var t := TurnAt(nodes, ReadyFlags(fds), env, |fds|);
            && r.resumed == t.resumed
            && r.queued == t.queued + Keep(nodes[|fds|..], t.gone)
            && (forall n :: n in r.resumed <==> DueBefore(nodes, ReadyFlags(fds), env, |fds|, n))
            && (forall a, b :: 0 <= a < b < |r.resumed| ==> r.resumed[a] != r.resumed[b])
  {
    hide DueBefore;
    KeepAll(nodes);
    assert nodes[0..] == nodes && fds[..0] == [];
    PassFollowsTurns(Begin(nodes), nodes, fds, env);
    TurnResumes(nodes, ReadyFlags(fds), env, |fds|);
  }

  // ---------------------------------------------------------------- and when they do not

  function Ids(nodes: seq<Node>): (r: set<nat>)
    ensures forall k :: 0 <= k < |nodes| ==> nodes[k].id in r
    ensures forall x :: x in r ==> exists k :: 0 <= k < |nodes| && nodes[k].id == x
  {
    set k | 0 <= k < |nodes| :: nodes[k].id
  }

  lemma {:induction false} ResumedGrows(p: Pass, fds: seq<PollFd>, ret: nat, env: Environment)
    ensures p.resumed <= RunPass(p, fds, ret, env).resumed
    decreases |fds| - p.i
  {
    if More(p, fds, ret) {
      ResumedGrows(PassStep(p, fds, env), fds, ret, env);
    }
  }

  lemma {:induction false} CountGrows(fds: seq<PollFd>, i: nat, j: nat)
    requires i <= j <= |fds|
    ensures CountReady(fds[..i]) <= CountReady(fds[..j])
    decreases j
  {
    if i < j {
      CountGrows(fds, i, j - 1);
      CountSplit(fds, j - 1);
    }
  }

  lemma {:induction false} KeepSkips(nodes: seq<Node>, i: nat, j: nat, gone: set<nat>)
    requires i <= j < |nodes| && nodes[j].id !in gone
    requires forall k :: i <= k < j ==> nodes[k].id in gone
    ensures Keep(nodes[i..], gone) != [] && Keep(nodes[i..], gone)[0] == nodes[j]
    decreases j - i
  {
    assert nodes[i..][0] == nodes[i] && nodes[i..][1..] == nodes[i + 1..];
    if i < j {
      KeepSkips(nodes, i + 1, j, gone);
    }
  }

  /** Turns between the first node and the `i`-th: nothing is ready, so each node is queued. */
  lemma {:induction false} IdleTurns(p: Pass, nodes: seq<Node>, fds: seq<PollFd>, ret: nat, env: Environment,
                                     i: nat, gone: set<nat>)
    requires SnapshotOf(fds, nodes) && p.i <= i < |fds| && p.handled < ret
    requires p.polled == Keep(nodes[p.i..], gone) && Keep(nodes[i..], gone) != []
    requires forall k :: p.i <= k < i ==> !fds[k].ready && nodes[k].id !in gone
    ensures exists q: Pass :: RunPass(p, fds, ret, env) == RunPass(q, fds, ret, env) &&
              q.i == i && q.handled == p.handled && q.polled == Keep(nodes[i..], gone) && q.resumed == p.resumed
    decreases i - p.i
  {
    if p.i < i {
      assert nodes[p.i..][0] == nodes[p.i] && nodes[p.i..][1..] == nodes[p.i + 1..];
      assert p.polled == [nodes[p.i]] + Keep(nodes[p.i + 1..], gone);
      IdleTurns(PassStep(p, fds, env), nodes, fds, ret, env, i, gone);
    }
  }

  /** The pass resumes the right nodes. */
  ghost predicate PassRight(nodes: seq<Node>, fds: seq<PollFd>, env: Environment)
    requires |fds| <= |nodes|
  {
    forall x :: x in RunPass(Begin(nodes), fds, CountReady(fds), env).resumed
                <==> DueBefore(nodes, ReadyFlags(fds), env, |fds|, x)
  }

  /** If the `i`-th node of the snapshot shares its handle with a later one, the first node's
      coroutine can unlink the nodes between them, and the later node is then resumed on an
      event that was not its own. */
  lemma {:induction false} SharedHandleMisleads(nodes: seq<Node>, n: nat, i: nat, j: nat)
    returns (fds: seq<PollFd>, env: Environment)
    requires DistinctIds(nodes) && 1 <= i < n <= |nodes| && i < j < |nodes|
    requires nodes[i].handle == nodes[j].handle
    ensures |fds| == n && SnapshotOf(fds, nodes) && !PassRight(nodes, fds, env)
  {
    fds := seq(n, (k: nat) requires k < n => PollFd(nodes[k].handle, k == 0 || k == i));
    var gone := Ids(nodes[i..j]);
    env := (m: nat) => if m == 0 then Effect(gone, []) else Effect({}, []);
    GoneBetween(nodes, i, j);
    Misled(nodes, fds, env, i, j, gone);
    NotDue(nodes, fds, env, j);
  }

  lemma {:induction false} GoneBetween(nodes: seq<Node>, i: nat, j: nat)
    requires DistinctIds(nodes) && i <= j <= |nodes|
    ensures forall k :: 0 <= k < |nodes| ==> (nodes[k].id in Ids(nodes[i..j]) <==> i <= k < j)
  {
    forall k | 0 <= k < |nodes| ensures nodes[k].id in Ids(nodes[i..j]) <==> i <= k < j {
      if i <= k < j {
        assert nodes[i..j][k - i] == nodes[k];
      }
    }
  }

  lemma {:induction false} NotDue(nodes: seq<Node>, fds: seq<PollFd>, env: Environment, j: nat)
    requires DistinctIds(nodes) && |fds| <= |nodes| && j < |nodes| && (j < |fds| ==> !fds[j].ready)
    ensures !DueBefore(nodes, ReadyFlags(fds), env, |fds|, nodes[j])
  {
    hide LinkedAtTurn;
  }

  lemma {:induction false} Misled(nodes: seq<Node>, fds: seq<PollFd>, env: Environment, i: nat, j: nat, gone: set<nat>)
    requires SnapshotOf(fds, nodes) && 1 <= i < |fds| && i < j < |nodes| && nodes[i].handle == nodes[j].handle
    requires forall k :: 0 <= k < |fds| ==> (fds[k].ready <==> k == 0 || k == i)
    requires forall k :: 0 <= k < |nodes| ==> (nodes[k].id in gone <==> i <= k < j)
    requires env(0) == Effect(gone, [])
    ensures nodes[j] in RunPass(Begin(nodes), fds, CountReady(fds), env).resumed
  {
    hide Keep, CountReady, RunPass, PassStep;
    TwoReady(fds, i);
    var ret := CountReady(fds);
    var p0 := Begin(nodes);
    ReadyStep(p0, fds, ret, env);
    var p1 := PassStep(p0, fds, env);
    KeepSkips(nodes, i, j, gone);
    IdleTurns(p1, nodes, fds, ret, env, i, gone);
    var q: Pass :| RunPass(p1, fds, ret, env) == RunPass(q, fds, ret, env) &&
              q.i == i && q.handled == 1 && q.polled == Keep(nodes[i..], gone) && q.resumed == p1.resumed;
    ReadyStep(q, fds, ret, env);
    var q1 := PassStep(q, fds, env);
    assert q1.resumed[1] == nodes[j];
    ResumedGrows(q1, fds, ret, env);
  }

  lemma {:induction false} ReadyStep(p: Pass, fds: seq<PollFd>, ret: nat, env: Environment)
    requires p.handled < ret && p.i < |fds| && p.polled != []
    requires fds[p.i].fd == p.polled[0].handle && fds[p.i].ready
    ensures var q := PassStep(p, fds, env);
            && RunPass(p, fds, ret, env) == RunPass(q, fds, ret, env)
            && q.i == p.i + 1 && q.handled == p.handled + 1
            && q.polled == Keep(p.polled[1..], env(|p.resumed|).unlinked)
            && q.resumed == p.resumed + [p.polled[0]]
  {
  }

  lemma {:induction false} TwoReady(fds: seq<PollFd>, i: nat)
    requires 1 <= i < |fds| && fds[0].ready && fds[i].ready
    ensures CountReady(fds) >= 2
  {
    assert fds[..0] == [];
    CountSplit(fds, 0);
    CountGrows(fds, 1, i);
    CountSplit(fds, i);
    CountWhole(fds, i + 1);
  }

  /** Exactly when matching by handle is right: for every outcome of the poll and everything
      the coroutines may do, if and only if the handles tell the nodes apart. */
  lemma {:induction false} ExactIffHandlesTellApart(nodes: seq<Node>, n: nat)
    requires DistinctIds(nodes) && n <= |nodes|
    ensures HandlesTellApart(nodes, n) <==>
            forall fds: seq<PollFd>, env: Environment ::
              |fds| == n && SnapshotOf(fds, nodes) ==> PassRight(nodes, fds, env)
  {
    if HandlesTellApart(nodes, n) {
      forall fds: seq<PollFd>, env: Environment | |fds| == n && SnapshotOf(fds, nodes)
        ensures PassRight(nodes, fds, env)
      {
        PassIsExact(nodes, fds, env);
      }
    } else {
      var i, j :| 1 <= i < n && i < j < |nodes| && nodes[i].handle == nodes[j].handle;
      var fds, env := SharedHandleMisleads(nodes, n, i, j);
    }
  }

  // ---------------------------------------------------------------- in place

  const FALLBACK_BUF_SIZE: nat := 64

  class Reactor {
    var polled: seq<Node>

    constructor ()
      ensures polled == []
    {
      polled := [];
    }

    method ScheduleWhenReady(node: Node)
      modifies this
      ensures polled == old(polled) + [node]
    {
      polled := polled + [node];
    }

    /** The descriptors of the snapshot: a prefix of the list, cut off where the growing buffer
        finds no memory. */
    method SnapshotNormal(granted: nat -> bool) returns (handles: seq<int>)
      ensures |handles| <= |polled| && forall i :: 0 <= i < |handles| ==> handles[i] == polled[i].handle
      ensures forall i :: 0 <= i < |handles| ==> granted(i)
      ensures |handles| == |polled| || !granted(|handles|)
    {
      handles := [];
      while |handles| < |polled| && granted(|handles|)
        invariant forall i :: 0 <= i < |handles| ==> granted(i)
        invariant |handles| <= |polled| && forall i :: 0 <= i < |handles| ==> handles[i] == polled[i].handle
      {
        handles := handles + [polled[|handles|].handle];
      }
    }

    method SnapshotFallback() returns (handles: seq<int>)
      ensures |handles| == if |polled| < 64 then |polled| else 64
      ensures forall i :: 0 <= i < |handles| ==> handles[i] == polled[i].handle
    {
      handles := [];
      while |handles| < |polled| && |handles| < FALLBACK_BUF_SIZE
        invariant |handles| <= |polled| && |handles| <= FALLBACK_BUF_SIZE
        invariant forall i :: 0 <= i < |handles| ==> handles[i] == polled[i].handle
      {
        handles := handles + [polled[|handles|].handle];
      }
    }

    /** `poll_and_resume_impl` after the system call returned `ret`; a failed call changes
        nothing. */
    method PollAndResume(fds: seq<PollFd>, ret: int, env: Environment) returns (ok: bool, resumed: seq<Node>)
      requires ret >= -1
      modifies this
      ensures ok <==> ret != -1
      ensures !ok ==> polled == old(polled) && resumed == []
      ensures ok ==> var r := RunPass(Begin(old(polled)), fds, ret, env);
                     polled == r.queued && resumed == r.resumed
    {
      resumed := [];
      if ret == -1 {
        return false, [];
      }
      var aside := polled;
      polled := [];
      var handled, i: nat := 0, 0;
      ghost var p := Begin(aside);
      ghost var goal := RunPass(p, fds, ret, env);
      while handled < ret && i < |fds| && aside != []
        invariant p.i == i && p.handled == handled && p.polled == aside && p.queued == polled && p.resumed == resumed
        invariant goal == RunPass(p, fds, ret, env)
        decreases |fds| - i
      {
        var node, pollfd := aside[0], fds[i];
        p := PassStep(p, fds, env);
        i := i + 1;
        if pollfd.fd != node.handle {
          if pollfd.ready {
            handled := handled + 1;
          }
          continue;
        }
        aside := aside[1..];
        if !pollfd.ready {
          polled := polled + [node];
          continue;
        }
        var effect := env(|resumed|);
        aside, polled := Keep(aside, effect.unlinked), Keep(polled, effect.unlinked) + effect.added;
        resumed := resumed + [node];
        handled := handled + 1;
      }
      polled := polled + aside;
      return true, resumed;
    }
  }
}
