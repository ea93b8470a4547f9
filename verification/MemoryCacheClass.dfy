/** The cache in memory: lists and indexes updated in place, allocations that may fail. */
module MemoryCacheClass {
  import opened Basics
  import opened DnsParser
  import opened CacheModel
  import opened CacheRuns
  import Lex

  function Unexpired(addrs: seq<Resolved>, now: int): (r: seq<Resolved>)
    ensures forall x :: multiset(r)[x] == if x.expiresAt > now then multiset(addrs)[x] else 0
  {
    assert addrs != [] ==> addrs == [addrs[0]] + addrs[1..];
    if addrs == [] then []
    else if addrs[0].expiresAt > now then [addrs[0]] + Unexpired(addrs[1..], now)
    else Unexpired(addrs[1..], now)
  }

  /** The name under which a push files its records. */
  function StoredName(names: seq<NameNode>, name: Name): Name {
    if HasName(names, name) then name else Lower(name)
  }

  lemma {:induction false} StoredNameIsLower(names: seq<NameNode>, name: Name)
    ensures (forall i :: 0 <= i < |names| ==> NodeOk(names[i])) ==> StoredName(names, name) == Lower(name)
  {
    var i := LowerBound(names, name);
    if HasName(names, name) && forall i :: 0 <= i < |names| ==> NodeOk(names[i]) {
      assert NodeOk(names[i]);
    }
  }

  /** The index with another list in its `i`-th node. */
  function SetIps(names: seq<NameNode>, i: nat, ips: seq<Record>): (r: seq<NameNode>)
    requires i < |names|
    ensures |r| == |names|
  {
    names[i := names[i].(ips := ips)]
  }

  lemma {:induction false} SetIpsLast(names: seq<NameNode>, i: nat, a: seq<Record>, b: seq<Record>)
    requires i < |names|
    ensures SetIps(SetIps(names, i, a), i, b) == SetIps(names, i, b)
    ensures SetIps(names, i, a)[i].ips == a
    ensures SetIps(names, i, names[i].ips) == names
    ensures SetIps(names, i, a)[..i] + SetIps(names, i, a)[i + 1..] == names[..i] + names[i + 1..]
  {
  }

  ghost predicate IdsBelow(rs: seq<Record>, id: nat) {
    forall i :: 0 <= i < |rs| ==> rs[i].id < id
  }

  lemma {:induction false} KeepBelow(rs: seq<Record>, id: nat)
    requires IdsBelow(rs, id)
    ensures KeepIds(rs, {id}) == rs
  {
    if rs != [] {
      KeepBelow(rs[1..], id);
    }
  }

  lemma {:induction false} KeepOthers(rs: seq<Record>, id: nat)
    requires forall i :: 0 <= i < |rs| ==> rs[i].id != id
    ensures KeepIds(rs, {id}) == rs
  {
    if rs != [] {
      KeepOthers(rs[1..], id);
    }
  }

  /** Taking the first of the new records out of the list they were pushed onto. */
  lemma {:induction false} UnlinkFirst(recs: seq<Record>, present: seq<Record>)
    requires recs != [] && DistinctIds(recs) && IdsBelow(present, recs[0].id)
    ensures KeepIds(Reverse(recs) + present, {recs[0].id}) == Reverse(recs[1..]) + present
  {
    hide KeepIds;
    var id, r := recs[0].id, recs[0];
    var tail := Reverse(recs[1..]);
    assert forall i :: 0 <= i < |recs[1..]| ==> recs[1..][i].id != id;
    ReverseIds(recs[1..], id);
    KeepOthers(tail, id);
    assert Reverse(recs) + present == tail + ([r] + present);
    KeepIdsAppend(tail, [r] + present, {id});
    KeepIdsAppend([r], present, {id});
    KeepBelow(present, id);
    KeepNone(r);
  }

  lemma {:induction false} KeepNone(r: Record)
    ensures KeepIds([r], {r.id}) == []
  {
    assert [r][1..] == [];
  }

  lemma {:induction false} ReverseIds(recs: seq<Record>, id: nat)
    requires forall i :: 0 <= i < |recs| ==> recs[i].id != id
    ensures forall i :: 0 <= i < |recs| ==> Reverse(recs)[i].id != id
  {
    if recs != [] {
      ReverseIds(recs[1..], id);
    }
  }

  lemma {:induction false} ReverseSnoc(recs: seq<Record>, r: Record)
    ensures Reverse(recs + [r]) == [r] + Reverse(recs)
  {
    if recs == [] {
      assert [] + [r] == [r];
      assert [r][1..] == [];
    } else {
      assert (recs + [r])[1..] == recs[1..] + [r];
      ReverseSnoc(recs[1..], r);
    }
  }

  lemma {:induction false} InsertAllSnoc(rs: seq<Record>, recs: seq<Record>, k: nat)
    requires k < |recs|
    ensures InsertAll(rs, recs[..k + 1]) == InsertExpiry(InsertAll(rs, recs[..k]), recs[k])
    decreases |recs|
  {
    if k == 0 {
      assert recs[..1] == [recs[0]] && recs[..0] == [];
      assert [recs[0]][1..] == [];
    } else {
      assert recs[..k + 1][1..] == recs[1..][..k] && recs[..k][1..] == recs[1..][..k - 1];
      InsertAllSnoc(InsertExpiry(rs, recs[0]), recs[1..], k - 1);
    }
  }

  class MemoryCache {
    var names: seq<NameNode>
    var byExpiry: seq<Record>
    var chunks: nat
    var nextId: nat

    function View(): Cache
      reads this
    {
      Cache(names, byExpiry, chunks)
    }

    /** Identities not yet given out. */
    ghost predicate FreshIds()
      reads this
    {
      && IdsBelow(byExpiry, nextId)
      && forall j :: 0 <= j < |names| ==> IdsBelow(names[j].ips, nextId)
    }

    constructor ()
      ensures View() == Cache([], [], 0) && FreshIds()
    {
      names, byExpiry, chunks, nextId := [], [], 0, 0;
    }

    /** The destructors that run when a push gives up: each record leaves its list and is
        freed, then the buffer, then the node made for the name. */
    method GiveUp(i: nat, recs: seq<Record>, buffered: bool, isNew: bool, ghost present: seq<Record>)
      requires i < |names| && DistinctIds(recs) && names[i].ips == Reverse(recs) + present
      requires forall k :: 0 <= k < |recs| ==> IdsBelow(present, recs[k].id)
      requires chunks >= |recs| + (if buffered then 1 else 0) + (if isNew then 1 else 0)
      modifies this`names, this`chunks
      ensures chunks == old(chunks) - |recs| - (if buffered then 1 else 0) - (if isNew then 1 else 0)
      ensures names == if isNew then old(names)[..i] + old(names)[i + 1..]
                       else SetIps(old(names), i, present)
    {
      hide SetIps, Reverse;
      ghost var before := names;
      var left := recs;
      SetIpsLast(names, i, [], []);
      while left != []
        invariant i < |names| && |left| <= |recs| && left == recs[|recs| - |left|..]
        invariant chunks == old(chunks) - (|recs| - |left|)
        invariant names == SetIps(before, i, Reverse(left) + present)
        decreases |left|
      {
        assert DistinctIds(left);
        UnlinkFirst(left, present);
        SetIpsLast(before, i, Reverse(left) + present, Reverse(left[1..]) + present);
        names := SetIps(names, i, KeepIds(names[i].ips, {left[0].id}));
        chunks := chunks - 1;
        left := left[1..];
      }
      ReverseNone(present);
      SetIpsLast(before, i, present, present);
      if buffered {
        chunks := chunks - 1;
      }
      if isNew {
        names := names[..i] + names[i + 1..];
        chunks := chunks - 1;
      }
    }

    /** The loop over runs of equal expiry: a record for each, pushed to the front of the list.
        It stops where an allocation fails. */
    method FileRecords(i: nat, parent: Name, family: Family, sorted: seq<Resolved>, granted: nat -> bool,
                       firstAttempt: nat, ghost present: seq<Record>) returns (ok: bool, recs: seq<Record>)
      requires i < |names| && names[i].ips == present
      modifies this`names, this`chunks, this`nextId
      ensures names == SetIps(old(names), i, Reverse(recs) + present)
      ensures chunks == old(chunks) + |recs| && nextId == old(nextId) + |recs|
      ensures recs <= Records(sorted, parent, family, old(nextId))
      ensures ok ==> recs == Records(sorted, parent, family, old(nextId))
      ensures (forall n :: granted(n)) ==> ok
    {
      hide Records, Reverse, SetIps, RunLength, Addresses;
      ghost var n1, id0 := names, nextId;
      ghost var all := Records(sorted, parent, family, id0);
      ReverseNone(present);
      recs := [];
      var rest, attempt := sorted, firstAttempt;
      SetIpsLast(n1, i, present, present);
      while rest != []
        invariant recs + Records(rest, parent, family, nextId) == all && nextId == id0 + |recs|
        invariant i < |names| && names == SetIps(n1, i, Reverse(recs) + present)
        invariant chunks == old(chunks) + |recs|
        decreases |rest|
      {
        var k := RunLength(rest);
        RecordsStep(rest, parent, family, nextId);
        if !granted(attempt) {
          return false, recs;
        }
        attempt := attempt + 1;
        chunks := chunks + 1;
        var r := Record(nextId, parent, rest[0].expiresAt, family, Addresses(rest[..k]));
        FiledOne(n1, i, recs, r, present, Records(rest[k..], parent, family, nextId + 1));
        names := SetIps(names, i, [r] + names[i].ips);
        nextId := nextId + 1;
        recs := recs + [r];
        rest := rest[k..];
      }
      RecordsNone(parent, family, nextId);
      assert recs == all;
      return true, recs;
    }

    /** The finished records move from the call's own set into the index by expiry. */
    method Transfer(recs: seq<Record>)
      modifies this`byExpiry
      ensures byExpiry == InsertAll(old(byExpiry), recs)
    {
      ghost var before := byExpiry;
      assert recs[..0] == [];
      var j := 0;
      while j < |recs|
        invariant j <= |recs| && byExpiry == InsertAll(before, recs[..j])
      {
        InsertAllSnoc(before, recs, j);
        byExpiry := InsertExpiry(byExpiry, recs[j]);
        j := j + 1;
      }
      assert recs[..j] == recs;
    }

    /** Files the unexpired addresses under the name, one record for each expiry time. `sorted`
        is what the sort made of them; it need not be stable. `granted(n)` says whether the
        `n`-th allocation of the call succeeds; if one fails, everything is as it was. */
    method Push(name: Name, family: Family, addrs: seq<Resolved>, now: int, sorted: seq<Resolved>,
                granted: nat -> bool) returns (ok: bool)
      requires FreshIds()
      requires Ascending(sorted) && multiset(sorted) == multiset(Unexpired(addrs, now))
      modifies this
      ensures FreshIds()
      ensures ok ==> View() == old(AfterPush(View(), name,
                                             Records(sorted, StoredName(names, name), family, nextId)))
      ensures ok && old(Valid(View())) ==>
                View() == old(AfterPush(View(), name, Records(sorted, Lower(name), family, nextId)))
      ensures !ok ==> View() == old(View())
      ensures (forall n :: granted(n)) ==> ok
    {
      hide Records, InsertAll, Reverse, LowerBound, SetIps, PushNames, IdsBelow, WithName, Lower, NodeOk, StoredName;
      StoredNameIsLower(names, name);
      ghost var names0, expiry0, chunks0, id0 := names, byExpiry, chunks, nextId;
      var i := LowerBound(names, name);
      var isNew := !HasName(names, name);
      var parent := StoredName(names, name);
      var attempt := 0;
      if isNew {
        if !granted(attempt) {
          return false;
        }
        attempt := attempt + 1;
        chunks := chunks + 1;
        names := names[..i] + [NameNode(Lower(name), [])] + names[i..];
      }
      ghost var n1 := names;
      NodeForName(names0, n1, name, i, id0);
      ghost var present := names[i].ips;
      ok := FillNode(i, isNew, parent, family, |addrs| > 0, sorted, granted, attempt, present);
      if !ok {
        StaysFresh(names0, expiry0, id0, nextId);
        return;
      }
      RecordsAreNew(sorted, parent, family, id0);
      ghost var recs := Records(sorted, parent, family, id0);
      PushNamesIsSetIps(names0, name, recs);
      PushedStaysFresh(names0, expiry0, name, recs, id0);
    }

    /** The part of a push behind finding or making the node: a buffer for sorting, the records,
        and the move into the index by expiry; or undoing it all, the node included if it was
        made for this call. */
    method FillNode(i: nat, isNew: bool, parent: Name, family: Family, buffered: bool, sorted: seq<Resolved>,
                    granted: nat -> bool, firstAttempt: nat, ghost present: seq<Record>) returns (ok: bool)
      requires i < |names| && names[i].ips == present && IdsBelow(present, nextId) && (isNew ==> chunks > 0)
      modifies this
      ensures nextId >= old(nextId)
      ensures ok ==> var recs := Records(sorted, parent, family, old(nextId));
                     && names == SetIps(old(names), i, Reverse(recs) + present)
                     && byExpiry == InsertAll(old(byExpiry), recs)
                     && chunks == old(chunks) + |recs| && nextId == old(nextId) + |recs|
      ensures !ok ==> && names == (if isNew then old(names)[..i] + old(names)[i + 1..] else old(names))
                      && byExpiry == old(byExpiry)
                      && chunks == old(chunks) - (if isNew then 1 else 0)
      ensures (forall n :: granted(n)) ==> ok
    {
      hide Records, InsertAll, Reverse, SetIps, IdsBelow;
      ghost var n1, id0 := names, nextId;
      SetIpsLast(n1, i, present, present);
      ReverseNone(present);
      var attempt := firstAttempt;
      if buffered {
        if !granted(attempt) {
          GiveUp(i, [], false, isNew, present);
          return false;
        }
        attempt := attempt + 1;
        chunks := chunks + 1;
      }
      RecordsAreNew(sorted, parent, family, id0);
      var recs;
      ok, recs := FileRecords(i, parent, family, sorted, granted, attempt, present);
      SetIpsLast(n1, i, Reverse(recs) + present, present);
      FiledIds(present, Records(sorted, parent, family, id0), recs, id0);
      if !ok {
        GiveUp(i, recs, buffered, isNew, present);
        return;
      }
      Transfer(recs);
      if buffered {
        chunks := chunks - 1;
      }
    }

    /** Copies addresses out while there is room, skipping expired records. */
    method Pull(name: Name, family: Family, now: int, limit: nat) returns (out: seq<Resolved>)
      ensures out == CacheModel.Pull(View(), name, family, now, limit)
    {
      if |name| > FQDN_MAX_OCTET_LEN {
        return [];
      }
      out := [];
      var key := Lower(name);
      NothingToSelect(family, now, limit);
      if !HasName(names, key) {
        return;
      }
      var ips := names[LowerBound(names, key)].ips;
      var j := 0;
      assert ips[..0] == [];
      while j < |ips| && |out| < limit
        invariant j <= |ips| && |out| <= limit
        invariant out == Chosen(ips[..j], family, now, limit)
      {
        ChosenStep(ips, j, family, now, limit);
        var r := ips[j];
        j := j + 1;
        if r.expiresAt <= now {
          continue;
        }
        var addrs := if r.family == family then r.addrs else [];
        var take := if limit - |out| < |addrs| then limit - |out| else |addrs|;
        ghost var before := out;
        var k := 0;
        while k < take
          invariant k <= take && out == before + Copies(addrs[..k], r.expiresAt)
        {
          assert addrs[..k + 1] == addrs[..k] + [addrs[k]];
          out := out + [Resolved(addrs[k], r.expiresAt)];
          k := k + 1;
        }
      }
      assert ips[..|ips|] == ips;
      ChosenIsFinal(ips, j, family, now, limit);
    }

    /** Takes expired records off the front of the index by expiry, each also out of the list of
        its name, and a name with its last record. */
    method Prune(now: int)
      requires Valid(View())
      modifies this`names, this`byExpiry, this`chunks
      ensures View() == old(AfterPrune(View(), now))
      ensures old(FreshIds()) ==> FreshIds()
    {
      hide Strip, KeepIds, Valid, AfterPrune, LowerBound, SetIps;
      ghost var c := View();
      ghost var k := 0;
      PruneStart(c);
      while byExpiry != [] && byExpiry[0].expiresAt <= now
        invariant 0 <= k <= |c.byExpiry| && byExpiry == c.byExpiry[k..]
        invariant forall i :: 0 <= i < k ==> c.byExpiry[i].expiresAt <= now
        invariant names == Strip(c.names, IdsOf(c.byExpiry[..k]))
        invariant chunks == |names| + |byExpiry|
        decreases |byExpiry|
      {
        var r := byExpiry[0];
        PruneStep(c, names, k);
        var j := LowerBound(names, r.parent);
        byExpiry := byExpiry[1..];
        chunks := chunks - 1;
        var ips := KeepIds(names[j].ips, {r.id});
        if ips == [] {
          names := names[..j] + names[j + 1..];
          chunks := chunks - 1;
        } else {
          names := SetIps(names, j, ips);
        }
        k := k + 1;
      }
      PruneEnd(c, k, now);
      StripIds(c.names, IdsOf(c.byExpiry[..k]), nextId);
    }
  }

  // ---------------------------------------------------------------- for pull

  function Copies(addrs: seq<nat>, expiresAt: int): (r: seq<Resolved>)
    ensures |r| == |addrs| && forall i :: 0 <= i < |r| ==> r[i] == Resolved(addrs[i], expiresAt)
  {
    seq(|addrs|, i requires 0 <= i < |addrs| => Resolved(addrs[i], expiresAt))
  }

  /** What a list of records contributes. */
  function Chosen(rs: seq<Record>, family: Family, now: int, limit: nat): seq<Resolved> {
    First(Results(Select(ListEntries(rs), family, now)), limit)
  }

  lemma {:induction false} NothingToSelect(family: Family, now: int, limit: nat)
    ensures Chosen([], family, now, limit) == []
  {
    assert Results([]) == [];
  }

  lemma {:induction false} ResultsAppend(a: seq<Entry>, b: seq<Entry>)
    ensures Results(a + b) == Results(a) + Results(b)
  {
  }

  lemma {:induction false} SelectRecord(es: seq<Entry>, family: Family, now: int, r: Record)
    requires forall i :: 0 <= i < |es| ==> es[i].family == r.family && es[i].expiresAt == r.expiresAt
    ensures Select(es, family, now) == if r.family == family && r.expiresAt > now then es else []
  {
    if es != [] {
      SelectRecord(es[1..], family, now, r);
    }
  }

  lemma {:induction false} RecordResults(r: Record)
    ensures Results(RecordEntries(r)) == Copies(r.addrs, r.expiresAt)
  {
  }

  lemma {:induction false} ChosenSplit(a: seq<Record>, b: seq<Record>, family: Family, now: int)
    ensures Results(Select(ListEntries(a + b), family, now))
            == Results(Select(ListEntries(a), family, now)) + Results(Select(ListEntries(b), family, now))
  {
    ListEntriesAppend(a, b);
    SelectAppend(ListEntries(a), ListEntries(b), family, now);
    ResultsAppend(Select(ListEntries(a), family, now), Select(ListEntries(b), family, now));
  }

  lemma {:induction false} ChosenOne(r: Record, family: Family, now: int)
    ensures Results(Select(ListEntries([r]), family, now))
            == if r.family == family && r.expiresAt > now then Copies(r.addrs, r.expiresAt) else []
  {
    assert [r][1..] == [];
    assert ListEntries([r]) == RecordEntries(r) + [] == RecordEntries(r);
    SelectRecord(RecordEntries(r), family, now, r);
    RecordResults(r);
    assert Results([]) == [];
  }

  lemma {:induction false} ChosenStep(ips: seq<Record>, j: nat, family: Family, now: int, limit: nat)
    requires j < |ips| && |Chosen(ips[..j], family, now, limit)| < limit
    ensures var before := Chosen(ips[..j], family, now, limit);
            var addrs := if ips[j].family == family && ips[j].expiresAt > now then ips[j].addrs else [];
            var take := if limit - |before| < |addrs| then limit - |before| else |addrs|;
            Chosen(ips[..j + 1], family, now, limit) == before + Copies(addrs[..take], ips[j].expiresAt)
  {
    hide ListEntries, Select, Results, Copies;
    assert ips[..j + 1] == ips[..j] + [ips[j]];
    ChosenSplit(ips[..j], [ips[j]], family, now);
    ChosenOne(ips[j], family, now);
    CopiesFirst(if ips[j].family == family && ips[j].expiresAt > now then ips[j].addrs else [], ips[j].expiresAt);
  }

  lemma {:induction false} CopiesFirst(addrs: seq<nat>, expiresAt: int)
    ensures forall n :: 0 <= n <= |addrs| ==> Copies(addrs[..n], expiresAt) == Copies(addrs, expiresAt)[..n]
    ensures addrs[..|addrs|] == addrs
  {
  }

  lemma {:induction false} ChosenIsFinal(ips: seq<Record>, j: nat, family: Family, now: int, limit: nat)
    requires j <= |ips| && (j == |ips| || |Chosen(ips[..j], family, now, limit)| == limit)
    ensures Chosen(ips[..j], family, now, limit) == Chosen(ips, family, now, limit)
  {
    hide ListEntries, Select, Results;
    assert ips == ips[..j] + ips[j..];
    if j < |ips| {
      ChosenSplit(ips[..j], ips[j..], family, now);
    } else {
      assert ips[..j] == ips;
    }
  }

  // ---------------------------------------------------------------- for prune

  function IdsOf(rs: seq<Record>): (r: set<nat>)
    ensures forall i :: 0 <= i < |rs| ==> rs[i].id in r
    ensures forall x :: x in r ==> exists i :: 0 <= i < |rs| && rs[i].id == x
  {
    set i | 0 <= i < |rs| :: rs[i].id
  }

  /** One record out of the list of its name. */
  function RemoveRecord(names: seq<NameNode>, key: Name, id: nat): seq<NameNode> {
    if names == [] then []
    else if names[0].name == key then
      var ips := KeepIds(names[0].ips, {id});
      (if ips == [] then [] else [names[0].(ips := ips)]) + names[1..]
    else [names[0]] + RemoveRecord(names[1..], key, id)
  }

  lemma {:induction false} RemoveRecordFirst(names: seq<NameNode>, id: nat)
    requires names != []
    ensures var ips := KeepIds(names[0].ips, {id});
            RemoveRecord(names, names[0].name, id)
            == if ips == [] then names[..0] + names[1..] else SetIps(names, 0, ips)
  {
    hide KeepIds;
    var ips := KeepIds(names[0].ips, {id});
    assert [] + names[1..] == names[..0] + names[1..];
    assert [names[0].(ips := ips)] + names[1..] == SetIps(names, 0, ips);
  }

  lemma {:induction false} ConsSetIps(names: seq<NameNode>, j: nat, ips: seq<Record>)
    requires 0 < j < |names|
    ensures [names[0]] + SetIps(names[1..], j - 1, ips) == SetIps(names, j, ips)
    ensures [names[0]] + (names[1..][..j - 1] + names[1..][j..]) == names[..j] + names[j + 1..]
  {
  }

  lemma {:induction false} RemoveRecordAt(names: seq<NameNode>, j: nat, id: nat)
    requires StrictlySorted(names) && j < |names|
    ensures var ips := KeepIds(names[j].ips, {id});
            RemoveRecord(names, names[j].name, id)
            == if ips == [] then names[..j] + names[j + 1..] else SetIps(names, j, ips)
  {
    hide KeepIds, SetIps;
    if j == 0 {
      RemoveRecordFirst(names, id);
    } else {
      FirstNameDiffers(names, j);
      SortedTail(names);
      RemoveRecordAt(names[1..], j - 1, id);
      ConsSetIps(names, j, KeepIds(names[j].ips, {id}));
    }
  }

  lemma {:induction false} FirstNameDiffers(names: seq<NameNode>, j: nat)
    requires StrictlySorted(names) && 0 < j < |names|
    ensures names[0].name != names[j].name && names[1..][j - 1] == names[j]
  {
    Lex.LessIrreflexive(names[j].name);
  }

  lemma {:induction false} SortedTail(names: seq<NameNode>)
    requires StrictlySorted(names) && names != []
    ensures StrictlySorted(names[1..])
  {
    assert forall i :: 0 < i < |names| ==> names[i] == names[1..][i - 1];
  }

  lemma {:induction false} KeepSame(rs: seq<Record>, gone: set<nat>, id: nat)
    requires forall k :: 0 <= k < |rs| ==> rs[k].id != id
    ensures KeepIds(rs, gone + {id}) == KeepIds(rs, gone)
  {
    if rs != [] {
      KeepSame(rs[1..], gone, id);
    }
  }

  ghost predicate OnlyUnder(names: seq<NameNode>, r: Record) {
    && (forall i, k :: 0 <= i < |names| && 0 <= k < |names[i].ips| && names[i].ips[k].id == r.id ==>
          names[i].name == r.parent)
    && (forall i :: 0 <= i < |names| && names[i].name == r.parent ==> r in names[i].ips)
  }

  lemma {:induction false} StripOther(names: seq<NameNode>, gone: set<nat>, id: nat)
    requires forall i, k :: 0 <= i < |names| && 0 <= k < |names[i].ips| ==> names[i].ips[k].id != id
    ensures Strip(names, gone + {id}) == Strip(names, gone)
  {
    if names != [] {
      assert forall k :: 0 <= k < |names[0].ips| ==> names[0].ips[k].id != id;
      KeepSame(names[0].ips, gone, id);
      assert forall i :: 0 < i < |names| ==> names[i] == names[1..][i - 1];
      StripOther(names[1..], gone, id);
    }
  }

  lemma {:induction false} StripRemove(names: seq<NameNode>, gone: set<nat>, r: Record)
    requires StrictlySorted(names) && OnlyUnder(names, r) && r.id !in gone
    ensures RemoveRecord(Strip(names, gone), r.parent, r.id) == Strip(names, gone + {r.id})
  {
    if names != [] {
      assert forall i :: 0 < i < |names| ==> names[i] == names[1..][i - 1];
      var rest := Strip(names[1..], gone);
      var ips := KeepIds(names[0].ips, gone);
      if names[0].name == r.parent {
        KeepIdsMember(names[0].ips, gone, r);
        KeepIdsTwice(names[0].ips, gone, {r.id});
        Lex.LessIrreflexive(r.parent);
        StripOther(names[1..], gone, r.id);
        assert ([names[0].(ips := ips)] + rest)[1..] == rest;
      } else {
        KeepSame(names[0].ips, gone, r.id);
        StripRemove(names[1..], gone, r);
        if !(ips == [] && names[0].ips != []) {
          assert ([names[0].(ips := ips)] + rest)[1..] == rest;
        }
      }
    }
  }

  lemma {:induction false} ListedHas(names: seq<NameNode>, r: Record) returns (i: nat)
    requires r in Listed(names)
    ensures i < |names| && r in names[i].ips
  {
    if r in names[0].ips {
      i := 0;
    } else {
      assert r in Listed(names[1..]);
      var j := ListedHas(names[1..], r);
      i := j + 1;
    }
  }

  lemma {:induction false} ValidOnlyUnder(c: Cache, k: nat) returns (i: nat)
    requires Valid(c) && k < |c.byExpiry|
    ensures OnlyUnder(c.names, c.byExpiry[k])
    ensures i < |c.names| && c.names[i].name == c.byExpiry[k].parent && c.byExpiry[k] in c.names[i].ips
  {
    hide Listed;
    var r := c.byExpiry[k];
    assert r in multiset(c.byExpiry) && r in multiset(Listed(c.names));
    i := ListedHas(c.names, r);
    assert NodeOk(c.names[i]);
    forall a, b | 0 <= a < |c.names| && 0 <= b < |c.names[a].ips| && c.names[a].ips[b].id == r.id
      ensures c.names[a].name == r.parent
    {
      ListedMember(c.names, a, b);
      var x := c.names[a].ips[b];
      assert x in multiset(Listed(c.names)) && x in multiset(c.byExpiry);
      var m :| 0 <= m < |c.byExpiry| && c.byExpiry[m] == x;
      assert m == k;
      assert NodeOk(c.names[a]);
    }
    forall a | 0 <= a < |c.names| && c.names[a].name == r.parent ensures a == i {
      Lex.LessIrreflexive(r.parent);
    }
  }

  lemma {:induction false} StripKeepsNode(names: seq<NameNode>, gone: set<nat>, i: nat, r: Record)
    requires i < |names| && r in names[i].ips && r.id !in gone
    ensures exists j :: 0 <= j < |Strip(names, gone)| && Strip(names, gone)[j].name == names[i].name
  {
    var s := Strip(names, gone);
    if i == 0 {
      KeepIdsMember(names[0].ips, gone, r);
      assert s[0].name == names[0].name;
    } else {
      StripKeepsNode(names[1..], gone, i - 1, r);
      var rest := Strip(names[1..], gone);
      var j :| 0 <= j < |rest| && rest[j].name == names[i].name;
      assert s == rest || s[1..] == rest;
      assert rest[j] == if s == rest then s[j] else s[j + 1];
    }
  }

  lemma {:induction false} PruneStep(c: Cache, names: seq<NameNode>, k: nat)
    requires Valid(c) && k < |c.byExpiry| && names == Strip(c.names, IdsOf(c.byExpiry[..k]))
    ensures var r := c.byExpiry[k];
            var j := LowerBound(names, r.parent);
            && j < |names|
            && var ips := KeepIds(names[j].ips, {r.id});
               Strip(c.names, IdsOf(c.byExpiry[..k + 1]))
               == if ips == [] then names[..j] + names[j + 1..] else SetIps(names, j, ips)
  {
    hide Strip, KeepIds, LowerBound, SetIps, Listed, IdsOf, OnlyUnder, RemoveRecord, StrictlySorted, NodeOk;
    var r := c.byExpiry[k];
    var gone := IdsOf(c.byExpiry[..k]);
    NextIsNotGone(c.byExpiry, k);
    var i := ValidOnlyUnder(c, k);
    StripSorted(c.names, gone);
    StripKeepsNode(c.names, gone, i, r);
    var m :| 0 <= m < |names| && names[m].name == c.names[i].name;
    NodeIsFound(names, m);
    StripRemove(c.names, gone, r);
    RemoveRecordAt(names, m, r.id);
  }

  lemma {:induction false} NextIsNotGone(rs: seq<Record>, k: nat)
    requires DistinctIds(rs) && k < |rs|
    ensures rs[k].id !in IdsOf(rs[..k])
    ensures IdsOf(rs[..k + 1]) == IdsOf(rs[..k]) + {rs[k].id}
  {
    assert rs[..k + 1] == rs[..k] + [rs[k]];
    IdsOfSnoc(rs[..k], rs[k]);
  }

  lemma {:induction false} IdsOfSnoc(rs: seq<Record>, r: Record)
    ensures IdsOf(rs + [r]) == IdsOf(rs) + {r.id}
  {
    var t := rs + [r];
    forall x | x in IdsOf(rs) ensures x in IdsOf(t) {
      var i :| 0 <= i < |rs| && rs[i].id == x;
      assert t[i].id == x;
    }
    assert t[|rs|].id in IdsOf(t);
  }

  lemma {:induction false} KeepEverything(rs: seq<Record>, gone: set<nat>)
    requires forall i :: 0 <= i < |rs| ==> rs[i].id !in gone
    ensures KeepIds(rs, gone) == rs
  {
    if rs != [] {
      KeepEverything(rs[1..], gone);
    }
  }

  lemma {:induction false} KeepNothing(rs: seq<Record>, gone: set<nat>)
    requires forall i :: 0 <= i < |rs| ==> rs[i].id in gone
    ensures KeepIds(rs, gone) == []
  {
    if rs != [] {
      KeepNothing(rs[1..], gone);
    }
  }

  lemma {:induction false} StripNothing(names: seq<NameNode>)
    ensures Strip(names, {}) == names
  {
    if names != [] {
      StripNothing(names[1..]);
      KeepEverything(names[0].ips, {});
    }
  }

  lemma {:induction false} StripIds(names: seq<NameNode>, gone: set<nat>, id: nat)
    ensures (forall j :: 0 <= j < |names| ==> IdsBelow(names[j].ips, id)) ==>
            forall j :: 0 <= j < |Strip(names, gone)| ==> IdsBelow(Strip(names, gone)[j].ips, id)
  {
    if names != [] && forall j :: 0 <= j < |names| ==> IdsBelow(names[j].ips, id) {
      assert IdsBelow(names[0].ips, id);
      StripIds(names[1..], gone, id);
      KeepIdsMembers(names[0].ips, gone);
      assert IdsBelow(KeepIds(names[0].ips, gone), id);
    }
  }

  lemma {:induction false} PruneStart(c: Cache)
    requires Valid(c)
    ensures c.names == Strip(c.names, IdsOf(c.byExpiry[..0])) && c.chunks == |c.names| + |c.byExpiry|
  {
    StripNothing(c.names);
    assert IdsOf(c.byExpiry[..0]) == {};
  }

  lemma {:induction false} PruneEnd(c: Cache, k: nat, now: int)
    requires Valid(c) && k <= |c.byExpiry|
    requires forall i :: 0 <= i < k ==> c.byExpiry[i].expiresAt <= now
    requires k < |c.byExpiry| ==> c.byExpiry[k].expiresAt > now
    ensures var names, rest := Strip(c.names, IdsOf(c.byExpiry[..k])), c.byExpiry[k..];
            AfterPrune(c, now) == Cache(names, rest, |names| + |rest|)
  {
    hide Strip, KeepIds, Listed, IdsOf, ExpiredIds, StrictlySorted, NodeOk;
    PrefixIsExpired(c.byExpiry, k, now);
    SuffixIsKept(c.byExpiry, k);
  }

  lemma {:induction false} PrefixIsExpired(rs: seq<Record>, k: nat, now: int)
    requires SortedByExpiry(rs) && k <= |rs|
    requires forall i :: 0 <= i < k ==> rs[i].expiresAt <= now
    requires k < |rs| ==> rs[k].expiresAt > now
    ensures IdsOf(rs[..k]) == ExpiredIds(rs, now)
  {
    forall x | x in ExpiredIds(rs, now) ensures x in IdsOf(rs[..k]) {
      var i :| 0 <= i < |rs| && rs[i].id == x && rs[i].expiresAt <= now;
      assert i < k;
      assert rs[..k][i].id == x;
    }
    forall x | x in IdsOf(rs[..k]) ensures x in ExpiredIds(rs, now) {
      var i :| 0 <= i < |rs[..k]| && rs[..k][i].id == x;
      assert rs[i].id == x;
    }
  }

  lemma {:induction false} SuffixIsKept(rs: seq<Record>, k: nat)
    requires DistinctIds(rs) && k <= |rs|
    ensures KeepIds(rs, IdsOf(rs[..k])) == rs[k..]
  {
    hide KeepIds;
    var gone := IdsOf(rs[..k]);
    assert rs == rs[..k] + rs[k..];
    KeepIdsAppend(rs[..k], rs[k..], gone);
    KeepNothing(rs[..k], gone);
    forall i | 0 <= i < |rs[k..]| ensures rs[k..][i].id !in gone {
      assert rs[k..][i] == rs[k + i];
    }
    KeepEverything(rs[k..], gone);
  }

  lemma {:induction false} NodeForName(names: seq<NameNode>, n1: seq<NameNode>, name: Name, i: nat, id: nat)
    requires i == LowerBound(names, name)
    requires n1 == if HasName(names, name) then names else names[..i] + [NameNode(Lower(name), [])] + names[i..]
    requires forall j :: 0 <= j < |names| ==> IdsBelow(names[j].ips, id)
    ensures n1 == WithName(names, name) && i < |n1| && IdsBelow(n1[i].ips, id)
    ensures !HasName(names, name) ==> n1[..i] + n1[i + 1..] == names
  {
  }

  lemma {:induction false} PushNamesIsSetIps(names: seq<NameNode>, name: Name, recs: seq<Record>)
    ensures var i := LowerBound(names, name);
            var n1 := WithName(names, name);
            i < |n1| && PushNames(names, name, recs) == SetIps(n1, i, Reverse(recs) + n1[i].ips)
  {
  }

  lemma {:induction false} FiledIds(present: seq<Record>, all: seq<Record>, recs: seq<Record>, id: nat)
    requires IdsBelow(present, id) && recs <= all && DistinctIds(all)
    requires forall i :: 0 <= i < |all| ==> all[i].id == id + i
    ensures DistinctIds(recs) && forall k :: 0 <= k < |recs| ==> recs[k].id == id + k && IdsBelow(present, recs[k].id)
  {
    assert recs == all[..|recs|];
  }

  lemma {:induction false} StaysFresh(names: seq<NameNode>, byExpiry: seq<Record>, id: nat, next: nat)
    requires IdsBelow(byExpiry, id) && (forall j :: 0 <= j < |names| ==> IdsBelow(names[j].ips, id)) && id <= next
    ensures IdsBelow(byExpiry, next) && forall j :: 0 <= j < |names| ==> IdsBelow(names[j].ips, next)
  {
  }

  lemma {:induction false} ReverseNone(present: seq<Record>)
    ensures Reverse([]) + present == present
  {
  }

  lemma {:induction false} RecordsNone(parent: Name, family: Family, id: nat)
    ensures Records([], parent, family, id) == []
  {
  }

  lemma {:induction false} RecordsStep(rest: seq<Resolved>, parent: Name, family: Family, id: nat)
    requires rest != []
    ensures var k := RunLength(rest);
            Records(rest, parent, family, id)
            == [Record(id, parent, rest[0].expiresAt, family, Addresses(rest[..k]))]
               + Records(rest[k..], parent, family, id + 1)
  {
  }

  /** One more record at the front of the list of node `i`. */
  lemma {:induction false} FiledOne(names: seq<NameNode>, i: nat, recs: seq<Record>, r: Record, present: seq<Record>,
                                    more: seq<Record>)
    requires i < |names|
    ensures var was := Reverse(recs) + present;
            && SetIps(names, i, was)[i].ips == was
            && SetIps(SetIps(names, i, was), i, [r] + was) == SetIps(names, i, Reverse(recs + [r]) + present)
    ensures recs + ([r] + more) == (recs + [r]) + more
  {
    hide Reverse, SetIps;
    ReverseSnoc(recs, r);
    var was := Reverse(recs) + present;
    assert [r] + was == Reverse(recs + [r]) + present;
    SetIpsLast(names, i, was, [r] + was);
  }

  lemma {:induction false} IdsBelowAmong(all: seq<Record>, a: seq<Record>, b: seq<Record>, id: nat)
    requires IdsBelow(a, id) && IdsBelow(b, id) && multiset(all) == multiset(a) + multiset(b)
    ensures IdsBelow(all, id)
  {
    forall k | 0 <= k < |all| ensures all[k].id < id {
      assert all[k] in multiset(all);
      assert all[k] in multiset(a) || all[k] in multiset(b);
      assert all[k] in a || all[k] in b;
    }
  }

  lemma {:induction false} WithNameAt(names: seq<NameNode>, name: Name, j: nat)
    requires j < |WithName(names, name)|
    ensures WithName(names, name)[j].ips == [] || WithName(names, name)[j] in names
  {
    var i := LowerBound(names, name);
    assert !HasName(names, name) ==>
      WithName(names, name)[j]
      == if j < i then names[j] else if j == i then NameNode(Lower(name), []) else names[j - 1];
  }

  lemma {:induction false} PushedStaysFresh(names: seq<NameNode>, byExpiry: seq<Record>, name: Name,
                                            recs: seq<Record>, id: nat)
    requires IdsBelow(byExpiry, id) && forall j :: 0 <= j < |names| ==> IdsBelow(names[j].ips, id)
    requires forall k :: 0 <= k < |recs| ==> recs[k].id == id + k
    ensures IdsBelow(InsertAll(byExpiry, recs), id + |recs|)
    ensures forall j :: 0 <= j < |PushNames(names, name, recs)| ==>
              IdsBelow(PushNames(names, name, recs)[j].ips, id + |recs|)
  {
    hide InsertAll, WithName, Reverse, LowerBound;
    var next := id + |recs|;
    assert IdsBelow(recs, next);
    IdsBelowAmong(InsertAll(byExpiry, recs), byExpiry, recs, next);
    ReverseMultiset(recs);
    IdsBelowAmong(Reverse(recs), recs, [], next);
    var n1 := WithName(names, name);
    forall j | 0 <= j < |n1| ensures IdsBelow(PushNames(names, name, recs)[j].ips, next) {
      WithNameAt(names, name, j);
      assert IdsBelow(n1[j].ips, next);
      assert IdsBelow(Reverse(recs) + n1[j].ips, next);
    }
  }
}
