/** Pruning, whole runs of the cache, and the letter case of names. */
module CacheRuns {
  import opened Basics
  import opened DnsParser
  import opened CacheModel
  import opened CacheNames
  import opened CacheAnswers
  import Lex

  // ---------------------------------------------------------------- prune

  function KeepIds(rs: seq<Record>, gone: set<nat>): seq<Record> {
    if rs == [] then []
    else if rs[0].id in gone then KeepIds(rs[1..], gone)
    else [rs[0]] + KeepIds(rs[1..], gone)
  }

  /** Records out of the lists; a name whose last record went goes with it. A name that never
      had a record stays. */
  function Strip(names: seq<NameNode>, gone: set<nat>): seq<NameNode> {
    if names == [] then []
    else
      var ips := KeepIds(names[0].ips, gone);
      if ips == [] && names[0].ips != [] then Strip(names[1..], gone)
      else [names[0].(ips := ips)] + Strip(names[1..], gone)
  }

  function ExpiredIds(rs: seq<Record>, now: int): (r: set<nat>)
    ensures forall i :: 0 <= i < |rs| && rs[i].expiresAt <= now ==> rs[i].id in r
    ensures forall x :: x in r ==> exists i :: 0 <= i < |rs| && rs[i].id == x && rs[i].expiresAt <= now
  {
    set i | 0 <= i < |rs| && rs[i].expiresAt <= now :: rs[i].id
  }

  function AfterPrune(c: Cache, now: int): Cache {
    var gone := ExpiredIds(c.byExpiry, now);
    var names, rest := Strip(c.names, gone), KeepIds(c.byExpiry, gone);
    Cache(names, rest, |names| + |rest|)
  }

  lemma {:induction false} KeepIdsAppend(a: seq<Record>, b: seq<Record>, gone: set<nat>)
    ensures KeepIds(a + b, gone) == KeepIds(a, gone) + KeepIds(b, gone)
  {
    if a == [] {
      assert a + b == b;
    } else {
      assert (a + b)[1..] == a[1..] + b;
      KeepIdsAppend(a[1..], b, gone);
    }
  }

  lemma {:induction false} KeepIdsTwice(rs: seq<Record>, a: set<nat>, b: set<nat>)
    ensures KeepIds(KeepIds(rs, a), b) == KeepIds(rs, a + b)
  {
    if rs != [] {
      KeepIdsTwice(rs[1..], a, b);
      if rs[0].id !in a {
        var k := KeepIds(rs[1..], a);
        assert ([rs[0]] + k)[1..] == k;
      }
    }
  }

  lemma {:induction false} KeepIdsCount(rs: seq<Record>, gone: set<nat>, x: Record)
    ensures multiset(KeepIds(rs, gone))[x] == if x.id in gone then 0 else multiset(rs)[x]
  {
    if rs != [] {
      KeepIdsCount(rs[1..], gone, x);
      assert rs == [rs[0]] + rs[1..];
    }
  }

  lemma {:induction false} KeepIdsMember(rs: seq<Record>, gone: set<nat>, r: Record)
    ensures r in KeepIds(rs, gone) <==> r in rs && r.id !in gone
  {
    if rs != [] {
      KeepIdsMember(rs[1..], gone, r);
      assert rs == [rs[0]] + rs[1..];
    }
  }

  lemma {:induction false} KeepIdsMembers(rs: seq<Record>, gone: set<nat>)
    ensures forall i :: 0 <= i < |KeepIds(rs, gone)| ==> KeepIds(rs, gone)[i] in rs && KeepIds(rs, gone)[i].id !in gone
  {
    forall i | 0 <= i < |KeepIds(rs, gone)| ensures KeepIds(rs, gone)[i] in rs && KeepIds(rs, gone)[i].id !in gone {
      KeepIdsMember(rs, gone, KeepIds(rs, gone)[i]);
    }
  }

  lemma {:induction false} KeepIdsOrder(rs: seq<Record>, gone: set<nat>)
    requires SortedByExpiry(rs) && DistinctIds(rs)
    ensures SortedByExpiry(KeepIds(rs, gone)) && DistinctIds(KeepIds(rs, gone))
  {
    if rs != [] {
      assert forall i :: 0 < i < |rs| ==> rs[i] == rs[1..][i - 1];
      KeepIdsOrder(rs[1..], gone);
      KeepIdsMembers(rs[1..], gone);
      var k := KeepIds(rs[1..], gone);
      forall i | 0 <= i < |k| ensures rs[0].expiresAt <= k[i].expiresAt && rs[0].id != k[i].id {
        var j :| 0 <= j < |rs[1..]| && rs[1..][j] == k[i];
        assert rs[j + 1] == k[i];
      }
    }
  }

  lemma {:induction false} KeepIdsSameMultiset(a: seq<Record>, b: seq<Record>, gone: set<nat>)
    requires multiset(a) == multiset(b)
    ensures multiset(KeepIds(a, gone)) == multiset(KeepIds(b, gone))
  {
    forall x: Record ensures multiset(KeepIds(a, gone))[x] == multiset(KeepIds(b, gone))[x] {
      KeepIdsCount(a, gone, x);
      KeepIdsCount(b, gone, x);
    }
  }

  lemma {:induction false} StripListed(names: seq<NameNode>, gone: set<nat>)
    ensures Listed(Strip(names, gone)) == KeepIds(Listed(names), gone)
  {
    if names != [] {
      StripListed(names[1..], gone);
      KeepIdsAppend(names[0].ips, Listed(names[1..]), gone);
      var ips := KeepIds(names[0].ips, gone);
      if !(ips == [] && names[0].ips != []) {
        var r := [names[0].(ips := ips)] + Strip(names[1..], gone);
        assert r[1..] == Strip(names[1..], gone);
      }
    }
  }

  lemma {:induction false} StripSorted(names: seq<NameNode>, gone: set<nat>)
    requires StrictlySorted(names) && forall i :: 0 <= i < |names| ==> NodeOk(names[i])
    ensures StrictlySorted(Strip(names, gone))
    ensures forall i :: 0 <= i < |Strip(names, gone)| ==> NodeOk(Strip(names, gone)[i])
    ensures forall i :: 0 <= i < |Strip(names, gone)| ==>
              exists j :: 0 <= j < |names| && names[j].name == Strip(names, gone)[i].name
  {
    if names != [] {
      var tail := names[1..];
      assert forall i :: 0 < i < |names| ==> names[i] == tail[i - 1];
      StripSorted(tail, gone);
      StripHeadOk(names[0], gone);
      StrippedConsSorted(names, Strip(tail, gone), names[0].(ips := KeepIds(names[0].ips, gone)));
    }
  }

  /** A node in front of what is left of the nodes behind it. */
  lemma {:induction false} StrippedConsSorted(names: seq<NameNode>, rest: seq<NameNode>, n: NameNode)
    requires names != [] && StrictlySorted(names) && n.name == names[0].name && StrictlySorted(rest)
    requires forall i :: 0 <= i < |rest| ==> exists j :: 0 <= j < |names[1..]| && names[1..][j].name == rest[i].name
    ensures StrictlySorted([n] + rest)
    ensures forall i :: 0 <= i < |rest| ==> exists j :: 0 <= j < |names| && names[j].name == rest[i].name
    ensures forall i :: 0 <= i < |[n] + rest| ==> exists j :: 0 <= j < |names| && names[j].name == ([n] + rest)[i].name
  {
    forall i | 0 <= i < |rest|
      ensures Lex.Less(n.name, rest[i].name)
      ensures exists j :: 0 <= j < |names| && names[j].name == rest[i].name
    {
      var j :| 0 <= j < |names[1..]| && names[1..][j].name == rest[i].name;
      assert names[j + 1].name == rest[i].name;
    }
    assert names[0].name == n.name;
  }

  lemma {:induction false} StripHeadOk(n: NameNode, gone: set<nat>)
    requires NodeOk(n)
    ensures NodeOk(n.(ips := KeepIds(n.ips, gone)))
  {
    KeepIdsMembers(n.ips, gone);
  }

  /** Expiry tells which identities go. */
  lemma {:induction false} ExpiredIffGone(rs: seq<Record>, now: int, r: Record)
    requires DistinctIds(rs) && r in rs
    ensures r.id in ExpiredIds(rs, now) <==> r.expiresAt <= now
  {
  }

  /** Pruning keeps the two indexes consistent. */
  lemma {:induction false} PruneKeepsValid(c: Cache, now: int)
    requires Valid(c)
    ensures Valid(AfterPrune(c, now))
  {
    hide Strip, KeepIds, Listed, NodeOk, StrictlySorted, ExpiredIds;
    var gone := ExpiredIds(c.byExpiry, now);
    StripSorted(c.names, gone);
    KeepIdsOrder(c.byExpiry, gone);
    KeepIdsSameMultiset(c.byExpiry, Listed(c.names), gone);
    StripListed(c.names, gone);
  }

  /** A prune takes out exactly the expired records. */
  lemma {:induction false} PruneDropsExpired(c: Cache, now: int, r: Record)
    requires Valid(c)
    ensures r in AfterPrune(c, now).byExpiry <==> r in c.byExpiry && r.expiresAt > now
  {
    hide Strip, Listed;
    KeptIff(c.byExpiry, ExpiredIds(c.byExpiry, now), r);
    if r in c.byExpiry {
      ExpiredIffGone(c.byExpiry, now, r);
    }
  }

  lemma {:induction false} KeptIff(rs: seq<Record>, gone: set<nat>, r: Record)
    ensures r in KeepIds(rs, gone) <==> r in rs && r.id !in gone
  {
    if rs != [] {
      KeptIff(rs[1..], gone, r);
      assert rs == [rs[0]] + rs[1..];
    }
  }

  /** A name stays if and only if it has an unexpired record left or never had one. */
  lemma {:induction false} PruneKeepsNameIff(c: Cache, now: int, key: Name)
    requires Valid(c)
    ensures (exists i :: 0 <= i < |AfterPrune(c, now).names| && AfterPrune(c, now).names[i].name == key) <==>
            (exists j :: 0 <= j < |c.names| && c.names[j].name == key && Lasts(c.names[j], now))
  {
    hide Strip, ExpiredIds, Listed, Stays, Lasts, KeepIds, Valid;
    var gone := ExpiredIds(c.byExpiry, now);
    StripHasIff(c.names, gone, key);
    forall j | 0 <= j < |c.names| ensures Stays(c.names[j], gone) <==> Lasts(c.names[j], now) {
      StaysIffLasts(c, j, now);
    }
    assert AfterPrune(c, now).names == Strip(c.names, gone);
  }

  ghost predicate Lasts(n: NameNode, now: int) {
    n.ips == [] || exists k :: 0 <= k < |n.ips| && n.ips[k].expiresAt > now
  }

  ghost predicate Stays(n: NameNode, gone: set<nat>) {
    n.ips == [] || KeepIds(n.ips, gone) != []
  }

  lemma {:induction false} StaysIffLasts(c: Cache, j: nat, now: int)
    requires Valid(c) && j < |c.names|
    ensures Stays(c.names[j], ExpiredIds(c.byExpiry, now)) <==> Lasts(c.names[j], now)
  {
    hide ExpiredIds, KeepIds, Listed;
    var ips, gone := c.names[j].ips, ExpiredIds(c.byExpiry, now);
    forall k | 0 <= k < |ips| ensures ips[k] in KeepIds(ips, gone) <==> ips[k].expiresAt > now {
      ListedMember(c.names, j, k);
      assert ips[k] in multiset(Listed(c.names));
      assert ips[k] in multiset(c.byExpiry);
      ExpiredIffGone(c.byExpiry, now, ips[k]);
      KeptIff(ips, gone, ips[k]);
    }
    var kept := KeepIds(ips, gone);
    if kept != [] {
      KeptIff(ips, gone, kept[0]);
      var k :| 0 <= k < |ips| && ips[k] == kept[0];
    }
  }

  lemma {:induction false} StripHasIff(names: seq<NameNode>, gone: set<nat>, key: Name)
    ensures (exists i :: 0 <= i < |Strip(names, gone)| && Strip(names, gone)[i].name == key) <==>
            (exists j :: 0 <= j < |names| && names[j].name == key && Stays(names[j], gone))
  {
    if names != [] {
      StripHasIff(names[1..], gone, key);
      var rest := Strip(names[1..], gone);
      assert forall j :: 0 < j < |names| ==> names[j] == names[1..][j - 1];
      StripHasCons(names, gone, key, rest);
    }
  }

  lemma {:induction false} StripHasCons(names: seq<NameNode>, gone: set<nat>, key: Name, rest: seq<NameNode>)
    requires names != [] && rest == Strip(names[1..], gone)
    requires (exists i :: 0 <= i < |rest| && rest[i].name == key) <==>
             (exists j :: 0 <= j < |names[1..]| && names[1..][j].name == key && Stays(names[1..][j], gone))
    ensures (exists i :: 0 <= i < |Strip(names, gone)| && Strip(names, gone)[i].name == key) <==>
            (exists j :: 0 <= j < |names| && names[j].name == key && Stays(names[j], gone))
  {
    hide Stays;
    var all := Strip(names, gone);
    HeadStays(names, gone);
    if i :| 0 <= i < |all| && all[i].name == key {
      if Stays(names[0], gone) && i == 0 {
        assert names[0].name == key;
      } else {
        var i1 := if Stays(names[0], gone) then i - 1 else i;
        assert rest[i1].name == key;
        var j :| 0 <= j < |names[1..]| && names[1..][j].name == key && Stays(names[1..][j], gone);
        assert names[j + 1].name == key;
      }
    }
    if j :| 0 <= j < |names| && names[j].name == key && Stays(names[j], gone) {
      if j == 0 {
        assert all[0].name == key;
      } else {
        assert names[1..][j - 1].name == key;
        var i :| 0 <= i < |rest| && rest[i].name == key;
        assert all[if Stays(names[0], gone) then i + 1 else i].name == key;
      }
    }
  }

  lemma {:induction false} HeadStays(names: seq<NameNode>, gone: set<nat>)
    requires names != []
    ensures var rest := Strip(names[1..], gone);
            Strip(names, gone)
            == if Stays(names[0], gone) then [names[0].(ips := KeepIds(names[0].ips, gone))] + rest else rest
  {
  }

  // ---------------------------------------------------------------- pruning and the flat list

  /** What has not expired. */
  function Alive(es: Flat, now: int): (r: Flat)
    ensures forall e :: multiset(r)[e] == if e.expiresAt > now then multiset(es)[e] else 0
  {
    assert es != [] ==> es == [es[0]] + es[1..];
    if es == [] then []
    else if es[0].expiresAt > now then [es[0]] + Alive(es[1..], now)
    else Alive(es[1..], now)
  }

  lemma {:induction false} AliveAppend(a: Flat, b: Flat, now: int)
    ensures Alive(a + b, now) == Alive(a, now) + Alive(b, now)
  {
    if a == [] {
      assert a + b == b;
    } else {
      assert (a + b)[1..] == a[1..] + b;
      AliveAppend(a[1..], b, now);
    }
  }

  lemma {:induction false} AliveUniform(es: Flat, expiresAt: int, now: int)
    requires forall i :: 0 <= i < |es| ==> es[i].expiresAt == expiresAt
    ensures Alive(es, now) == if expiresAt > now then es else []
  {
    if es != [] {
      AliveUniform(es[1..], expiresAt, now);
    }
  }

  lemma {:induction false} AliveForName(flat: Flat, now: int, key: Name)
    ensures ForName(Alive(flat, now), key) == Alive(ForName(flat, key), now)
  {
    if flat != [] {
      AliveForName(flat[1..], now, key);
      if flat[0].expiresAt > now {
        assert ([flat[0]] + Alive(flat[1..], now))[1..] == Alive(flat[1..], now);
      }
      if flat[0].name == key {
        assert ([flat[0]] + ForName(flat[1..], key))[1..] == ForName(flat[1..], key);
      }
    }
  }

  lemma {:induction false} AliveList(rs: seq<Record>, gone: set<nat>, now: int)
    requires forall i :: 0 <= i < |rs| ==> (rs[i].id in gone <==> rs[i].expiresAt <= now)
    ensures ListEntries(KeepIds(rs, gone)) == Alive(ListEntries(rs), now)
  {
    if rs != [] {
      AliveList(rs[1..], gone, now);
      AliveAppend(RecordEntries(rs[0]), ListEntries(rs[1..]), now);
      AliveUniform(RecordEntries(rs[0]), rs[0].expiresAt, now);
      if rs[0].id !in gone {
        var k := KeepIds(rs[1..], gone);
        assert ([rs[0]] + k)[1..] == k;
      } else {
        assert [] + Alive(ListEntries(rs[1..]), now) == Alive(ListEntries(rs[1..]), now);
      }
    }
  }

  /** Linear search by name. */
  function Assoc(names: seq<NameNode>, key: Name): seq<Record> {
    if names == [] then [] else if names[0].name == key then names[0].ips else Assoc(names[1..], key)
  }

  lemma {:induction false} ListOfIsAssoc(names: seq<NameNode>, key: Name)
    requires StrictlySorted(names)
    ensures ListOf(names, key) == Assoc(names, key)
  {
    hide ListOf;
    ListOfNode(names, key);
    AssocNode(names, key);
  }

  lemma {:induction false} AssocNode(names: seq<NameNode>, key: Name)
    ensures (exists j :: 0 <= j < |names| && names[j].name == key && Assoc(names, key) == names[j].ips)
         || ((forall j :: 0 <= j < |names| ==> names[j].name != key) && Assoc(names, key) == [])
  {
    if names != [] && names[0].name != key {
      AssocNode(names[1..], key);
      if j :| 0 <= j < |names[1..]| && names[1..][j].name == key && Assoc(names[1..], key) == names[1..][j].ips {
        assert names[j + 1].name == key && Assoc(names, key) == names[j + 1].ips;
      }
    }
  }

  lemma {:induction false} AssocAbsent(names: seq<NameNode>, key: Name)
    requires forall j :: 0 <= j < |names| ==> names[j].name != key
    ensures Assoc(names, key) == []
  {
    if names != [] {
      AssocAbsent(names[1..], key);
    }
  }

  lemma {:induction false} StripAssoc(names: seq<NameNode>, gone: set<nat>, key: Name)
    requires StrictlySorted(names) && forall i :: 0 <= i < |names| ==> NodeOk(names[i])
    ensures Assoc(Strip(names, gone), key) == KeepIds(Assoc(names, key), gone)
  {
    if names != [] {
      assert forall i :: 0 < i < |names| ==> names[i] == names[1..][i - 1];
      StripAssoc(names[1..], gone, key);
      var ips := KeepIds(names[0].ips, gone);
      var rest := Strip(names[1..], gone);
      if ips == [] && names[0].ips != [] {
        if names[0].name == key {
          Lex.LessIrreflexive(key);
          AssocAbsent(names[1..], key);
        }
      } else {
        assert ([names[0].(ips := ips)] + rest)[1..] == rest;
      }
    }
  }

  lemma {:induction false} ListedMember(names: seq<NameNode>, j: nat, k: nat)
    requires j < |names| && k < |names[j].ips|
    ensures names[j].ips[k] in Listed(names)
  {
    ListedSplit(names, j);
    assert names[j].ips[k] in names[j].ips;
  }

  /** Pruning drops the expired entries of the flat list and nothing else. */
  lemma {:induction false} PruneKeepsAgreement(c: Cache, flat: Flat, now: int)
    requires Valid(c) && Agrees(c, flat)
    ensures Agrees(AfterPrune(c, now), Alive(flat, now))
  {
    hide Strip, KeepIds, ExpiredIds, ForName, Alive, ListEntries, Assoc, ListOf;
    PruneKeepsValid(c, now);
    var gone := ExpiredIds(c.byExpiry, now);
    var d := AfterPrune(c, now);
    forall key: Name ensures ListEntries(ListOf(d.names, key)) == ForName(Alive(flat, now), key) {
      ListOfIsAssoc(d.names, key);
      ListOfIsAssoc(c.names, key);
      StripAssoc(c.names, gone, key);
      ExpiryInList(c, now, key);
      AliveList(Assoc(c.names, key), gone, now);
      AliveForName(flat, now, key);
      assert ListEntries(ListOf(c.names, key)) == ForName(flat, key);
    }
  }

  lemma {:induction false} ExpiryInList(c: Cache, now: int, key: Name)
    requires Valid(c)
    ensures forall i :: 0 <= i < |Assoc(c.names, key)| ==>
              (Assoc(c.names, key)[i].id in ExpiredIds(c.byExpiry, now) <==> Assoc(c.names, key)[i].expiresAt <= now)
  {
    hide ExpiredIds, Assoc;
    AssocNode(c.names, key);
    if j :| 0 <= j < |c.names| && c.names[j].name == key && Assoc(c.names, key) == c.names[j].ips {
      forall i | 0 <= i < |c.names[j].ips|
        ensures c.names[j].ips[i].id in ExpiredIds(c.byExpiry, now) <==> c.names[j].ips[i].expiresAt <= now
      {
        ListedMember(c.names, j, i);
        assert c.names[j].ips[i] in multiset(Listed(c.names));
        assert c.names[j].ips[i] in multiset(c.byExpiry);
        ExpiredIffGone(c.byExpiry, now, c.names[j].ips[i]);
      }
    }
  }

  lemma {:induction false} SelectAlive(es: Flat, family: Family, now: int, later: int)
    requires now <= later
    ensures Select(Alive(es, now), family, later) == Select(es, family, later)
  {
    if es != [] {
      SelectAlive(es[1..], family, now, later);
      if es[0].expiresAt > now {
        assert ([es[0]] + Alive(es[1..], now))[1..] == Alive(es[1..], now);
      }
    }
  }

  /** Nobody can tell at time `later` whether the cache was pruned before. */
  lemma {:induction false} PruneIsInvisible(c: Cache, flat: Flat, now: int, later: int, name: Name, family: Family,
                                            limit: nat)
    requires Valid(c) && Agrees(c, flat) && now <= later
    ensures Pull(AfterPrune(c, now), name, family, later, limit) == Pull(c, name, family, later, limit)
  {
    hide Pull, AfterPrune;
    PruneKeepsAgreement(c, flat, now);
    PullIsFlatPull(c, flat, name, family, later, limit);
    PullIsFlatPull(AfterPrune(c, now), Alive(flat, now), name, family, later, limit);
    AliveForName(flat, now, Lower(name));
    SelectAlive(ForName(flat, Lower(name)), family, now, later);
  }

  // ---------------------------------------------------------------- the records of a push

  /** How many leading addresses share the first one's expiry. */
  function RunLength(sorted: seq<Resolved>): (k: nat)
    requires sorted != []
    ensures 1 <= k <= |sorted|
    ensures forall i :: 0 <= i < k ==> sorted[i].expiresAt <= sorted[0].expiresAt
    ensures k < |sorted| ==> sorted[0].expiresAt < sorted[k].expiresAt
  {
    FirstAbove(sorted, sorted[0].expiresAt, 1)
  }

  function FirstAbove(sorted: seq<Resolved>, limit: int, from: nat): (k: nat)
    requires from <= |sorted|
    ensures from <= k <= |sorted|
    ensures forall i :: from <= i < k ==> sorted[i].expiresAt <= limit
    ensures k < |sorted| ==> limit < sorted[k].expiresAt
    decreases |sorted| - from
  {
    if from == |sorted| || limit < sorted[from].expiresAt then from else FirstAbove(sorted, limit, from + 1)
  }

  function Addresses(rs: seq<Resolved>): (r: seq<nat>)
    ensures |r| == |rs| && forall i :: 0 <= i < |rs| ==> r[i] == rs[i].address
  {
    seq(|rs|, i requires 0 <= i < |rs| => rs[i].address)
  }

  /** One record per expiry time. */
  function Records(sorted: seq<Resolved>, parent: Name, family: Family, firstId: nat): (r: seq<Record>)
    decreases |sorted|
  {
    if sorted == [] then []
    else
      var k := RunLength(sorted);
      [Record(firstId, parent, sorted[0].expiresAt, family, Addresses(sorted[..k]))]
      + Records(sorted[k..], parent, family, firstId + 1)
  }

  lemma {:induction false} RecordsAreNew(sorted: seq<Resolved>, parent: Name, family: Family, firstId: nat)
    ensures var r := Records(sorted, parent, family, firstId);
            && (forall i :: 0 <= i < |r| ==> r[i].parent == parent && r[i].family == family && r[i].id == firstId + i)
            && DistinctIds(r)
    decreases |sorted|
  {
    if sorted != [] {
      RecordsAreNew(sorted[RunLength(sorted)..], parent, family, firstId + 1);
    }
  }

  /** Records from some expiry time on, with times that go strictly up, each with an address. */
  ghost predicate GoUp(rs: seq<Record>, from: int) {
    && (forall i :: 0 <= i < |rs| ==> rs[i].addrs != [] && from <= rs[i].expiresAt)
    && (forall i, j :: 0 <= i < j < |rs| ==> rs[i].expiresAt < rs[j].expiresAt)
  }

  lemma {:induction false} GoUpCons(r: Record, rs: seq<Record>, from: int)
    requires r.addrs != [] && GoUp(rs, from) && r.expiresAt < from
    ensures GoUp([r] + rs, r.expiresAt)
  {
    var all := [r] + rs;
    assert forall i :: 0 < i < |all| ==> all[i] == rs[i - 1];
  }

  /** One record for each expiry time. */
  lemma {:induction false} OneRecordPerExpiry(sorted: seq<Resolved>, parent: Name, family: Family, firstId: nat)
    requires Ascending(sorted)
    ensures sorted != [] ==> GoUp(Records(sorted, parent, family, firstId), sorted[0].expiresAt)
    ensures sorted == [] ==> Records(sorted, parent, family, firstId) == []
    decreases |sorted|
  {
    hide RunLength, Addresses, GoUp;
    if sorted != [] {
      var k := RunLength(sorted);
      var rest := sorted[k..];
      assert Ascending(rest);
      OneRecordPerExpiry(rest, parent, family, firstId + 1);
      var head := Record(firstId, parent, sorted[0].expiresAt, family, Addresses(sorted[..k]));
      var tail := Records(rest, parent, family, firstId + 1);
      assert |head.addrs| == k;
      if rest == [] {
        NothingGoesUp(sorted[0].expiresAt + 1);
        GoUpCons(head, tail, sorted[0].expiresAt + 1);
      } else {
        GoUpCons(head, tail, rest[0].expiresAt);
      }
    }
  }

  lemma {:induction false} NothingGoesUp(from: int)
    ensures GoUp([], from)
  {
  }

  ghost predicate Ascending(rs: seq<Resolved>) {
    forall i, j :: 0 <= i < j < |rs| ==> rs[i].expiresAt <= rs[j].expiresAt
  }

  function Named(rs: seq<Resolved>, name: Name, family: Family): (r: seq<Entry>)
    ensures |r| == |rs|
    ensures forall i :: 0 <= i < |rs| ==> r[i] == Entry(name, family, rs[i].address, rs[i].expiresAt)
  {
    seq(|rs|, i requires 0 <= i < |rs| => Entry(name, family, rs[i].address, rs[i].expiresAt))
  }

  /** Nothing is lost in grouping: the records list exactly the addresses, in order. */
  lemma {:induction false} RecordsListAll(sorted: seq<Resolved>, parent: Name, family: Family, firstId: nat)
    requires Ascending(sorted)
    ensures ListEntries(Records(sorted, parent, family, firstId)) == Named(sorted, parent, family)
    decreases |sorted|
  {
    hide RecordEntries, Named, RunLength, Addresses;
    if sorted != [] {
      var k := RunLength(sorted);
      var rest := sorted[k..];
      assert Ascending(rest);
      RecordsListAll(rest, parent, family, firstId + 1);
      var head := Record(firstId, parent, sorted[0].expiresAt, family, Addresses(sorted[..k]));
      var tail := Records(rest, parent, family, firstId + 1);
      assert ([head] + tail)[1..] == tail;
      HeadEntries(sorted, k, parent, family, firstId);
      NamedSplit(sorted, k, parent, family);
    } else {
      assert Named(sorted, parent, family) == [];
    }
  }

  lemma {:induction false} HeadEntries(sorted: seq<Resolved>, k: nat, parent: Name, family: Family, id: nat)
    requires Ascending(sorted) && sorted != [] && k <= |sorted|
    requires forall i :: 0 <= i < k ==> sorted[i].expiresAt <= sorted[0].expiresAt
    ensures RecordEntries(Record(id, parent, sorted[0].expiresAt, family, Addresses(sorted[..k])))
            == Named(sorted[..k], parent, family)
  {
    assert forall i :: 0 < i < k ==> sorted[0].expiresAt <= sorted[i].expiresAt;
  }

  lemma {:induction false} NamedSplit(sorted: seq<Resolved>, k: nat, parent: Name, family: Family)
    requires k <= |sorted|
    ensures Named(sorted, parent, family) == Named(sorted[..k], parent, family) + Named(sorted[k..], parent, family)
  {
  }

  lemma {:induction false} ReverseEntries(rs: seq<Record>)
    ensures multiset(ListEntries(Reverse(rs))) == multiset(ListEntries(rs))
  {
    if rs != [] {
      ReverseEntries(rs[1..]);
      ListEntriesAppend(Reverse(rs[1..]), [rs[0]]);
      assert [rs[0]][1..] == [];
      assert ListEntries([rs[0]]) == RecordEntries(rs[0]) + [];
    }
  }

  // ---------------------------------------------------------------- runs

  /** A push carries the addresses that were unexpired, in ascending order of expiry. One that
      fails for want of memory is the same as none. */
  datatype Op =
    | Push(name: Name, family: Family, sorted: seq<Resolved>)
    | FailedPush
    | Prune(now: int)

  /** The cache, the list of what was pushed and has not been pruned, under the names as they were
      given, and the next fresh identity. */
  datatype Sys = Sys(cache: Cache, flat: Flat, nextId: nat)

  ghost predicate Good(s: Sys) {
    && Valid(s.cache)
    && Agrees(s.cache, Lowered(s.flat))
    && forall i :: 0 <= i < |s.cache.byExpiry| ==> s.cache.byExpiry[i].id < s.nextId
  }

  /** What the flat list gains: the addresses grouped by expiry, latest first. */
  function PushedEntries(name: Name, family: Family, sorted: seq<Resolved>, firstId: nat): Flat {
    ListEntries(Reverse(Records(sorted, name, family, firstId)))
  }

  /** Records are listed under the name as it is stored. */
  function Step(s: Sys, op: Op): Sys {
    match op
    case FailedPush => s
    case Prune(now) => Sys(AfterPrune(s.cache, now), Alive(s.flat, now), s.nextId)
    case Push(name, family, sorted) =>
      var recs := Records(sorted, Lower(name), family, s.nextId);
      Sys(AfterPush(s.cache, name, recs), PushedEntries(name, family, sorted, s.nextId) + s.flat, s.nextId + |recs|)
  }

  /** A push finds its place: see `Clear`. */
  ghost predicate Admissible(s: Sys, op: Op) {
    op.Push? ==> Clear(s.cache.names, op.name)
  }

  lemma {:induction false} LoweredAppend(a: Flat, b: Flat)
    ensures Lowered(a + b) == Lowered(a) + Lowered(b)
  {
  }

  lemma {:induction false} LoweredAlive(es: Flat, now: int)
    ensures Lowered(Alive(es, now)) == Alive(Lowered(es), now)
  {
    if es != [] {
      LoweredAlive(es[1..], now);
      assert Lowered(es)[1..] == Lowered(es[1..]);
      if es[0].expiresAt > now {
        LoweredAppend([es[0]], Alive(es[1..], now));
        assert Lowered([es[0]]) == [LoweredEntry(es[0])];
      }
    } else {
      assert Lowered(es) == [];
    }
  }

  /** The last record of a push comes first in the list. */
  lemma {:induction false} PushedEntriesStep(name: Name, family: Family, sorted: seq<Resolved>, id: nat)
    ensures sorted == [] ==> PushedEntries(name, family, sorted, id) == []
    ensures sorted != [] ==>
              var k := RunLength(sorted);
              var r := Record(id, name, sorted[0].expiresAt, family, Addresses(sorted[..k]));
              PushedEntries(name, family, sorted, id)
              == PushedEntries(name, family, sorted[k..], id + 1) + RecordEntries(r)
  {
    hide RunLength, Addresses, RecordEntries;
    if sorted != [] {
      var k := RunLength(sorted);
      var r := Record(id, name, sorted[0].expiresAt, family, Addresses(sorted[..k]));
      var rest := Records(sorted[k..], name, family, id + 1);
      assert ([r] + rest)[1..] == rest;
      ListEntriesAppend(Reverse(rest), [r]);
      assert [r][1..] == [];
      assert ListEntries([r]) == RecordEntries(r) + [] == RecordEntries(r);
    }
  }

  lemma {:induction false} LoweredPushed(name: Name, family: Family, sorted: seq<Resolved>, id: nat)
    ensures Lowered(PushedEntries(name, family, sorted, id)) == PushedEntries(Lower(name), family, sorted, id)
    decreases |sorted|
  {
    hide RunLength, Addresses, PushedEntries, Lower;
    PushedEntriesStep(name, family, sorted, id);
    PushedEntriesStep(Lower(name), family, sorted, id);
    if sorted != [] {
      var k := RunLength(sorted);
      var r := Record(id, name, sorted[0].expiresAt, family, Addresses(sorted[..k]));
      LoweredPushed(name, family, sorted[k..], id + 1);
      LoweredAppend(PushedEntries(name, family, sorted[k..], id + 1), RecordEntries(r));
      assert Lowered(RecordEntries(r)) == RecordEntries(r.(parent := Lower(name)));
    } else {
      assert Lowered([]) == [];
    }
  }

  lemma {:induction false} PushKeepsGoodIff(s: Sys, name: Name, family: Family, sorted: seq<Resolved>)
    requires Good(s)
    ensures var t := Step(s, Push(name, family, sorted));
            && (Valid(t.cache) <==> Clear(s.cache.names, name))
            && (Clear(s.cache.names, name) ==> Good(t))
  {
    hide Records, AfterPush, Valid, Agrees, PushNames, Listed, Clear, Lower, Lowered;
    var l := Lower(name);
    var recs := Records(sorted, l, family, s.nextId);
    RecordsAreNew(sorted, l, family, s.nextId);
    assert NewRecords(recs, l, s.cache.byExpiry);
    PushKeepsValidIff(s.cache, name, recs);
    if Clear(s.cache.names, name) {
      PushKeepsAgreement(s.cache, Lowered(s.flat), name, recs);
      LoweredPushed(name, family, sorted, s.nextId);
      LoweredAppend(PushedEntries(name, family, sorted, s.nextId), s.flat);
      PushedIds(s.cache, name, recs, s.nextId);
    }
  }

  lemma {:induction false} PushedIds(c: Cache, name: Name, recs: seq<Record>, nextId: nat)
    requires forall i :: 0 <= i < |c.byExpiry| ==> c.byExpiry[i].id < nextId
    requires forall i :: 0 <= i < |recs| ==> recs[i].id == nextId + i
    ensures forall i :: 0 <= i < |AfterPush(c, name, recs).byExpiry| ==>
              AfterPush(c, name, recs).byExpiry[i].id < nextId + |recs|
  {
    hide PushNames;
    var d := AfterPush(c, name, recs).byExpiry;
    forall i | 0 <= i < |d| ensures d[i].id < nextId + |recs| {
      assert d[i] in multiset(d);
      assert d[i] in multiset(c.byExpiry) || d[i] in multiset(recs);
    }
  }

  lemma {:induction false} StepKeepsGoodIff(s: Sys, op: Op)
    requires Good(s)
    ensures Valid(Step(s, op).cache) <==> Admissible(s, op)
    ensures Admissible(s, op) ==> Good(Step(s, op))
  {
    hide AfterPush, AfterPrune, Records, Valid, Agrees, Clear, Lowered, Alive, PushedEntries;
    match op
    case FailedPush =>
    case Push(name, family, sorted) =>
      PushKeepsGoodIff(s, name, family, sorted);
    case Prune(now) =>
      PruneKeepsValid(s.cache, now);
      PruneKeepsAgreement(s.cache, Lowered(s.flat), now);
      LoweredAlive(s.flat, now);
      PrunedIds(s.cache, now);
  }

  lemma {:induction false} PrunedIds(c: Cache, now: int)
    ensures forall i :: 0 <= i < |AfterPrune(c, now).byExpiry| ==> AfterPrune(c, now).byExpiry[i] in c.byExpiry
  {
    KeepIdsMembers(c.byExpiry, ExpiredIds(c.byExpiry, now));
  }

  function Execute(s: Sys, ops: seq<Op>): Sys
    decreases |ops|
  {
    if ops == [] then s else Execute(Step(s, ops[0]), ops[1..])
  }

  const Empty: Sys := Sys(Cache([], [], 0), [], 0)

  ghost predicate AdmissibleRun(s: Sys, ops: seq<Op>)
    decreases |ops|
  {
    ops != [] ==> Admissible(s, ops[0]) && AdmissibleRun(Step(s, ops[0]), ops[1..])
  }

  /** The indexes are consistent at every point of the run. */
  ghost predicate ValidRun(s: Sys, ops: seq<Op>)
    decreases |ops|
  {
    Valid(s.cache) && (ops != [] ==> ValidRun(Step(s, ops[0]), ops[1..]))
  }

  /** Over every run of pushes, failed pushes and prunes: the two indexes stay consistent
      throughout if and only if every push finds its place, and then every pull answers with the
      first entries that match of what was pushed and has not been pruned. */
  lemma {:induction false} RunAgreesIff(ops: seq<Op>)
    ensures ValidRun(Empty, ops) <==> AdmissibleRun(Empty, ops)
    ensures AdmissibleRun(Empty, ops) ==>
              forall name, family, now, limit: nat ::
                PullIsRight(Execute(Empty, ops), name, family, now, limit)
  {
    hide Answers, Agrees, Step, Pull;
    EmptyIsGood();
    RunKeepsGoodIff(Empty, ops);
    if AdmissibleRun(Empty, ops) {
      var s := Execute(Empty, ops);
      forall name, family, now, limit: nat ensures PullIsRight(s, name, family, now, limit) {
        var places := PullAnswers(s.cache, s.flat, name, family, now, limit);
      }
    }
  }

  ghost predicate PullIsRight(s: Sys, name: Name, family: Family, now: int, limit: nat) {
    exists places :: Answers(s.flat, name, family, now, limit, Pull(s.cache, name, family, now, limit), places)
  }

  lemma {:induction false} EmptyIsGood()
    ensures Good(Empty)
  {
  }

  lemma {:induction false} RunKeepsGoodIff(s: Sys, ops: seq<Op>)
    requires Good(s)
    ensures ValidRun(s, ops) <==> AdmissibleRun(s, ops)
    ensures AdmissibleRun(s, ops) ==> Good(Execute(s, ops))
    decreases |ops|
  {
    hide Valid, Agrees, Step, Admissible;
    if ops != [] {
      StepKeepsGoodIff(s, ops[0]);
      var t := Step(s, ops[0]);
      if Admissible(s, ops[0]) {
        RunKeepsGoodIff(t, ops[1..]);
      }
    }
  }

  /** A push adds exactly its addresses, latest expiry first. */
  lemma {:induction false} PushAddsItsAddresses(name: Name, family: Family, sorted: seq<Resolved>, firstId: nat)
    requires Ascending(sorted)
    ensures multiset(PushedEntries(name, family, sorted, firstId)) == multiset(Named(sorted, name, family))
    ensures LatestFirst(PushedEntries(name, family, sorted, firstId))
  {
    hide Records, Reverse, PushedEntries, Named, LatestFirst;
    PushedMultiset(name, family, sorted, firstId);
    PushedIsDescending(name, family, sorted, firstId);
  }

  lemma {:induction false} PushedMultiset(name: Name, family: Family, sorted: seq<Resolved>, firstId: nat)
    requires Ascending(sorted)
    ensures multiset(PushedEntries(name, family, sorted, firstId)) == multiset(Named(sorted, name, family))
  {
    ReverseEntries(Records(sorted, name, family, firstId));
    RecordsListAll(sorted, name, family, firstId);
  }

  ghost predicate LatestFirst(es: Flat) {
    forall i, j :: 0 <= i < j < |es| ==> es[i].expiresAt >= es[j].expiresAt
  }

  lemma {:induction false} PushedIsDescending(name: Name, family: Family, sorted: seq<Resolved>, firstId: nat)
    requires Ascending(sorted)
    ensures LatestFirst(PushedEntries(name, family, sorted, firstId))
    ensures forall i :: 0 <= i < |PushedEntries(name, family, sorted, firstId)| ==>
              sorted != [] && PushedEntries(name, family, sorted, firstId)[i].expiresAt >= sorted[0].expiresAt
    decreases |sorted|
  {
    hide PushedEntries, RunLength, Addresses;
    PushedEntriesStep(name, family, sorted, firstId);
    if sorted != [] {
      var rest := sorted[RunLength(sorted)..];
      assert Ascending(rest);
      PushedIsDescending(name, family, rest, firstId + 1);
    }
  }
}
