/** The in-memory DNS cache: address records indexed by name and by expiry. */
module CacheModel {
  import opened Basics
  import opened DnsParser
  import Lex

  type Name = Octets

  datatype Family = V4 | V6
  datatype Resolved = Resolved(address: nat, expiresAt: int)

  /** `AddrStorageHeader`: addresses of one family that expire together, listed under the name
      `parent`. Names are unique in the cache, so the name stands for the reference to its node. */
  datatype Record = Record(id: nat, parent: Name, expiresAt: int, family: Family, addrs: seq<nat>)

  /** `NameStorageHeader` with its list of records, newest first. */
  datatype NameNode = NameNode(name: Name, ips: seq<Record>)

  /** `chunks` counts the allocations the cache holds. */
  datatype Cache = Cache(names: seq<NameNode>, byExpiry: seq<Record>, chunks: nat)

  function ToLower(c: Octet): Octet {
    if 65 <= c <= 90 then c + 32 else c
  }

  function Lower(name: Name): (r: Name)
    ensures |r| == |name|
    ensures forall i :: 0 <= i < |name| ==> r[i] == if 65 <= name[i] <= 90 then name[i] + 32 else name[i]
  {
    if name == [] then [] else [ToLower(name[0])] + Lower(name[1..])
  }

  // ---------------------------------------------------------------- the index by name

  ghost predicate StrictlySorted(names: seq<NameNode>) {
    forall i, j :: 0 <= i < j < |names| ==> Lex.Less(names[i].name, names[j].name)
  }

  /** The first node whose name is not less than `key`. */
  function LowerBound(names: seq<NameNode>, key: Name): (i: nat)
    ensures i <= |names|
    ensures forall j :: 0 <= j < i ==> Lex.Less(names[j].name, key)
    ensures i < |names| ==> !Lex.Less(names[i].name, key)
  {
    if names == [] || !Lex.Less(names[0].name, key) then 0
    else
      assert forall j :: 0 < j < |names| ==> names[j] == names[1..][j - 1];
      1 + LowerBound(names[1..], key)
  }

  predicate HasName(names: seq<NameNode>, key: Name) {
    var i := LowerBound(names, key);
    i < |names| && names[i].name == key
  }

  /** What is listed under a name. */
  function ListOf(names: seq<NameNode>, key: Name): seq<Record> {
    if HasName(names, key) then names[LowerBound(names, key)].ips else []
  }

  lemma {:induction false} NodeIsFound(names: seq<NameNode>, j: nat)
    requires StrictlySorted(names) && j < |names|
    ensures HasName(names, names[j].name) && LowerBound(names, names[j].name) == j
  {
    var i := LowerBound(names, names[j].name);
    Lex.LessIrreflexive(names[j].name);
  }

  lemma {:induction false} ListOfNode(names: seq<NameNode>, key: Name)
    requires StrictlySorted(names)
    ensures forall j :: 0 <= j < |names| && names[j].name == key ==> ListOf(names, key) == names[j].ips
    ensures (forall j :: 0 <= j < |names| ==> names[j].name != key) ==> ListOf(names, key) == []
  {
    forall j | 0 <= j < |names| && names[j].name == key ensures ListOf(names, key) == names[j].ips {
      NodeIsFound(names, j);
    }
  }

  // ---------------------------------------------------------------- what is in the cache

  datatype Entry = Entry(name: Name, family: Family, address: nat, expiresAt: int)

  function RecordEntries(r: Record): seq<Entry> {
    seq(|r.addrs|, i requires 0 <= i < |r.addrs| => Entry(r.parent, r.family, r.addrs[i], r.expiresAt))
  }

  function ListEntries(rs: seq<Record>): seq<Entry> {
    if rs == [] then [] else RecordEntries(rs[0]) + ListEntries(rs[1..])
  }

  lemma {:induction false} ListEntriesAppend(a: seq<Record>, b: seq<Record>)
    ensures ListEntries(a + b) == ListEntries(a) + ListEntries(b)
  {
    if a == [] {
      assert a + b == b;
    } else {
      assert (a + b)[1..] == a[1..] + b;
      ListEntriesAppend(a[1..], b);
    }
  }

  /** The records of all names, name by name. */
  function Listed(names: seq<NameNode>): seq<Record> {
    if names == [] then [] else names[0].ips + Listed(names[1..])
  }

  lemma {:induction false} ListedAppend(a: seq<NameNode>, b: seq<NameNode>)
    ensures Listed(a + b) == Listed(a) + Listed(b)
  {
    if a == [] {
      assert a + b == b;
    } else {
      assert (a + b)[1..] == a[1..] + b;
      ListedAppend(a[1..], b);
      assert a[0].ips + (Listed(a[1..]) + Listed(b)) == a[0].ips + Listed(a[1..]) + Listed(b);
    }
  }

  lemma {:induction false} ListedSplit(names: seq<NameNode>, i: nat)
    requires i < |names|
    ensures Listed(names) == Listed(names[..i]) + names[i].ips + Listed(names[i + 1..])
  {
    assert names == names[..i] + names[i..];
    ListedAppend(names[..i], names[i..]);
    assert names[i..][0] == names[i] && names[i..][1..] == names[i + 1..];
  }

  ghost predicate DistinctIds(rs: seq<Record>) {
    forall i, j :: 0 <= i < j < |rs| ==> rs[i].id != rs[j].id
  }

  ghost predicate SortedByExpiry(rs: seq<Record>) {
    forall i, j :: 0 <= i < j < |rs| ==> rs[i].expiresAt <= rs[j].expiresAt
  }

  ghost predicate NodeOk(n: NameNode) {
    Lower(n.name) == n.name && forall k :: 0 <= k < |n.ips| ==> n.ips[k].parent == n.name
  }

  /** Both indexes hold the same records, each once, under the right name; and every node and
      record is one allocation. */
  ghost predicate Valid(c: Cache) {
    && StrictlySorted(c.names)
    && (forall i :: 0 <= i < |c.names| ==> NodeOk(c.names[i]))
    && SortedByExpiry(c.byExpiry) && DistinctIds(c.byExpiry)
    && multiset(c.byExpiry) == multiset(Listed(c.names))
    && c.chunks == |c.names| + |c.byExpiry|
  }

  // ---------------------------------------------------------------- pull

  predicate Wanted(e: Entry, family: Family, now: int) {
    e.family == family && e.expiresAt > now
  }

  function Select(es: seq<Entry>, family: Family, now: int): seq<Entry> {
    if es == [] then []
    else if Wanted(es[0], family, now) then [es[0]] + Select(es[1..], family, now)
    else Select(es[1..], family, now)
  }

  lemma {:induction false} SelectAppend(a: seq<Entry>, b: seq<Entry>, family: Family, now: int)
    ensures Select(a + b, family, now) == Select(a, family, now) + Select(b, family, now)
  {
    if a == [] {
      assert a + b == b;
    } else {
      assert (a + b)[1..] == a[1..] + b;
      SelectAppend(a[1..], b, family, now);
    }
  }

  function First<T>(s: seq<T>, n: nat): seq<T> {
    if |s| <= n then s else s[..n]
  }

  function Pull(c: Cache, name: Name, family: Family, now: int, limit: nat): (r: seq<Resolved>) {
    if |name| > FQDN_MAX_OCTET_LEN then []
    else First(Results(Select(ListEntries(ListOf(c.names, Lower(name))), family, now)), limit)
  }

  function Results(es: seq<Entry>): (r: seq<Resolved>)
    ensures |r| == |es|
    ensures forall i :: 0 <= i < |es| ==> r[i] == Resolved(es[i].address, es[i].expiresAt)
  {
    seq(|es|, i requires 0 <= i < |es| => Resolved(es[i].address, es[i].expiresAt))
  }

  // ---------------------------------------------------------------- against a flat list

  /** All there is to know about a cache: its entries, newest first. */
  type Flat = seq<Entry>

  function ForName(flat: Flat, key: Name): Flat {
    if flat == [] then []
    else if flat[0].name == key then [flat[0]] + ForName(flat[1..], key)
    else ForName(flat[1..], key)
  }

  function FlatPull(flat: Flat, name: Name, family: Family, now: int, limit: nat): seq<Resolved> {
    if |name| > FQDN_MAX_OCTET_LEN then []
    else First(Results(Select(ForName(flat, Lower(name)), family, now)), limit)
  }

  ghost predicate Agrees(c: Cache, flat: Flat) {
    forall key: Name :: ListEntries(ListOf(c.names, key)) == ForName(flat, key)
  }

  /** The cache answers every pull as the flat list does. */
  lemma {:induction false} PullIsFlatPull(c: Cache, flat: Flat, name: Name, family: Family, now: int, limit: nat)
    requires Agrees(c, flat)
    ensures Pull(c, name, family, now, limit) == FlatPull(flat, name, family, now, limit)
  {
    assert ListEntries(ListOf(c.names, Lower(name))) == ForName(flat, Lower(name));
  }

  lemma {:induction false} ForNameAppend(a: Flat, b: Flat, key: Name)
    ensures ForName(a + b, key) == ForName(a, key) + ForName(b, key)
  {
    if a == [] {
      assert a + b == b;
    } else {
      assert (a + b)[1..] == a[1..] + b;
      ForNameAppend(a[1..], b, key);
    }
  }

  lemma {:induction false} ForNameUniform(es: Flat, name: Name, key: Name)
    requires forall i :: 0 <= i < |es| ==> es[i].name == name
    ensures ForName(es, key) == if key == name then es else []
  {
    if es != [] {
      ForNameUniform(es[1..], name, key);
    }
  }

  // ---------------------------------------------------------------- push

  function Reverse(rs: seq<Record>): (r: seq<Record>)
    ensures |r| == |rs|
  {
    if rs == [] then [] else Reverse(rs[1..]) + [rs[0]]
  }

  /** The index with a node for `name`, placed where the search for `name` ended. */
  function WithName(names: seq<NameNode>, name: Name): (r: seq<NameNode>)
    ensures LowerBound(names, name) < |r|
  {
    var i := LowerBound(names, name);
    if HasName(names, name) then names else names[..i] + [NameNode(Lower(name), [])] + names[i..]
  }

  /** New records are pushed to the front of the list of the node found or made. */
  function PushNames(names: seq<NameNode>, name: Name, recs: seq<Record>): (r: seq<NameNode>)
    ensures |r| == |WithName(names, name)|
  {
    var i := LowerBound(names, name);
    var n1 := WithName(names, name);
    n1[i := n1[i].(ips := Reverse(recs) + n1[i].ips)]
  }

  function InsertExpiry(rs: seq<Record>, r: Record): (out: seq<Record>)
    ensures multiset(out) == multiset(rs) + multiset{r}
  {
    if rs == [] || r.expiresAt < rs[0].expiresAt then [r] + rs
    else
      assert rs == [rs[0]] + rs[1..];
      [rs[0]] + InsertExpiry(rs[1..], r)
  }

  function InsertAll(rs: seq<Record>, recs: seq<Record>): (out: seq<Record>)
    ensures multiset(out) == multiset(rs) + multiset(recs)
    decreases |recs|
  {
    if recs == [] then rs
    else
      assert recs == [recs[0]] + recs[1..];
      InsertAll(InsertExpiry(rs, recs[0]), recs[1..])
  }

  function AfterPush(c: Cache, name: Name, recs: seq<Record>): Cache {
    Cache(PushNames(c.names, name, recs), InsertAll(c.byExpiry, recs),
          c.chunks + (if HasName(c.names, name) then 0 else 1) + |recs|)
  }

  lemma {:induction false} InsertExpirySorted(rs: seq<Record>, r: Record)
    requires SortedByExpiry(rs)
    ensures SortedByExpiry(InsertExpiry(rs, r))
  {
    if rs != [] && r.expiresAt >= rs[0].expiresAt {
      assert SortedByExpiry(rs[1..]);
      InsertExpirySorted(rs[1..], r);
      var t := InsertExpiry(rs[1..], r);
      forall i | 0 <= i < |t| ensures rs[0].expiresAt <= t[i].expiresAt {
        assert t[i] in multiset(t);
        assert t[i] in multiset(rs[1..]) || t[i] == r;
      }
    }
  }

  lemma {:induction false} InsertAllSorted(rs: seq<Record>, recs: seq<Record>)
    requires SortedByExpiry(rs)
    ensures SortedByExpiry(InsertAll(rs, recs))
    decreases |recs|
  {
    if recs != [] {
      InsertExpirySorted(rs, recs[0]);
      InsertAllSorted(InsertExpiry(rs, recs[0]), recs[1..]);
    }
  }

  lemma {:induction false} WithNameSorted(names: seq<NameNode>, name: Name)
    requires StrictlySorted(names) && Lower(name) == name
    ensures StrictlySorted(WithName(names, name))
    ensures WithName(names, name)[LowerBound(names, name)].name == name
  {
    hide Lex.Less, LowerBound;
    if !HasName(names, name) {
      var i := LowerBound(names, name);
      if i < |names| {
        Lex.LessTotal(names[i].name, name);
      }
      var r := WithName(names, name);
      forall a, b | 0 <= a < b < |r| ensures Lex.Less(r[a].name, r[b].name) {
        InsertedPair(names, i, name, a, b);
      }
    }
  }

  lemma {:induction false} InsertedPair(names: seq<NameNode>, i: nat, l: Name, a: nat, b: nat)
    requires StrictlySorted(names) && i <= |names| && a < b <= |names|
    requires forall j :: 0 <= j < i ==> Lex.Less(names[j].name, l)
    requires i < |names| ==> Lex.Less(l, names[i].name)
    ensures var r := names[..i] + [NameNode(l, [])] + names[i..];
            Lex.Less(r[a].name, r[b].name)
  {
    hide Lex.Less;
    var r := names[..i] + [NameNode(l, [])] + names[i..];
    assert r[a] == if a < i then names[a] else if a == i then NameNode(l, []) else names[a - 1];
    assert r[b] == if b < i then names[b] else if b == i then NameNode(l, []) else names[b - 1];
    if a == i && b > i + 1 {
      Lex.LessTransitive(l, names[i].name, names[b - 1].name);
    }
  }

  lemma {:induction false} ReverseMultiset(rs: seq<Record>)
    ensures multiset(Reverse(rs)) == multiset(rs)
  {
    if rs != [] {
      ReverseMultiset(rs[1..]);
      assert rs == [rs[0]] + rs[1..];
    }
  }

  lemma {:induction false} WithNameListed(names: seq<NameNode>, name: Name)
    ensures Listed(WithName(names, name)) == Listed(names)
  {
    if !HasName(names, name) {
      var i := LowerBound(names, name);
      var node := NameNode(Lower(name), []);
      assert names == names[..i] + names[i..];
      ListedAppend(names[..i], names[i..]);
      ListedAppend(names[..i], [node]);
      ListedAppend(names[..i] + [node], names[i..]);
      assert [node][1..] == [] && Listed([node]) == [];
    }
  }

  lemma {:induction false} PushListed(names: seq<NameNode>, name: Name, recs: seq<Record>)
    ensures multiset(Listed(PushNames(names, name, recs))) == multiset(Listed(names)) + multiset(recs)
  {
    hide Listed;
    var i := LowerBound(names, name);
    var n1 := WithName(names, name);
    var n2 := PushNames(names, name, recs);
    WithNameListed(names, name);
    ListedSplit(n1, i);
    ListedSplit(n2, i);
    assert n1[..i] == n2[..i] && n1[i + 1..] == n2[i + 1..];
    ReverseMultiset(recs);
  }

  /** Records for the list of `name`, with identities of their own. */
  ghost predicate NewRecords(recs: seq<Record>, name: Name, present: seq<Record>) {
    && (forall i :: 0 <= i < |recs| ==> recs[i].parent == name)
    && DistinctIds(recs)
    && (forall i, j :: 0 <= i < |recs| && 0 <= j < |present| ==> recs[i].id != present[j].id)
  }

  ghost predicate FreshId(rs: seq<Record>, id: nat) {
    forall i :: 0 <= i < |rs| ==> rs[i].id != id
  }

  lemma {:induction false} InsertExpiryIds(rs: seq<Record>, r: Record)
    requires DistinctIds(rs) && FreshId(rs, r.id)
    ensures DistinctIds(InsertExpiry(rs, r))
    ensures forall id :: FreshId(rs, id) && id != r.id ==> FreshId(InsertExpiry(rs, r), id)
  {
    if rs != [] && r.expiresAt >= rs[0].expiresAt {
      assert FreshId(rs[1..], r.id) && DistinctIds(rs[1..]) && FreshId(rs[1..], rs[0].id);
      InsertExpiryIds(rs[1..], r);
      var t := InsertExpiry(rs[1..], r);
      assert FreshId(t, rs[0].id);
      forall id | FreshId(rs, id) && id != r.id ensures FreshId([rs[0]] + t, id) {
        assert rs[0].id != id && FreshId(rs[1..], id);
      }
    }
  }

  lemma {:induction false} InsertAllIds(rs: seq<Record>, recs: seq<Record>)
    requires DistinctIds(rs) && DistinctIds(recs)
    requires forall i :: 0 <= i < |recs| ==> FreshId(rs, recs[i].id)
    ensures DistinctIds(InsertAll(rs, recs))
    decreases |recs|
  {
    if recs != [] {
      InsertExpiryIds(rs, recs[0]);
      var t := InsertExpiry(rs, recs[0]);
      forall i | 0 <= i < |recs[1..]| ensures FreshId(t, recs[1..][i].id) {
        assert recs[1..][i] == recs[i + 1];
      }
      InsertAllIds(t, recs[1..]);
    }
  }

  lemma {:induction false} PushNodesOk(names: seq<NameNode>, name: Name, recs: seq<Record>)
    requires StrictlySorted(names) && Lower(name) == name
    requires forall i :: 0 <= i < |names| ==> NodeOk(names[i])
    requires forall i :: 0 <= i < |recs| ==> recs[i].parent == name
    ensures StrictlySorted(PushNames(names, name, recs))
    ensures forall i :: 0 <= i < |PushNames(names, name, recs)| ==> NodeOk(PushNames(names, name, recs)[i])
  {
    hide LowerBound;
    WithNameSorted(names, name);
    var i := LowerBound(names, name);
    var n1 := WithName(names, name);
    var n2 := PushNames(names, name, recs);
    forall j | 0 <= j < |n1| ensures NodeOk(n1[j]) {
      if !HasName(names, name) {
        assert n1[j] == if j < i then names[j] else if j == i then NameNode(name, []) else names[j - 1];
      }
    }
    ReverseParents(recs, name);
    assert NodeOk(n2[i]);
    forall a, b | 0 <= a < b < |n2| ensures Lex.Less(n2[a].name, n2[b].name) {
      assert n2[a].name == n1[a].name && n2[b].name == n1[b].name;
    }
  }

  lemma {:induction false} ReverseParents(recs: seq<Record>, name: Name)
    requires forall i :: 0 <= i < |recs| ==> recs[i].parent == name
    ensures forall i :: 0 <= i < |recs| ==> Reverse(recs)[i].parent == name
  {
    if recs != [] {
      ReverseParents(recs[1..], name);
    }
  }

  /** A push of a name in lower case keeps the two indexes consistent. */
  lemma {:induction false} LowerPushKeepsValid(c: Cache, name: Name, recs: seq<Record>)
    requires Valid(c) && Lower(name) == name && NewRecords(recs, name, c.byExpiry)
    ensures Valid(AfterPush(c, name, recs))
  {
    hide PushNames, InsertAll, Listed, StrictlySorted, NodeOk, LowerBound;
    var d := AfterPush(c, name, recs);
    PushNodesOk(c.names, name, recs);
    InsertAllSorted(c.byExpiry, recs);
    PushListed(c.names, name, recs);
    InsertAllIds(c.byExpiry, recs);
    assert |multiset(d.byExpiry)| == |multiset(c.byExpiry)| + |multiset(recs)|;
    WithNameSize(c.names, name);
  }

  lemma {:induction false} WithNameSize(names: seq<NameNode>, name: Name)
    ensures |WithName(names, name)| == |names| + if HasName(names, name) then 0 else 1
  {
  }

  /** And prepends its entries to the flat list: latest expiry first. */
  lemma {:induction false} LowerPushKeepsAgreement(c: Cache, flat: Flat, name: Name, recs: seq<Record>)
    requires Valid(c) && Lower(name) == name && NewRecords(recs, name, c.byExpiry) && Agrees(c, flat)
    ensures Agrees(AfterPush(c, name, recs), ListEntries(Reverse(recs)) + flat)
  {
    hide ListEntries, ForName, PushNames, Reverse, InsertAll;
    var d := AfterPush(c, name, recs);
    var es := ListEntries(Reverse(recs));
    LowerPushKeepsValid(c, name, recs);
    forall key: Name ensures ListEntries(ListOf(d.names, key)) == ForName(es + flat, key) {
      ForNameAppend(es, flat, key);
      NewEntriesNamed(recs, name);
      ForNameUniform(es, name, key);
      PushedList(c.names, name, recs, key);
      ListEntriesAppend(Reverse(recs), ListOf(c.names, name));
      assert ListEntries(ListOf(c.names, key)) == ForName(flat, key);
      if key != name {
        assert [] + ForName(flat, key) == ForName(flat, key);
      }
    }
  }

  lemma {:induction false} NewEntriesNamed(recs: seq<Record>, name: Name)
    requires forall i :: 0 <= i < |recs| ==> recs[i].parent == name
    ensures forall i :: 0 <= i < |ListEntries(Reverse(recs))| ==> ListEntries(Reverse(recs))[i].name == name
  {
    ReverseParents(recs, name);
    ListNamed(Reverse(recs), name);
  }

  lemma {:induction false} ListNamed(rs: seq<Record>, name: Name)
    requires forall i :: 0 <= i < |rs| ==> rs[i].parent == name
    ensures forall i :: 0 <= i < |ListEntries(rs)| ==> ListEntries(rs)[i].name == name
  {
    if rs != [] {
      ListNamed(rs[1..], name);
    }
  }

  lemma {:induction false} PushedList(names: seq<NameNode>, name: Name, recs: seq<Record>, key: Name)
    requires StrictlySorted(names) && Lower(name) == name
    requires StrictlySorted(PushNames(names, name, recs))
    ensures ListOf(PushNames(names, name, recs), key)
            == if key == name then Reverse(recs) + ListOf(names, name) else ListOf(names, key)
  {
    hide ListOf, LowerBound, Reverse;
    var i := LowerBound(names, name);
    var n1 := WithName(names, name);
    var n2 := PushNames(names, name, recs);
    WithNameSorted(names, name);
    ListOfNode(names, key);
    ListOfNode(n2, key);
    ListOfNode(names, name);
    if key == name {
      assert n2[i].name == name;
      if HasName(names, name) {
        assert names[i].ips == ListOf(names, name);
      } else {
        AbsentName(names, name);
        assert ListOf(names, name) == [];
      }
    } else if j :| 0 <= j < |names| && names[j].name == key {
      var k := if HasName(names, name) || j < i then j else j + 1;
      assert n2[k] == names[j];
    } else {
      forall k | 0 <= k < |n2| ensures n2[k].name != key {
        if k != i {
          assert n2[k] == if HasName(names, name) || k < i then names[k] else names[k - 1];
        }
      }
    }
  }

  lemma {:induction false} AbsentName(names: seq<NameNode>, name: Name)
    requires StrictlySorted(names) && !HasName(names, name)
    ensures forall j :: 0 <= j < |names| ==> names[j].name != name
  {
    forall j | 0 <= j < |names| ensures names[j].name != name {
      NodeIsFound(names, j);
    }
  }
}
