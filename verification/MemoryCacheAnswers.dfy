/** What a pull answers, in terms of the names that were pushed and of nothing the cache computes. */
module CacheAnswers {
  import opened Basics
  import opened DnsParser
  import opened CacheModel

  /** One octet is a letter from A to Z and the other the same letter from a to z. */
  predicate SameLetter(x: Octet, y: Octet) {
    x == y || (65 <= x <= 90 && y == x + 32) || (65 <= y <= 90 && x == y + 32)
  }

  /** Names that differ in letter case only. */
  predicate SameButCase(a: Name, b: Name) {
    |a| == |b| && forall i :: 0 <= i < |a| ==> SameLetter(a[i], b[i])
  }

  /** Such names, and no others, are stored and searched as one. */
  lemma {:induction false} StoredAsOneIff(a: Name, b: Name)
    ensures Lower(a) == Lower(b) <==> SameButCase(a, b)
  {
    if Lower(a) == Lower(b) {
      forall i | 0 <= i < |a| ensures SameLetter(a[i], b[i]) {
        assert Lower(a)[i] == Lower(b)[i];
      }
    }
  }

  /** An entry of the list of what was pushed that a pull asks for. */
  predicate Matches(e: Entry, name: Name, family: Family, now: int) {
    SameButCase(e.name, name) && e.family == family && e.expiresAt > now
  }

  /** The answer consists of the first entries that match, at most `limit` of them, in their order:
      `places` says where each stands. A name of more than 255 octets has no answer. */
  ghost predicate Answers(pushed: Flat, name: Name, family: Family, now: int, limit: nat, answer: seq<Resolved>,
                          places: seq<nat>)
  {
    && |answer| == |places| <= limit
    && (forall i :: 0 <= i < |places| ==>
          && places[i] < |pushed| && Matches(pushed[places[i]], name, family, now)
          && answer[i] == Resolved(pushed[places[i]].address, pushed[places[i]].expiresAt))
    && (forall i, j :: 0 <= i < j < |places| ==> places[i] < places[j])
    && (if |name| > 255 then answer == []
        else forall j :: 0 <= j < |pushed| && Matches(pushed[j], name, family, now) && j !in places ==>
               |places| == limit && forall i :: 0 <= i < |places| ==> places[i] < j)
  }

  function LoweredEntry(e: Entry): Entry {
    e.(name := Lower(e.name))
  }

  /** The list with every name as the cache stores it. */
  function Lowered(pushed: Flat): (r: Flat)
    ensures |r| == |pushed| && forall i :: 0 <= i < |pushed| ==> r[i] == LoweredEntry(pushed[i])
  {
    seq(|pushed|, i requires 0 <= i < |pushed| => LoweredEntry(pushed[i]))
  }

  /** Everything that matches, without a limit. */
  ghost function Chosen(pushed: Flat, name: Name, family: Family, now: int): seq<Entry> {
    Select(ForName(Lowered(pushed), Lower(name)), family, now)
  }

  lemma {:induction false} ChosenStep(pushed: Flat, e: Entry, name: Name, family: Family, now: int)
    ensures Chosen(pushed + [e], name, family, now)
            == Chosen(pushed, name, family, now) + if Matches(e, name, family, now) then [LoweredEntry(e)] else []
  {
    hide SameButCase, Lower;
    var all, last, key := Lowered(pushed), [LoweredEntry(e)], Lower(name);
    assert Lowered(pushed + [e]) == all + last;
    ForNameAppend(all, last, key);
    SelectAppend(ForName(all, key), ForName(last, key), family, now);
    StoredAsOneIff(e.name, name);
    assert last[1..] == [];
  }

  ghost predicate AllPlaces(pushed: Flat, name: Name, family: Family, now: int, places: seq<nat>) {
    && (forall i :: 0 <= i < |places| ==> places[i] < |pushed| && Matches(pushed[places[i]], name, family, now))
    && (forall i, j :: 0 <= i < j < |places| ==> places[i] < places[j])
    && (forall j :: 0 <= j < |pushed| && Matches(pushed[j], name, family, now) ==> j in places)
  }

  lemma {:induction false} ChosenPlaces(pushed: Flat, name: Name, family: Family, now: int) returns (places: seq<nat>)
    ensures var c := Chosen(pushed, name, family, now);
            && |c| == |places| && AllPlaces(pushed, name, family, now, places)
            && forall i :: 0 <= i < |places| ==> c[i] == LoweredEntry(pushed[places[i]])
  {
    hide Matches, Chosen, LoweredEntry;
    places := [];
    if pushed == [] {
      NothingChosen(name, family, now);
    } else {
      var n := |pushed| - 1;
      assert pushed == pushed[..n] + [pushed[n]];
      ChosenStep(pushed[..n], pushed[n], name, family, now);
      places := ChosenPlaces(pushed[..n], name, family, now);
      if Matches(pushed[n], name, family, now) {
        places := places + [n];
        assert n == places[|places| - 1];
      }
    }
  }

  lemma {:induction false} NothingChosen(name: Name, family: Family, now: int)
    ensures Chosen([], name, family, now) == []
  {
  }

  /** A pull answers as the list of what was pushed says. */
  lemma {:induction false} PullAnswers(c: Cache, pushed: Flat, name: Name, family: Family, now: int, limit: nat)
    returns (places: seq<nat>)
    requires Agrees(c, Lowered(pushed))
    ensures Answers(pushed, name, family, now, limit, Pull(c, name, family, now, limit), places)
  {
    hide Agrees, Select, ForName, ListEntries, ListOf, Lowered, Lower, Results, First, Answers, AllPlaces;
    PullIsFlatPull(c, Lowered(pushed), name, family, now, limit);
    if |name| > 255 {
      places := [];
      NoAnswer(pushed, name, family, now, limit);
    } else {
      var all := ChosenPlaces(pushed, name, family, now);
      places := First(all, limit);
      CutAnswers(pushed, name, family, now, limit, Chosen(pushed, name, family, now), all);
    }
  }

  lemma {:induction false} NoAnswer(pushed: Flat, name: Name, family: Family, now: int, limit: nat)
    requires |name| > 255
    ensures Answers(pushed, name, family, now, limit, [], [])
  {
  }

  lemma {:induction false} CutAnswers(pushed: Flat, name: Name, family: Family, now: int, limit: nat,
                                      chosen: seq<Entry>, all: seq<nat>)
    requires |name| <= 255 && |chosen| == |all| && AllPlaces(pushed, name, family, now, all)
    requires forall i :: 0 <= i < |all| ==> chosen[i] == LoweredEntry(pushed[all[i]])
    ensures Answers(pushed, name, family, now, limit, First(Results(chosen), limit), First(all, limit))
  {
    hide Matches;
    var answer, places := First(Results(chosen), limit), First(all, limit);
    assert forall k :: 0 <= k < |places| ==> all[k] == places[k];
    forall j | 0 <= j < |pushed| && Matches(pushed[j], name, family, now) && j !in places
      ensures |places| == limit && forall i :: 0 <= i < |places| ==> places[i] < j
    {
      var k :| 0 <= k < |all| && all[k] == j;
    }
  }

  /** Letter case makes no difference to a pull, whatever the cache holds. */
  lemma {:induction false} PullIgnoresCase(c: Cache, a: Name, b: Name, family: Family, now: int, limit: nat)
    requires SameButCase(a, b)
    ensures Pull(c, a, family, now, limit) == Pull(c, b, family, now, limit)
  {
    StoredAsOneIff(a, b);
  }

  /** Names that differ otherwise share no record. */
  lemma {:induction false} OtherNamesShareNothing(c: Cache, a: Name, b: Name, r: Record)
    requires Valid(c) && !SameButCase(a, b)
    ensures !(r in ListOf(c.names, Lower(a)) && r in ListOf(c.names, Lower(b)))
  {
    hide LowerBound, Listed;
    StoredAsOneIff(a, b);
    ParentIsKey(c, Lower(a), r);
    ParentIsKey(c, Lower(b), r);
  }

  lemma {:induction false} ParentIsKey(c: Cache, key: Name, r: Record)
    requires Valid(c)
    ensures r in ListOf(c.names, key) ==> r.parent == key
  {
    hide Listed;
    if HasName(c.names, key) {
      assert NodeOk(c.names[LowerBound(c.names, key)]);
    }
  }
}
