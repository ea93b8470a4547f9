/** Letter case: a push searches with the name as given and stores its lower-case form. */
module CacheNames {
  import opened CacheModel
  import Lex

  lemma {:induction false} LowerIsNotLess(name: Name)
    ensures !Lex.Less(Lower(name), name)
  {
    if name != [] {
      LowerIsNotLess(name[1..]);
      assert Lower(name)[1..] == Lower(name[1..]);
    }
  }

  ghost predicate Between(low: Name, n: Name, high: Name) {
    !Lex.Less(n, low) && !Lex.Less(high, n)
  }

  /** The name is in lower case already or no stored name lies between it and its lower-case
      form. */
  ghost predicate Clear(names: seq<NameNode>, name: Name) {
    Lower(name) == name || forall j :: 0 <= j < |names| ==> !Between(name, names[j].name, Lower(name))
  }

  /** The search uses the name as given, storage its lower-case form. The index stays ordered
      exactly when nothing lies between the two. */
  lemma {:induction false} OrderedIffNothingBetween(names: seq<NameNode>, name: Name)
    requires StrictlySorted(names) && forall i :: 0 <= i < |names| ==> NodeOk(names[i])
    ensures StrictlySorted(WithName(names, name)) <==> Clear(names, name)
  {
    var l := Lower(name);
    var i := LowerBound(names, name);
    if HasName(names, name) {
      assert NodeOk(names[i]);
    } else if l == name {
      WithNameSorted(names, name);
    } else {
      LowerIsNotLess(name);
      Lex.LessTotal(l, name);
      forall j | 0 <= j < i ensures Lex.Less(names[j].name, l) && !Between(name, names[j].name, l) {
        Lex.LessTransitive(names[j].name, name, l);
      }
      InsertedOrder(names, name, i, l);
      if i < |names| {
        Lex.LessTotal(names[i].name, l);
        forall j | i < j < |names| && !Between(name, names[i].name, l) ensures !Between(name, names[j].name, l) {
          Lex.LessTransitive(l, names[i].name, names[j].name);
        }
      }
    }
  }

  lemma {:induction false} InsertedOrder(names: seq<NameNode>, name: Name, i: nat, l: Name)
    requires StrictlySorted(names) && !HasName(names, name) && i == LowerBound(names, name) && l == Lower(name)
    requires forall j :: 0 <= j < i ==> Lex.Less(names[j].name, l)
    ensures StrictlySorted(WithName(names, name)) <==> (i < |names| ==> Lex.Less(l, names[i].name))
  {
    var r := WithName(names, name);
    assert r[i].name == l;
    if i < |names| {
      assert r[i + 1] == names[i];
    }
    if i < |names| ==> Lex.Less(l, names[i].name) {
      forall a, b | 0 <= a < b < |r| ensures Lex.Less(r[a].name, r[b].name) {
        InsertedPair(names, i, l, a, b);
      }
    }
  }

  lemma {:induction false} LowerTwice(name: Name)
    ensures Lower(Lower(name)) == Lower(name)
  {
  }

  /** The search for the name as given ends where the search for its lower-case form does. */
  lemma {:induction false} SamePlace(names: seq<NameNode>, name: Name)
    requires StrictlySorted(names) && (forall i :: 0 <= i < |names| ==> NodeOk(names[i])) && Clear(names, name)
    ensures LowerBound(names, name) == LowerBound(names, Lower(name))
    ensures HasName(names, name) <==> HasName(names, Lower(name))
  {
    var l := Lower(name);
    var i, k := LowerBound(names, name), LowerBound(names, l);
    if l != name {
      LowerIsNotLess(name);
      Lex.LessTotal(l, name);
      Lex.LessIrreflexive(l);
      if k < i {
        Lex.LessTransitive(names[k].name, name, l);
      }
      if i < |names| {
        Lex.LessTotal(names[i].name, l);
        assert !Between(name, names[i].name, l);
      }
      assert i < |names| ==> NodeOk(names[i]);
    }
  }

  /** So it is the same push. */
  lemma {:induction false} SamePush(c: Cache, name: Name, recs: seq<Record>)
    requires Valid(c) && Clear(c.names, name)
    ensures AfterPush(c, name, recs) == AfterPush(c, Lower(name), recs)
  {
    hide Clear, Listed, StrictlySorted, LowerBound, InsertAll, Reverse;
    SamePlace(c.names, name);
    LowerTwice(name);
  }

  /** A push keeps the two indexes consistent if and only if no stored name lies between the name
      as given and its lower-case form. */
  lemma {:induction false} PushKeepsValidIff(c: Cache, name: Name, recs: seq<Record>)
    requires Valid(c) && NewRecords(recs, Lower(name), c.byExpiry)
    ensures Valid(AfterPush(c, name, recs)) <==> Clear(c.names, name)
  {
    hide Clear, Listed, LowerBound, InsertAll, Reverse, NodeOk, Lex.Less;
    if Clear(c.names, name) {
      SamePush(c, name, recs);
      LowerTwice(name);
      LowerPushKeepsValid(c, Lower(name), recs);
    }
    if Valid(AfterPush(c, name, recs)) {
      PushedNames(c.names, name, recs);
      OrderedIffNothingBetween(c.names, name);
    }
  }

  lemma {:induction false} PushedNames(names: seq<NameNode>, name: Name, recs: seq<Record>)
    ensures StrictlySorted(PushNames(names, name, recs)) ==> StrictlySorted(WithName(names, name))
  {
    hide Lex.Less, WithName, LowerBound, Reverse;
    var n1, n2 := WithName(names, name), PushNames(names, name, recs);
    assert forall i :: 0 <= i < |n1| ==> n2[i].name == n1[i].name;
  }

  /** And then it puts its entries in front of the flat list, latest expiry first. */
  lemma {:induction false} PushKeepsAgreement(c: Cache, flat: Flat, name: Name, recs: seq<Record>)
    requires Valid(c) && Clear(c.names, name) && NewRecords(recs, Lower(name), c.byExpiry) && Agrees(c, flat)
    ensures Agrees(AfterPush(c, name, recs), ListEntries(Reverse(recs)) + flat)
  {
    hide Clear, Valid, Agrees, AfterPush;
    SamePush(c, name, recs);
    LowerTwice(name);
    LowerPushKeepsAgreement(c, flat, Lower(name), recs);
  }

  /** Such a push: "A" after "A" has been stored as "a" makes a second node for the same name,
      and the addresses pushed first are found no more. */
  lemma {:induction false} UpperCaseHidesAddresses(first: Record, second: Record)
    ensures var c1 := PushNames([], [65], [first]);
            var c2 := PushNames(c1, [65], [second]);
            ListOf(c1, [97]) == [first] && ListOf(c2, [97]) == [second]
  {
    var a: Name, b: Name := [65], [97];
    assert Lower(a) == b;
    Singles(first);
    Singles(second);
    var n0: seq<NameNode> := [];
    assert LowerBound(n0, a) == 0 && !HasName(n0, a);
    assert n0[..0] + [NameNode(b, [])] + n0[0..] == [NameNode(b, [])];
    assert WithName(n0, a) == [NameNode(b, [])];
    var n1 := [NameNode(b, [first])];
    assert [first] + [] == [first];
    assert PushNames(n0, a, [first]) == n1;
    assert !Lex.Less(b, a) && !Lex.Less(b, b);
    assert LowerBound(n1, a) == 0 && LowerBound(n1, b) == 0 && !HasName(n1, a);
    var n2 := [NameNode(b, [second]), NameNode(b, [first])];
    assert n1[..0] + [NameNode(b, [])] + n1[0..] == [NameNode(b, []), NameNode(b, [first])];
    assert WithName(n1, a) == [NameNode(b, []), NameNode(b, [first])];
    assert [second] + [] == [second];
    assert PushNames(n1, a, [second]) == n2;
    assert LowerBound(n2, b) == 0;
  }

  lemma {:induction false} Singles(r: Record)
    ensures Reverse([r]) == [r]
  {
    assert [r][1..] == [];
    assert Reverse([]) + [r] == [r];
  }
}
