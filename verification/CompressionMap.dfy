/** The compression map: nodes kept sorted by hash and string in a vector. */
module CompressionMap {
  import opened Basics
  import opened DnsParser
  import opened VectorModel
  import Lex

  /** `std::hash` of a string cut to 16 bits; nothing is assumed about it. */
  type Hash = Octets -> nat

  datatype Node = Node(hash: nat, offset: nat, str: Octets)

  function MakeNode(hash: Hash, s: Octets, offset: nat): Node {
    Node(hash(s) % 0x1_0000, offset % 0x1_0000, s)
  }

  predicate NodeLess(a: Node, b: Node) {
    a.hash < b.hash || (a.hash == b.hash && Lex.Less(a.str, b.str))
  }

  /** Nodes in order stand by hash, and those of one hash by string. */
  lemma {:induction false} SortedMeans(t: seq<Node>, i: nat, j: nat)
    requires Sorted(t) && i < j < |t|
    ensures t[i].hash < t[j].hash || (t[i].hash == t[j].hash && (t[i].str == t[j].str || Lex.Less(t[i].str, t[j].str)))
  {
    Lex.LessTotal(t[i].str, t[j].str);
  }

  lemma {:induction false} NodeLessTotal(a: Node, b: Node)
    ensures NodeLess(a, b) || NodeLess(b, a) || (a.hash == b.hash && a.str == b.str)
    ensures NodeLess(a, b) ==> !NodeLess(b, a) && !(a.hash == b.hash && a.str == b.str)
  {
    Lex.LessTotal(a.str, b.str);
  }

  lemma {:induction false} NodeLessTransitive(a: Node, b: Node, c: Node)
    requires !NodeLess(b, a) && !NodeLess(c, b)
    ensures !NodeLess(c, a)
    ensures NodeLess(a, b) || NodeLess(b, c) ==> NodeLess(a, c)
  {
    NodeLessTotal(a, b);
    NodeLessTotal(b, c);
    NodeLessTotal(a, c);
    if a.hash == b.hash == c.hash && Lex.Less(a.str, b.str) && Lex.Less(b.str, c.str) {
      Lex.LessTransitive(a.str, b.str, c.str);
    }
  }

  lemma {:induction false} NodeLessStep(a: Node, b: Node, c: Node)
    ensures NodeLess(a, b) && !NodeLess(c, b) ==> NodeLess(a, c)
  {
    NodeLessTotal(a, b);
    if NodeLess(a, b) && !NodeLess(c, b) {
      NodeLessTransitive(a, b, c);
    }
  }

  ghost predicate Sorted(t: seq<Node>) {
    forall i, j :: 0 <= i < j < |t| ==> !NodeLess(t[j], t[i])
  }

  ghost predicate Hashed(t: seq<Node>, hash: Hash) {
    forall i :: 0 <= i < |t| ==> t[i].hash == hash(t[i].str) % 0x1_0000
  }

  /** `std::lower_bound`: the first position whose node is not less than `n`. */
  function LowerBound(t: seq<Node>, n: Node): (i: nat)
    ensures i <= |t|
    ensures forall j :: 0 <= j < i ==> NodeLess(t[j], n)
    ensures i < |t| ==> !NodeLess(t[i], n)
  {
    if t == [] || !NodeLess(t[0], n) then 0
    else
      assert forall j :: 0 < j < |t| ==> t[j] == t[1..][j - 1];
      1 + LowerBound(t[1..], n)
  }

  /** `std::upper_bound`: the first position whose node is greater than `n`. */
  function UpperBound(t: seq<Node>, n: Node): (i: nat)
    ensures i <= |t|
    ensures forall j :: 0 <= j < i ==> !NodeLess(n, t[j])
    ensures i < |t| ==> NodeLess(n, t[i])
  {
    if t == [] || NodeLess(n, t[0]) then 0
    else
      assert forall j :: 0 < j < |t| ==> t[j] == t[1..][j - 1];
      1 + UpperBound(t[1..], n)
  }

  /** `CompressionMap::find`: the offset stored for a string. */
  function Find(t: seq<Node>, hash: Hash, s: Octets): (r: Option<nat>)
    ensures r.Some? ==> exists i :: 0 <= i < |t| && t[i].str == s && t[i].offset == r.value
  {
    var n := MakeNode(hash, s, 0);
    var i := LowerBound(t, n);
    if i < |t| && t[i].hash == n.hash && t[i].str == s then Some(t[i].offset) else None
  }

  function Insert(t: seq<Node>, n: Node): (r: seq<Node>)
    ensures forall x :: x in r <==> x in t || x == n
  {
    var i := UpperBound(t, n);
    assert t == t[..i] + t[i..];
    t[..i] + [n] + t[i..]
  }

  lemma {:induction false} InsertKeepsSorted(t: seq<Node>, n: Node)
    requires Sorted(t)
    ensures Sorted(Insert(t, n))
  {
    var k := UpperBound(t, n);
    var r := Insert(t, n);
    forall i, j | 0 <= i < j < |r| ensures !NodeLess(r[j], r[i]) {
      var a := if i < k then t[i] else if i == k then n else t[i - 1];
      var b := if j < k then t[j] else if j == k then n else t[j - 1];
      assert r[i] == a && r[j] == b;
      if i == k {
        AboveUpperBound(t, n, j - 1);
        NodeLessTotal(n, b);
      }
    }
  }

  lemma {:induction false} AboveUpperBound(t: seq<Node>, n: Node, j: nat)
    requires Sorted(t) && UpperBound(t, n) <= j < |t|
    ensures NodeLess(n, t[j])
  {
    var k := UpperBound(t, n);
    NodeLessTotal(n, t[k]);
    if k < j {
      NodeLessTransitive(n, t[k], t[j]);
    }
  }

  /** What a search finds: the first node with that string, if there is one. */
  ghost predicate FirstAt(t: seq<Node>, s: Octets, i: nat) {
    i < |t| && t[i].str == s && forall j :: 0 <= j < i ==> t[j].str != s
  }

  lemma {:induction false} FindIsFirst(t: seq<Node>, hash: Hash, s: Octets)
    requires Sorted(t) && Hashed(t, hash)
    ensures Find(t, hash, s).None? ==> forall i :: 0 <= i < |t| ==> t[i].str != s
    ensures forall i: nat :: FirstAt(t, s, i) ==> Find(t, hash, s) == Some(t[i].offset)
  {
    var n := MakeNode(hash, s, 0);
    var k := LowerBound(t, n);
    forall i | 0 <= i < |t| && t[i].str == s
      ensures k <= i && t[k].str == s && t[k].hash == n.hash
    {
      NodeLessTotal(t[i], n);
      assert !NodeLess(t[i], n) && !NodeLess(n, t[i]);
      if k < i {
        NodeLessTotal(t[k], n);
        NodeLessStep(n, t[k], t[i]);
      }
    }
    forall i: nat | FirstAt(t, s, i) ensures Find(t, hash, s) == Some(t[i].offset) {
      assert t[i].str == s;
      assert i == k;
    }
  }

  /** Insertion adds the string if it was absent; a string already there keeps the offset it
      was first stored with. */
  lemma {:induction false} FindAfterInsert(t: seq<Node>, hash: Hash, n: Node, s: Octets)
    requires Sorted(t) && Hashed(t, hash) && n.hash == hash(n.str) % 0x1_0000
    ensures Sorted(Insert(t, n)) && Hashed(Insert(t, n), hash)
    ensures Find(Insert(t, n), hash, s)
            == if Find(t, hash, s).None? && s == n.str then Some(n.offset) else Find(t, hash, s)
  {
    hide Find, NodeLess, Insert, UpperBound;
    InsertKeepsSorted(t, n);
    InsertKeepsHashed(t, hash, n);
    var r := Insert(t, n);
    FindIsFirst(t, hash, s);
    FindIsFirst(r, hash, s);
    if Find(t, hash, s).Some? {
      var i := FirstIndex(t, s);
      var j := FirstStays(t, n, s, i);
    } else {
      AbsentStays(t, n, s);
    }
  }

  lemma {:induction false} InsertAt(t: seq<Node>, n: Node, i: nat)
    requires i <= |t|
    ensures |Insert(t, n)| == |t| + 1
    ensures var k := UpperBound(t, n);
            Insert(t, n)[i] == if i < k then t[i] else if i == k then n else t[i - 1]
  {
  }

  lemma {:induction false} InsertKeepsHashed(t: seq<Node>, hash: Hash, n: Node)
    requires Hashed(t, hash) && n.hash == hash(n.str) % 0x1_0000
    ensures Hashed(Insert(t, n), hash)
  {
    hide Insert, UpperBound;
    var r := Insert(t, n);
    InsertAt(t, n, 0);
    forall i | 0 <= i < |r| ensures r[i].hash == hash(r[i].str) % 0x1_0000 {
      InsertAt(t, n, i);
    }
  }

  /** The first node with a string stays the first: a new one with that string goes behind. */
  lemma {:induction false} FirstStays(t: seq<Node>, n: Node, s: Octets, i: nat) returns (j: nat)
    requires Sorted(t) && FirstAt(t, s, i) && (s == n.str ==> t[i].hash == n.hash)
    ensures FirstAt(Insert(t, n), s, j) && Insert(t, n)[j] == t[i]
  {
    hide Insert, NodeLess, UpperBound;
    var k := UpperBound(t, n);
    NodeLessTotal(n, t[i]);
    if i >= k {
      AboveUpperBound(t, n, i);
    }
    j := if i < k then i else i + 1;
    InsertAt(t, n, j);
    forall m | 0 <= m < j ensures Insert(t, n)[m].str != s {
      InsertAt(t, n, m);
    }
  }

  lemma {:induction false} AbsentStays(t: seq<Node>, n: Node, s: Octets)
    requires forall i :: 0 <= i < |t| ==> t[i].str != s
    ensures s == n.str ==> FirstAt(Insert(t, n), s, UpperBound(t, n)) && Insert(t, n)[UpperBound(t, n)] == n
    ensures s != n.str ==> forall i :: 0 <= i < |Insert(t, n)| ==> Insert(t, n)[i].str != s
  {
    hide Insert, UpperBound;
    var r := Insert(t, n);
    InsertAt(t, n, UpperBound(t, n));
    forall m | 0 <= m < |r| ensures m < UpperBound(t, n) || s != n.str ==> r[m].str != s {
      InsertAt(t, n, m);
    }
  }

  lemma {:induction false} FirstIndex(t: seq<Node>, s: Octets) returns (i: nat)
    requires exists j :: 0 <= j < |t| && t[j].str == s
    ensures FirstAt(t, s, i)
  {
    i := 0;
    while t[i].str != s
      invariant i < |t| && forall j :: 0 <= j < i ==> t[j].str != s
      invariant exists j :: i <= j < |t| && t[j].str == s
      decreases |t| - i
    {
      i := i + 1;
    }
  }

  // ---------------------------------------------------------------- against an association list

  /** The offset of the earliest entry for `s`. */
  function Lookup(entries: seq<(Octets, nat)>, s: Octets): Option<nat> {
    if entries == [] then None
    else
      var last := entries[|entries| - 1];
      match Lookup(entries[..|entries| - 1], s)
      case Some(o) => Some(o)
      case None => if last.0 == s then Some(last.1 % 0x1_0000) else None
  }

  /** The map after inserting the entries in turn. */
  function Build(hash: Hash, entries: seq<(Octets, nat)>): seq<Node> {
    if entries == [] then []
    else
      var last := entries[|entries| - 1];
      Insert(Build(hash, entries[..|entries| - 1]), MakeNode(hash, last.0, last.1))
  }

  /** However the strings hash, the sorted vector answers as the plain list of entries would. */
  lemma {:induction false} MapIsAssociationList(hash: Hash, entries: seq<(Octets, nat)>, s: Octets)
    ensures Sorted(Build(hash, entries)) && Hashed(Build(hash, entries), hash)
    ensures Find(Build(hash, entries), hash, s) == Lookup(entries, s)
  {
    if entries != [] {
      var last := entries[|entries| - 1];
      MapIsAssociationList(hash, entries[..|entries| - 1], s);
      FindAfterInsert(Build(hash, entries[..|entries| - 1]), hash, MakeNode(hash, last.0, last.1), s);
    }
  }

  lemma {:induction false} IsLowerBound(t: seq<Node>, n: Node, pos: nat)
    requires pos <= |t| && (forall j :: 0 <= j < pos ==> NodeLess(t[j], n))
    requires forall j :: pos <= j < |t| ==> !NodeLess(t[j], n)
    ensures pos == LowerBound(t, n)
  {
    hide NodeLess;
    var i := LowerBound(t, n);
    assert pos < |t| ==> !NodeLess(t[pos], n);
    assert i < |t| ==> !NodeLess(t[i], n);
  }

  lemma {:induction false} IsUpperBound(t: seq<Node>, n: Node, pos: nat)
    requires pos <= |t| && (forall j :: 0 <= j < pos ==> !NodeLess(n, t[j]))
    requires forall j :: pos <= j < |t| ==> NodeLess(n, t[j])
    ensures pos == UpperBound(t, n)
  {
    hide NodeLess;
    var i := UpperBound(t, n);
    assert pos < |t| ==> NodeLess(n, t[pos]);
    assert i < |t| ==> NodeLess(n, t[i]);
  }

  /** One look into the middle decides for one of the halves. */
  lemma {:induction false} LowerHalf(t: seq<Node>, n: Node, mid: nat)
    requires Sorted(t) && mid < |t|
    ensures NodeLess(t[mid], n) ==> forall j :: 0 <= j <= mid ==> NodeLess(t[j], n)
    ensures !NodeLess(t[mid], n) ==> forall j :: mid <= j < |t| ==> !NodeLess(t[j], n)
  {
    hide NodeLess;
    NodeLessTotal(t[mid], n);
    forall j | 0 <= j < mid && NodeLess(t[mid], n) ensures NodeLess(t[j], n) {
      NodeLessTransitive(t[j], t[mid], n);
    }
    forall j | mid < j < |t| && !NodeLess(t[mid], n) ensures !NodeLess(t[j], n) {
      NodeLessStep(t[j], n, t[mid]);
    }
  }

  lemma {:induction false} UpperHalf(t: seq<Node>, n: Node, mid: nat)
    requires Sorted(t) && mid < |t|
    ensures !NodeLess(n, t[mid]) ==> forall j :: 0 <= j <= mid ==> !NodeLess(n, t[j])
    ensures NodeLess(n, t[mid]) ==> forall j :: mid <= j < |t| ==> NodeLess(n, t[j])
  {
    hide NodeLess;
    forall j | 0 <= j < mid && !NodeLess(n, t[mid]) ensures !NodeLess(n, t[j]) {
      NodeLessTransitive(t[j], t[mid], n);
    }
    forall j | mid < j < |t| && NodeLess(n, t[mid]) ensures NodeLess(n, t[j]) {
      NodeLessStep(n, t[mid], t[j]);
    }
  }

  /** The map in memory. */
  class Map {
    const hash: Hash
    var buckets: Vector<Node>

    ghost predicate Valid()
      reads this, buckets, buckets.data
    {
      buckets.Valid() && Sorted(buckets.Contents()) && Hashed(buckets.Contents(), hash)
    }

    ghost function Table(): seq<Node>
      requires Valid()
      reads this, buckets, buckets.data
    {
      buckets.Contents()
    }

    constructor (hash: Hash)
      ensures Valid() && fresh(buckets) && fresh(buckets.data) && Table() == [] && this.hash == hash
    {
      this.hash := hash;
      buckets := new Vector<Node>();
    }

    /** `std::lower_bound`: halves the range until it is empty. */
    method SearchLower(n: Node) returns (pos: nat)
      requires Valid()
      ensures pos == LowerBound(Table(), n)
    {
      hide NodeLess;
      ghost var t := Table();
      pos := 0;
      var count := buckets.size;
      while count > 0
        invariant pos + count <= buckets.size
        invariant forall j :: 0 <= j < pos ==> NodeLess(t[j], n)
        invariant forall j :: pos + count <= j < |t| ==> !NodeLess(t[j], n)
      {
        var half := count / 2;
        LowerHalf(t, n, pos + half);
        if NodeLess(buckets.data[pos + half], n) {
          pos, count := pos + half + 1, count - half - 1;
        } else {
          count := half;
        }
      }
      IsLowerBound(t, n, pos);
    }

    /** `std::upper_bound`. */
    method SearchUpper(n: Node) returns (pos: nat)
      requires Valid()
      ensures pos == UpperBound(Table(), n)
    {
      hide NodeLess;
      ghost var t := Table();
      pos := 0;
      var count := buckets.size;
      while count > 0
        invariant pos + count <= buckets.size
        invariant forall j :: 0 <= j < pos ==> !NodeLess(n, t[j])
        invariant forall j :: pos + count <= j < |t| ==> NodeLess(n, t[j])
      {
        var half := count / 2;
        UpperHalf(t, n, pos + half);
        if !NodeLess(n, buckets.data[pos + half]) {
          pos, count := pos + half + 1, count - half - 1;
        } else {
          count := half;
        }
      }
      IsUpperBound(t, n, pos);
    }

    /** A failed insertion, for want of memory, changes nothing. */
    method InsertNode(s: Octets, offset: nat, grantedFirst: bool, grantedSecond: bool) returns (ok: bool)
      requires Valid()
      modifies buckets, buckets.data
      ensures Valid() && (buckets.data == old(buckets.data) || fresh(buckets.data))
      ensures grantedFirst && grantedSecond ==> ok
      ensures Table() == if ok then Insert(old(Table()), MakeNode(hash, s, offset)) else old(Table())
    {
      hide Insert, Sorted, Hashed;
      var n := MakeNode(hash, s, offset);
      ghost var t := Table();
      KeepsOrder(t, hash, n);
      var pos := SearchUpper(n);
      ok := buckets.InsertRange(pos, [n], grantedFirst, grantedSecond);
    }

    method FindOffset(s: Octets) returns (r: Option<nat>)
      requires Valid()
      ensures r == Find(Table(), hash, s)
    {
      var n := MakeNode(hash, s, 0);
      var pos := SearchLower(n);
      if pos < buckets.size && buckets.data[pos].hash == n.hash && buckets.data[pos].str == s {
        return Some(buckets.data[pos].offset);
      }
      return None;
    }
  }

  lemma {:induction false} KeepsOrder(t: seq<Node>, hash: Hash, n: Node)
    requires Sorted(t) && Hashed(t, hash) && n.hash == hash(n.str) % 0x1_0000
    ensures Sorted(Insert(t, n)) && Hashed(Insert(t, n), hash)
    ensures Insert(t, n) == t[..UpperBound(t, n)] + [n] + t[UpperBound(t, n)..]
  {
    FindAfterInsert(t, hash, n, []);
  }
}
