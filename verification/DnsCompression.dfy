/** Exactly what the name encoder writes and remembers. */
module DnsCompression {
  import opened Basics
  import opened DnsParser
  import opened DnsNames
  import opened CompressionMap
  import opened DnsEncoder

  /** Labels with dots between them. */
  function Dotted(labels: Labels): Octets {
    if labels == [] then []
    else if |labels| == 1 then labels[0]
    else labels[0] + [46] + Dotted(labels[1..])
  }

  lemma {:induction false} SplitIsDotted(s: Octets)
    ensures Dotted(Split(s)) == s && forall i :: 0 <= i < |Split(s)| ==> 46 !in Split(s)[i]
    decreases |s|
  {
    hide FirstDot;
    var i := FirstDot(s);
    if i < |s| {
      SplitIsDotted(s[i + 1..]);
      DottedCons(s[..i], Split(s[i + 1..]));
      assert s == s[..i] + [46] + s[i + 1..];
    } else {
      assert s[..i] == s;
    }
  }

  lemma {:induction false} DottedCons(part: Octets, labels: Labels)
    requires labels != []
    ensures Dotted([part] + labels) == part + [46] + Dotted(labels)
  {
    assert ([part] + labels)[1..] == labels;
  }

  /** The labels of a name are what stands between its dots, one trailing dot not counting; no
      other division has no dot in a label. */
  lemma {:induction false} LabelsMakeName(name: Octets)
    ensures var s := StripDot(name);
            && (if name != [] && name[|name| - 1] == 46 then name == s + [46] else name == s)
            && Dotted(SplitIntoLabels(name)) == s
            && (s == [] <==> SplitIntoLabels(name) == [])
            && forall i :: 0 <= i < |SplitIntoLabels(name)| ==> 46 !in SplitIntoLabels(name)[i]
  {
    SplitIsDotted(StripDot(name));
  }

  /** Each label with its length in front. */
  function Prefixed(labels: Labels): (r: Octets)
    requires forall i :: 0 <= i < |labels| ==> |labels[i]| <= 63
  {
    if labels == [] then [] else [|labels[0]|] + labels[0] + Prefixed(labels[1..])
  }

  ghost predicate GoodLabels(labels: Labels) {
    forall i :: 0 <= i < |labels| ==> 1 <= |labels[i]| <= 63
  }

  /** The map is as its insertions leave it. */
  ghost predicate Kept(w: Writer, hash: Hash) {
    Offsets(w.table) && Sorted(w.table) && Hashed(w.table, hash)
  }

  /** The first `k` labels are good, and from none of them on the rest of the name is in the map. */
  ghost predicate NewUpTo(e: Env, t: seq<Node>, labels: Labels, dot: Octets, k: nat) {
    && k <= |labels| && GoodLabels(labels[..k])
    && forall i :: 0 <= i < k ==> Find(t, e.hash, Dotted(labels[i..]) + dot).None?
  }

  /** What a call makes of a name: it writes the first `k` labels, and then it is at the end, or
      at a rest that is in the map, or at a bad label. */
  ghost predicate Outcome(e: Env, w: Writer, labels: Labels, dot: Octets, k: nat, r: Result<Writer, EncodeError>) {
    && NewUpTo(e, w.table, labels, dot, k)
    && if k == |labels| then r.Ok? && r.value.out == w.out + Prefixed(labels[..k]) + [0]
       else if labels[k] == [] then r == Err(EmptyLabel)
       else if |labels[k]| > 63 then r == Err(TooLongDomainNameLabel)
       else
         match Find(w.table, e.hash, Dotted(labels[k..]) + dot)
         case Some(offset) =>
           r.Ok? && offset < 0x4000
           && r.value.out == w.out + Prefixed(labels[..k]) + [0xC0 + offset / 256, offset % 256]
         case None => false
  }

  /** What the map answers afterwards: a rest of the name that was written here, at an offset that
      fits a pointer and with memory granted, is there with that offset; nothing else changed. */
  ghost predicate Remembers(e: Env, w: Writer, labels: Labels, dot: Octets, k: nat, t: seq<Node>) {
    && k <= |labels| && GoodLabels(labels[..k])
    && (forall i :: 0 <= i < k ==>
          var at := |w.out| + |Prefixed(labels[..k][..i])|;
          Find(t, e.hash, Dotted(labels[i..]) + dot) == if at <= 0x3FFF && e.granted(at) then Some(at) else None)
    && (forall key :: (forall i :: 0 <= i < k ==> key != Dotted(labels[i..]) + dot) ==>
          Find(t, e.hash, key) == Find(w.table, e.hash, key))
  }

  lemma {:induction false} RestIsShorter(labels: Labels, i: nat)
    requires i <= |labels|
    ensures |Dotted(labels[i..])| <= |Dotted(labels)|
    decreases i
  {
    if i > 0 {
      RestIsShorter(labels[1..], i - 1);
      assert labels[1..][i - 1..] == labels[i..];
    } else {
      assert labels[0..] == labels;
    }
  }

  /** Behind one more label the rests are those of the other labels. */
  lemma {:induction false} ConsRests(part: Octets, labels: Labels, i: nat)
    requires i <= |labels|
    ensures ([part] + labels)[i + 1..] == labels[i..] && ([part] + labels)[..i + 1] == [part] + labels[..i]
    ensures labels != [] ==> |Dotted(labels[i..])| < |Dotted([part] + labels)|
  {
    RestIsShorter(labels, i);
    assert ([part] + labels)[1..] == labels;
  }

  lemma {:induction false} PrefixedCons(part: Octets, labels: Labels)
    requires |part| <= 63 && forall i :: 0 <= i < |labels| ==> |labels[i]| <= 63
    ensures Prefixed([part] + labels) == [|part|] + part + Prefixed(labels)
  {
    assert ([part] + labels)[1..] == labels;
  }

  /** What writing one label does to the answers of the map. */
  lemma {:induction false} WriteLabelFinds(e: Env, w: Writer, part: Octets, remaining: Octets, key: Octets)
    requires Kept(w, e.hash) && 1 <= |part| <= 63 && Find(w.table, e.hash, remaining).None?
    ensures Kept(WriteLabel(e, w, part, remaining), e.hash)
    ensures Find(WriteLabel(e, w, part, remaining).table, e.hash, key)
            == if key != remaining then Find(w.table, e.hash, key)
               else if |w.out| <= 0x3FFF && e.granted(|w.out|) then Some(|w.out|) else None
  {
    hide Insert, Find, Sorted, Hashed;
    if |w.out| <= 0x3FFF {
      FindAfterInsert(w.table, e.hash, MakeNode(e.hash, remaining, |w.out|), key);
    }
  }

  /** `w1` is `w` with one more label written. */
  ghost predicate OneMore(e: Env, w: Writer, w1: Writer, part: Octets, whole: Octets) {
    && 1 <= |part| <= 63 && w1.out == w.out + [|part|] + part
    && Find(w.table, e.hash, whole).None?
    && (forall key :: key != whole ==> Find(w1.table, e.hash, key) == Find(w.table, e.hash, key))
    && Find(w1.table, e.hash, whole) == if |w.out| <= 0x3FFF && e.granted(|w.out|) then Some(|w.out|) else None
  }

  lemma {:induction false} LiftNew(e: Env, w: Writer, w1: Writer, part: Octets, labels: Labels, dot: Octets, m: nat)
    requires labels != [] && OneMore(e, w, w1, part, Dotted([part] + labels) + dot)
    requires NewUpTo(e, w1.table, labels, dot, m)
    ensures NewUpTo(e, w.table, [part] + labels, dot, m + 1)
  {
    hide Find, Dotted;
    var all := [part] + labels;
    ConsRests(part, labels, m);
    forall i | 0 <= i < m + 1 ensures Find(w.table, e.hash, Dotted(all[i..]) + dot).None? {
      if i == 0 {
        assert all[0..] == all;
      } else {
        ConsRests(part, labels, i - 1);
      }
    }
  }

  lemma {:induction false} LiftOutcome(e: Env, w: Writer, w1: Writer, part: Octets, labels: Labels, dot: Octets,
                                       m: nat, r: Result<Writer, EncodeError>)
    requires labels != [] && OneMore(e, w, w1, part, Dotted([part] + labels) + dot)
    requires Outcome(e, w1, labels, dot, m, r)
    ensures Outcome(e, w, [part] + labels, dot, m + 1, r)
  {
    hide Find, Dotted, Prefixed;
    LiftNew(e, w, w1, part, labels, dot, m);
    ConsRests(part, labels, m);
    PrefixedCons(part, labels[..m]);
    var all := [part] + labels;
    assert w1.out + Prefixed(labels[..m]) == w.out + Prefixed(all[..m + 1]);
  }

  lemma {:induction false} LiftRemembers(e: Env, w: Writer, w1: Writer, part: Octets, labels: Labels, dot: Octets,
                                         m: nat, t: seq<Node>)
    requires labels != [] && OneMore(e, w, w1, part, Dotted([part] + labels) + dot)
    requires Remembers(e, w1, labels, dot, m, t)
    ensures Remembers(e, w, [part] + labels, dot, m + 1, t)
  {
    hide Find, Dotted, Prefixed;
    var all := [part] + labels;
    ConsRests(part, labels, m);
    assert all[0..] == all;
    var whole := Dotted(all) + dot;
    forall i | 0 <= i < m ensures whole != Dotted(labels[i..]) + dot {
      ConsRests(part, labels, i);
    }
    forall i | 0 <= i < m + 1
      ensures var at := |w.out| + |Prefixed(all[..m + 1][..i])|;
              Find(t, e.hash, Dotted(all[i..]) + dot) == if at <= 0x3FFF && e.granted(at) then Some(at) else None
    {
      LiftPosition(e, w, w1, part, labels, m, i);
    }
    forall key | forall i :: 0 <= i < m + 1 ==> key != Dotted(all[i..]) + dot
      ensures Find(t, e.hash, key) == Find(w.table, e.hash, key)
    {
      LiftOtherKey(part, labels, dot, m, key);
    }
  }

  lemma {:induction false} LiftOtherKey(part: Octets, labels: Labels, dot: Octets, m: nat, key: Octets)
    requires m <= |labels| && forall i :: 0 <= i < m + 1 ==> key != Dotted(([part] + labels)[i..]) + dot
    ensures key != Dotted([part] + labels) + dot
    ensures forall i :: 0 <= i < m ==> key != Dotted(labels[i..]) + dot
  {
    hide Dotted;
    var all := [part] + labels;
    assert all[0..] == all;
    assert key != Dotted(all[0..]) + dot;
    forall i | 0 <= i < m ensures key != Dotted(labels[i..]) + dot {
      ConsRests(part, labels, i);
      assert key != Dotted(all[i + 1..]) + dot;
    }
  }

  lemma {:induction false} LiftPosition(e: Env, w: Writer, w1: Writer, part: Octets, labels: Labels, m: nat, i: nat)
    requires 1 <= |part| <= 63 && w1.out == w.out + [|part|] + part
    requires m <= |labels| && GoodLabels(labels[..m]) && i <= m
    ensures GoodLabels(([part] + labels)[..m + 1])
    ensures ([part] + labels)[i..] == if i == 0 then [part] + labels else labels[i - 1..]
    ensures |w.out| + |Prefixed(([part] + labels)[..m + 1][..i])|
            == if i == 0 then |w.out| else |w1.out| + |Prefixed(labels[..m][..i - 1])|
  {
    ConsRests(part, labels, m);
    var all := [part] + labels;
    if i > 0 {
      ConsRests(part, labels, i - 1);
      assert all[..m + 1][..i] == [part] + labels[..m][..i - 1];
      PrefixedCons(part, labels[..m][..i - 1]);
    }
  }

  lemma {:induction false} LastLabel(e: Env, w: Writer, w1: Writer, part: Octets, dot: Octets)
    requires OneMore(e, w, w1, part, part + dot)
    ensures Outcome(e, w, [part], dot, 1, Ok(w1.(out := w1.out + [0])))
    ensures Remembers(e, w, [part], dot, 1, w1.table)
  {
    hide Find;
    var all := [part];
    var none: Labels := [];
    assert all[..1] == all && all[0..] == all && all[..1][..0] == none && all[1..] == none;
    assert Prefixed(all) == [|part|] + part + [];
    assert Dotted(all) == part;
    assert w.out + [|part|] + part + [0] == w.out + Prefixed(all) + [0];
    forall key | forall i :: 0 <= i < 1 ==> key != Dotted(all[i..]) + dot
      ensures Find(w1.table, e.hash, key) == Find(w.table, e.hash, key)
    {
      assert key != Dotted(all[0..]) + dot;
    }
  }

  lemma {:induction false} FoundOffset(w: Writer, hash: Hash, key: Octets)
    requires Offsets(w.table) && Find(w.table, hash, key).Some?
    ensures Find(w.table, hash, key).value < 0x4000
  {
  }

  lemma {:induction false} NothingWritten(e: Env, w: Writer, labels: Labels, dot: Octets)
    ensures Remembers(e, w, labels, dot, 0, w.table) && NewUpTo(e, w.table, labels, dot, 0)
    ensures Prefixed(labels[..0]) == []
  {
  }

  /** Exactly what a call writes and remembers: the labels of the name up to the end, or up to the
      first rest that is in the map, for which it writes a pointer, or up to the first bad label,
      which it reports. */
  lemma {:induction false} EncodeIsExact(e: Env, w: Writer, s: Octets, dot: Octets) returns (k: nat)
    requires Kept(w, e.hash)
    ensures var r := Encode(e, w, s, dot);
            && Outcome(e, w, Split(s), dot, k, r)
            && (r.Ok? ==> Kept(r.value, e.hash) && Remembers(e, w, Split(s), dot, k, r.value.table))
    decreases |s|
  {
    hide Encode, Find, Sorted, Hashed, WriteLabel, Dotted, Prefixed;
    var i := FirstDot(s);
    var part := s[..i];
    EncodeTurn(e, w, s, dot);
    SplitIsDotted(s);
    assert Split(s)[0..] == Split(s) && Split(s)[0] == part;
    k := 0;
    NothingWritten(e, w, Split(s), dot);
    if 1 <= |part| <= 63 && Find(w.table, e.hash, s + dot).None? {
      var w1 := WriteLabel(e, w, part, s + dot);
      forall key ensures Kept(w1, e.hash)
        ensures Find(w1.table, e.hash, key)
                == if key != s + dot then Find(w.table, e.hash, key)
                   else if |w.out| <= 0x3FFF && e.granted(|w.out|) then Some(|w.out|) else None
      {
        WriteLabelFinds(e, w, part, s + dot, key);
      }
      assert OneMore(e, w, w1, part, s + dot);
      if i == |s| {
        k := 1;
        LastLabel(e, w, w1, part, dot);
      } else {
        var m := EncodeIsExact(e, w1, s[i + 1..], dot);
        var labels, r := Split(s[i + 1..]), Encode(e, w, s, dot);
        LiftOutcome(e, w, w1, part, labels, dot, m, r);
        if r.Ok? {
          LiftRemembers(e, w, w1, part, labels, dot, m, r.value.table);
        }
        k := m + 1;
      }
    } else if 1 <= |part| <= 63 {
      FoundOffset(w, e.hash, s + dot);
    }
  }

  function TrailingDot(name: Octets): Octets {
    if name != [] && name[|name| - 1] == 46 then [46] else []
  }

  /** The same for a whole name, which is refused first if it has more than 255 octets. */
  lemma {:induction false} EncodeNameIsExact(e: Env, w: Writer, name: Octets) returns (k: nat)
    requires Kept(w, e.hash)
    ensures var r := EncodeDomainName(e, w, name);
            if |name| > 255 then r == Err(TooLongDomainName)
            else
              && Outcome(e, w, SplitIntoLabels(name), TrailingDot(name), k, r)
              && (r.Ok? ==>
                    Kept(r.value, e.hash)
                    && Remembers(e, w, SplitIntoLabels(name), TrailingDot(name), k, r.value.table))
  {
    hide Sorted, Hashed, Remembers, Encode, Find, Dotted;
    k := 0;
    if |name| <= 255 {
      var s := StripDot(name);
      if s == [] {
        NothingWritten(e, w, [], TrailingDot(name));
      } else {
        k := EncodeIsExact(e, w, s, TrailingDot(name));
      }
    }
  }

  /** A name once remembered is written as two octets, wherever it comes again. */
  lemma {:induction false} SecondTimeIsPointer(e: Env, w: Writer, name: Octets, later: Writer)
    requires Kept(w, e.hash) && StripDot(name) != [] && EncodeDomainName(e, w, name).Ok?
    requires |w.out| <= 0x3FFF && e.granted(|w.out|) && Find(w.table, e.hash, name).None?
    requires Kept(later, e.hash)
    requires var t := EncodeDomainName(e, w, name).value.table;
             Find(later.table, e.hash, name) == Find(t, e.hash, name)
    ensures var r := EncodeDomainName(e, later, name);
            r.Ok? && r.value.out == later.out + [0xC0 + |w.out| / 256, |w.out| % 256]
  {
    hide Encode, Find, Dotted, Prefixed, EncodeDomainName, SplitIntoLabels, Sorted, Hashed;
    var labels, dot := SplitIntoLabels(name), TrailingDot(name);
    LabelsMakeName(name);
    assert labels[0..] == labels && Dotted(labels) + dot == name;
    var k := EncodeNameIsExact(e, w, name);
    NameFits(e, w, name);
    assert k > 0;
    NothingWritten(e, w, labels[..k], dot);
    assert labels[..k][..0] == labels[..0] && labels[..k][..0] == labels[..k][..0][..0];
    assert Find(EncodeDomainName(e, w, name).value.table, e.hash, Dotted(labels[0..]) + dot) == Some(|w.out|);
    var m := EncodeNameIsExact(e, later, name);
    FirstIsNew(e, later.table, labels, dot, m);
    NothingWritten(e, later, labels, dot);
    assert later.out + [] == later.out;
    var written: Labels := labels[..k];
    assert 1 <= |written[0]| <= 63 && written[0] == labels[0];
  }

  lemma {:induction false} FirstIsNew(e: Env, t: seq<Node>, labels: Labels, dot: Octets, m: nat)
    requires NewUpTo(e, t, labels, dot, m)
    ensures m > 0 ==> Find(t, e.hash, Dotted(labels) + dot).None?
  {
    if m > 0 {
      assert labels[0..] == labels;
    }
  }

  lemma {:induction false} NameFits(e: Env, w: Writer, name: Octets)
    requires Offsets(w.table) && EncodeDomainName(e, w, name).Ok?
    ensures |name| <= 255
  {
  }
}
