/** Exactly which texts are read as an IPv6 address, and as which one. */
module Ipv6Grammar {
  import opened Basics
  import opened Ipv6Text

  /** The text starts with one to four digits that spell `v`, as many as there are, and `rest`
      follows them. */
  ghost predicate GroupAt(s: string, t: string, v: nat, rest: string) {
    && s == t + rest && GroupText(t, v)
    && (|t| == 4 || rest == [] || forall d :: !DigitIs(rest[0], d))
  }

  ghost predicate Group(s: string, v: nat, rest: string) {
    exists t :: GroupAt(s, t, v, rest)
  }

  /** What is read of a group when `p` has been read of it already. */
  lemma {:induction false} GroupGrows(p: string, s: string) returns (t: string)
    requires |p| <= 4 && AllHex(p) && HexValue(p) < 0x1_0000
    ensures match GroupFrom(s, |p|, HexValue(p))
            case None => p == [] && s != [] && HexCharToNum(s[0]).None?
            case Some((v, rest)) =>
              && p + s == t + rest && |p| <= |t| <= 4 && AllHex(t) && HexValue(t) == v
              && (s != [] ==> t != [])
              && (|t| == 4 || rest == [] || HexCharToNum(rest[0]).None?)
    decreases 4 - |p|
  {
    hide HexCharToNum, HexValue, GroupFrom;
    t := p;
    if |p| < 4 && s != [] && HexCharToNum(s[0]).Some? {
      var q := p + [s[0]];
      assert q[..|p|] == p && q[..|p| + 1] == q && p + s == q + s[1..];
      HexValueStep(q, |p|);
      HexValueBound(q);
      GroupGoesOn(s, |p|, HexValue(p));
      t := GroupGrows(q, s[1..]);
    } else {
      GroupStops(s, |p|, HexValue(p));
    }
  }

  lemma {:induction false} GroupStops(s: string, k: nat, group: nat)
    requires k <= 4 && (k == 4 || s == [] || HexCharToNum(s[0]).None?)
    ensures GroupFrom(s, k, group) == if k == 0 && s != [] then None else Some((group, s))
  {
    hide HexCharToNum;
  }

  lemma {:induction false} HexIsGroupText(t: string)
    requires 1 <= |t| <= 4 && AllHex(t)
    ensures GroupText(t, HexValue(t))
  {
    hide HexCharToNum, DigitIs, HexValue;
    var ds := seq(|t|, i requires 0 <= i < |t| => HexCharToNum(t[i]).value);
    forall i | 0 <= i < |t| ensures DigitIs(t[i], ds[i]) {
      DigitsAreRead(t[i], ds[i]);
    }
    assert Digits(t, ds);
    DigitsSpell(t, ds);
  }

  lemma {:induction false} NoDigit(c: char)
    ensures HexCharToNum(c).None? <==> forall d :: !DigitIs(c, d)
  {
    hide DigitIs, HexCharToNum;
    forall d: nat ensures HexCharToNum(c) == Some(d) <==> DigitIs(c, d) {
      DigitsAreRead(c, d);
    }
    assert HexCharToNum(c).Some? ==> DigitIs(c, HexCharToNum(c).value);
  }

  /** As many digits as there are: this is unique. */
  lemma {:induction false} GroupIsUnique(s: string, t: string, v: nat, rest: string, t2: string, v2: nat, rest2: string)
    requires GroupAt(s, t, v, rest) && GroupAt(s, t2, v2, rest2) && |t| <= |t2|
    ensures t == t2 && v == v2 && rest == rest2
  {
    hide DigitIs, HexCharToNum, GroupText, HexValue;
    GroupTextMeans(t, v);
    GroupTextMeans(t2, v2);
    if |t| < |t2| {
      assert rest[0] == s[|t|] == t2[|t|];
      NoDigit(rest[0]);
      assert false;
    }
    assert t == s[..|t|] == t2 && rest == s[|t|..] == rest2;
  }

  /** A group is read exactly when there is one. */
  lemma {:induction false} GroupIsReadIff(s: string, v: nat, rest: string)
    requires s != []
    ensures ParseIpv6Group(s) == Some((v, rest)) <==> Group(s, v, rest)
  {
    hide HexCharToNum, DigitIs, GroupFrom, GroupText, HexValue;
    EmptyText();
    var t := GroupGrows([], s);
    assert [] + s == s;
    var r := ParseIpv6Group(s);
    if r.Some? {
      HexIsGroupText(t);
      if r.value.1 != [] {
        NoDigit(r.value.1[0]);
      }
      assert GroupAt(s, t, r.value.0, r.value.1);
    }
    if t2 :| GroupAt(s, t2, v, rest) {
      GroupTextMeans(t2, v);
      assert s[0] == t2[0] && HexCharToNum(t2[0]).Some?;
      if |t| <= |t2| {
        GroupIsUnique(s, t, r.value.0, r.value.1, t2, v, rest);
      } else {
        GroupIsUnique(s, t2, v, rest, t, r.value.0, r.value.1);
      }
    }
  }

  lemma {:induction false} EmptyText()
    ensures AllHex([]) && HexValue([]) == 0
  {
  }

  // ---------------------------------------------------------------- groups in a row

  /** Groups up to the end of the text. Any one character separates two of them, unless it begins
      a "::", and one more may follow the last. */
  ghost predicate FullText(s: string, vs: seq<nat>)
    decreases |vs|
  {
    && vs != [] && s != []
    && exists rest ::
         && Group(s, vs[0], rest) && !StartsWithCompressor(rest)
         && if |vs| == 1 then |rest| <= 1 else |rest| >= 2 && FullText(rest[1..], vs[1..])
  }

  /** Groups up to a "::", with which `tail` begins. */
  ghost predicate FrontText(s: string, vs: seq<nat>, tail: string)
    decreases |vs|
  {
    && vs != [] && s != []
    && exists rest ::
         && Group(s, vs[0], rest)
         && if |vs| == 1 then rest == tail && StartsWithCompressor(tail)
            else !StartsWithCompressor(rest) && |rest| >= 2 && FrontText(rest[1..], vs[1..], tail)
  }

  /** Groups up to the end, each led by a colon. One more colon may follow the last. */
  ghost predicate BackText(s: string, vs: seq<nat>)
    decreases |vs|
  {
    if vs == [] then s == [] || s == ":"
    else
      && |s| >= 2 && s[0] == ':' && s[1] != ':'
      && exists rest :: Group(s[1..], vs[0], rest) && BackText(rest, vs[1..])
  }

  lemma {:induction false} FullIsRead(s: string, done: seq<nat>, vs: seq<nat>)
    requires FullText(s, vs) && |done| + |vs| == 8
    ensures FrontLoop(s, done) == Some(Front(false, done + vs, []))
    decreases |vs|
  {
    hide Group, ParseIpv6Group;
    var rest :| Group(s, vs[0], rest) && !StartsWithCompressor(rest) &&
                if |vs| == 1 then |rest| <= 1 else |rest| >= 2 && FullText(rest[1..], vs[1..]);
    GroupIsReadIff(s, vs[0], rest);
    Prepend(done, vs);
    if |vs| > 1 {
      FullIsRead(rest[1..], done + [vs[0]], vs[1..]);
    } else {
      assert SkipOne(rest) == [];
      FrontDone(done + vs);
    }
  }

  lemma {:induction false} FrontIsRead(s: string, done: seq<nat>, vs: seq<nat>, tail: string)
    requires FrontText(s, vs, tail) && |done| + |vs| <= 8
    ensures StartsWithCompressor(tail) && FrontLoop(s, done) == Some(Front(true, done + vs, tail[1..]))
    decreases |vs|
  {
    hide Group, ParseIpv6Group;
    var rest :| Group(s, vs[0], rest) &&
                if |vs| == 1 then rest == tail && StartsWithCompressor(tail)
                else !StartsWithCompressor(rest) && |rest| >= 2 && FrontText(rest[1..], vs[1..], tail);
    GroupIsReadIff(s, vs[0], rest);
    Prepend(done, vs);
    if |vs| > 1 {
      FrontIsRead(rest[1..], done + [vs[0]], vs[1..], tail);
    }
  }

  lemma {:induction false} BackIsRead(s: string, front: nat, done: seq<nat>, vs: seq<nat>)
    requires BackText(s, vs) && front + |done| + |vs| < 8
    ensures BackLoop(s, front, done) == Some(done + vs)
    decreases |vs|
  {
    hide Group, ParseIpv6Group;
    if vs == [] {
      assert done + vs == done;
    } else {
      var rest :| Group(s[1..], vs[0], rest) && BackText(rest, vs[1..]);
      GroupIsReadIff(s[1..], vs[0], rest);
      Prepend(done, vs);
      BackIsRead(rest, front, done + [vs[0]], vs[1..]);
    }
  }

  /** Whatever the front loop gives was there. */
  lemma {:induction false} FrontWasThere(s: string, done: seq<nat>) returns (vs: seq<nat>, tail: string)
    requires |done| <= 8
    ensures match FrontLoop(s, done)
            case None => true
            case Some(f) =>
              && f.groups == done + vs
              && (f.compressed ==> FrontText(s, vs, tail) && StartsWithCompressor(tail) && f.rest == tail[1..])
              && (!f.compressed && |f.groups| == 8 && f.rest == [] && |done| < 8 ==> FullText(s, vs))
    decreases 8 - |done|
  {
    hide Group, ParseIpv6Group, FullText, FrontText;
    vs, tail := [], [];
    assert done + vs == done;
    if s != [] && |done| < 8 && ParseIpv6Group(s).Some? {
      var (v, rest) := ParseIpv6Group(s).value;
      GroupIsReadIff(s, v, rest);
      if StartsWithCompressor(rest) {
        vs, tail := [v], rest;
        FrontEnds(s, v, rest);
      } else {
        var us, u := FrontWasThere(SkipOne(rest), done + [v]);
        vs, tail := [v] + us, u;
        assert done + [v] + us == done + vs;
        FrontGoesOn(s, v, rest, us, u);
        FullGoesOn(s, v, rest, us);
      }
    }
  }

  lemma {:induction false} FrontEnds(s: string, v: nat, rest: string)
    requires s != [] && Group(s, v, rest) && StartsWithCompressor(rest)
    ensures FrontText(s, [v], rest)
  {
    hide Group;
  }

  lemma {:induction false} FrontGoesOn(s: string, v: nat, rest: string, us: seq<nat>, tail: string)
    requires s != [] && Group(s, v, rest) && !StartsWithCompressor(rest)
    ensures FrontText(SkipOne(rest), us, tail) ==> FrontText(s, [v] + us, tail)
  {
    hide Group;
    assert ([v] + us)[1..] == us;
  }

  lemma {:induction false} FullGoesOn(s: string, v: nat, rest: string, us: seq<nat>)
    requires s != [] && Group(s, v, rest) && !StartsWithCompressor(rest)
    ensures FullText(SkipOne(rest), us) ==> FullText(s, [v] + us)
    ensures us == [] && SkipOne(rest) == [] ==> FullText(s, [v] + us)
  {
    hide Group;
    assert ([v] + us)[1..] == us;
  }

  lemma {:induction false} BackWasThere(s: string, front: nat, done: seq<nat>) returns (vs: seq<nat>)
    requires front + |done| <= 8
    ensures match BackLoop(s, front, done)
            case None => true
            case Some(gs) => gs == done + vs && BackText(s, vs)
    decreases 8 - |done|, |s|
  {
    hide Group, ParseIpv6Group;
    vs := [];
    assert done + vs == done;
    if |s| >= 2 && front + |done| < 8 && s[0] == ':' && s[1] != ':' && ParseIpv6Group(s[1..]).Some? {
      var (v, rest) := ParseIpv6Group(s[1..]).value;
      GroupIsReadIff(s[1..], v, rest);
      var us := BackWasThere(rest, front, done + [v]);
      vs := [v] + us;
      assert vs[1..] == us && done + [v] + us == done + vs;
    }
  }

  /** A "::" with groups `a` before it and `b` behind it, fewer than eight together. */
  ghost predicate CompressedText(s: string, r: seq<nat>, a: seq<nat>, b: seq<nat>, tail: string) {
    && (if StartsWithCompressor(s) then a == [] && tail == s else FrontText(s, a, tail))
    && StartsWithCompressor(tail) && BackText(tail[1..], b)
    && |a| + |b| < 8 && r == a + Zeros(8 - |a| - |b|) + b
  }

  /** Exactly the texts of these two forms are accepted, and each as the address it spells. */
  lemma {:induction false} AcceptedIff(s: string, r: seq<nat>)
    ensures ParseRegular(s) == Some(r) <==>
            || (|r| == 8 && FullText(s, r))
            || exists a, b, tail :: CompressedText(s, r, a, b, tail)
  {
    hide Group, ParseIpv6Group, FullText, FrontText, BackText, FrontLoop, BackLoop;
    if |r| == 8 && FullText(s, r) {
      FullIsRead(s, [], r);
      assert [] + r == r;
      FullStartsWithDigit(s, r);
    }
    if a, b, tail :| CompressedText(s, r, a, b, tail) {
      if !StartsWithCompressor(s) {
        FrontIsRead(s, [], a, tail);
        assert [] + a == a;
      }
      BackIsRead(tail[1..], |a|, [], b);
      assert [] + b == b;
    }
    if ParseRegular(s) == Some(r) {
      AcceptedHasForm(s, r);
    }
  }

  lemma {:induction false} FullStartsWithDigit(s: string, vs: seq<nat>)
    requires FullText(s, vs)
    ensures !StartsWithCompressor(s)
  {
    hide Group, ParseIpv6Group;
    var rest :| Group(s, vs[0], rest);
    GroupIsReadIff(s, vs[0], rest);
    ColonIsNoGroup(s);
  }

  lemma {:induction false} ColonIsNoGroup(s: string)
    ensures s != [] && s[0] == ':' ==> ParseIpv6Group(s).None?
  {
  }

  lemma {:induction false} AcceptedHasForm(s: string, r: seq<nat>)
    requires ParseRegular(s) == Some(r)
    ensures (|r| == 8 && FullText(s, r)) || exists a, b, tail :: CompressedText(s, r, a, b, tail)
  {
    hide Group, ParseIpv6Group, FullText, FrontText, BackText, FrontLoop, BackLoop;
    var f := ParseFrontGroups(s).value;
    var vs: seq<nat>, tail := [], s;
    if !StartsWithCompressor(s) {
      vs, tail := FrontWasThere(s, []);
      assert [] + vs == vs;
    }
    if f.compressed {
      var b := BackWasThere(f.rest, |f.groups|, []);
      assert [] + b == b;
      assert CompressedText(s, r, f.groups, b, tail);
    }
  }
}
