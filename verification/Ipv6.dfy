/** Reading IPv6 addresses from text, section 2.2 items 1 and 2 of RFC 4291. */
module Ipv6Text {
  import opened Basics

  const GROUPS: nat := 8

  function HexCharToNum(c: char): (r: Option<nat>)
    ensures r.Some? ==> r.value < 16
  {
    if '0' <= c <= '9' then Some(c as nat - '0' as nat)
    else if 'a' <= c <= 'f' then Some(c as nat - 'a' as nat + 10)
    else if 'A' <= c <= 'F' then Some(c as nat - 'A' as nat + 10)
    else None
  }

  /** Up to four hexadecimal digits, and what follows them. */
  function GroupFrom(s: string, i: nat, group: nat): (r: Option<(nat, string)>)
    requires i <= 4
    ensures r.Some? ==> |r.value.1| <= |s|
    decreases 4 - i
  {
    if i == 4 || s == [] then Some((group, s))
    else
      match HexCharToNum(s[0])
      case None => if i == 0 then None else Some((group, s))
      case Some(v) => GroupFrom(s[1..], i + 1, (group * 16 + v) % 0x1_0000)
  }

  function ParseIpv6Group(s: string): (r: Option<(nat, string)>)
    ensures r.Some? ==> |r.value.1| <= |s|
  {
    GroupFrom(s, 0, 0)
  }

  predicate StartsWithCompressor(s: string) {
    |s| >= 2 && s[0] == ':' && s[1] == ':'
  }

  function SkipOne(s: string): string {
    if s == [] then [] else s[1..]
  }

  datatype Front = Front(compressed: bool, groups: seq<nat>, rest: string)

  /** The groups before a "::", or all of them. The separator is skipped, whatever it is. */
  function FrontLoop(s: string, groups: seq<nat>): (r: Option<Front>)
    requires |groups| <= GROUPS
    ensures r.Some? ==> |r.value.groups| <= GROUPS
    decreases GROUPS - |groups|
  {
    if s == [] || |groups| == GROUPS then Some(Front(false, groups, s))
    else
      match ParseIpv6Group(s)
      case None => None
      case Some((group, rest)) =>
        if StartsWithCompressor(rest) then Some(Front(true, groups + [group], rest[1..]))
        else FrontLoop(SkipOne(rest), groups + [group])
  }

  function ParseFrontGroups(s: string): (r: Option<Front>)
    ensures r.Some? ==> |r.value.groups| <= GROUPS
  {
    if StartsWithCompressor(s) then Some(Front(true, [], s[1..])) else FrontLoop(s, [])
  }

  /** The groups behind a "::", each led by a colon. */
  function BackLoop(s: string, front: nat, back: seq<nat>): (r: Option<seq<nat>>)
    requires front + |back| <= GROUPS
    ensures r.Some? ==> front + |r.value| <= GROUPS
    decreases GROUPS - |back|, |s|
  {
    if s == [] then Some(back)
    else if |back| + front + 1 > GROUPS || s[0] != ':' || StartsWithCompressor(s) then None
    else if s[1..] == [] then Some(back)
    else
      match ParseIpv6Group(s[1..])
      case None => None
      case Some((group, rest)) => BackLoop(rest, front, back + [group])
  }

  function Zeros(n: nat): (r: seq<nat>)
    ensures |r| == n && forall i :: 0 <= i < n ==> r[i] == 0
  {
    seq(n, _ => 0)
  }

  /** The eight groups of an address. */
  function ParseRegular(s: string): (r: Option<seq<nat>>)
    ensures r.Some? ==> |r.value| == GROUPS
  {
    match ParseFrontGroups(s)
    case None => None
    case Some(Front(compressed, front, rest)) =>
      if compressed then
        match BackLoop(rest, |front|, [])
        case None => None
        case Some(back) =>
          if |front| + |back| >= GROUPS then None
          else Some(front + Zeros(GROUPS - |front| - |back|) + back)
      else if |front| != GROUPS || rest != [] then None
      else Some(front)
  }

  /** Network octets of the groups. */
  function FromGroups(groups: seq<nat>): (r: seq<nat>)
    ensures |r| == 2 * |groups|
    ensures forall i :: 0 <= i < |groups| ==> r[2 * i] == groups[i] / 256 % 256 && r[2 * i + 1] == groups[i] % 256
  {
    seq(2 * |groups|, i requires 0 <= i < 2 * |groups| =>
      if i % 2 == 0 then groups[i / 2] / 256 % 256 else groups[i / 2] % 256)
  }

  /** The octets spell the groups, most significant octet first. */
  lemma {:induction false} OctetsSpellGroups(groups: seq<nat>, i: nat)
    requires i < |groups| && groups[i] < 0x1_0000
    ensures FromGroups(groups)[2 * i] * 256 + FromGroups(groups)[2 * i + 1] == groups[i]
    ensures FromGroups(groups)[2 * i] < 256 && FromGroups(groups)[2 * i + 1] < 256
  {
    hide FromGroups;
    var g, r := groups[i], FromGroups(groups);
    assert r[2 * i] == g / 256 % 256 && r[2 * i + 1] == g % 256;
    OctetsOf(g);
  }

  lemma {:induction false} OctetsOf(g: nat)
    requires g < 0x1_0000
    ensures g / 256 % 256 * 256 + g % 256 == g
  {
    assert g / 256 < 256;
  }

  // ---------------------------------------------------------------- text forms

  ghost predicate AllHex(t: string) {
    forall i :: 0 <= i < |t| ==> HexCharToNum(t[i]).Some?
  }

  /** The number that hexadecimal digits spell. */
  ghost function HexValue(t: string): nat
    requires AllHex(t)
  {
    if t == [] then 0 else HexValue(t[..|t| - 1]) * 16 + HexCharToNum(t[|t| - 1]).value
  }

  /** The digits of either case in the order of their values. */
  const LOWER_DIGITS: string := "0123456789abcdef"
  const UPPER_DIGITS: string := "0123456789ABCDEF"

  ghost predicate DigitIs(c: char, v: nat) {
    v < 16 && (LOWER_DIGITS[v] == c || UPPER_DIGITS[v] == c)
  }

  /** The digits are read as their values, and no other character is a digit. */
  lemma {:induction false} DigitsAreRead(c: char, v: nat)
    ensures HexCharToNum(c) == Some(v) <==> DigitIs(c, v)
  {
    if DigitIs(c, v) {
      DigitHasValue(v);
    }
  }

  lemma {:induction false} DigitHasValue(v: nat)
    requires v < 16
    ensures HexCharToNum(LOWER_DIGITS[v]) == Some(v) && HexCharToNum(UPPER_DIGITS[v]) == Some(v)
  {
  }

  ghost predicate Digits(t: string, ds: seq<nat>) {
    |t| == |ds| && forall i :: 0 <= i < |t| ==> DigitIs(t[i], ds[i])
  }

  /** The number with these digits to the base of sixteen. */
  function Positional(ds: seq<nat>): nat {
    if ds == [] then 0 else Positional(ds[..|ds| - 1]) * 16 + ds[|ds| - 1]
  }

  /** One to four digits, of either case, spelling `v`. */
  ghost predicate GroupText(t: string, v: nat) {
    1 <= |t| <= 4 && exists ds :: Digits(t, ds) && Positional(ds) == v
  }

  lemma {:induction false} DigitsSpell(t: string, ds: seq<nat>)
    requires Digits(t, ds)
    ensures AllHex(t) && HexValue(t) == Positional(ds)
  {
    hide HexCharToNum, DigitIs;
    forall i | 0 <= i < |t| ensures HexCharToNum(t[i]) == Some(ds[i]) {
      DigitsAreRead(t[i], ds[i]);
    }
    if t != [] {
      DigitsSpell(t[..|t| - 1], ds[..|ds| - 1]);
    }
  }

  lemma {:induction false} GroupTextMeans(t: string, v: nat)
    requires GroupText(t, v)
    ensures 1 <= |t| <= 4 && AllHex(t) && HexValue(t) == v
  {
    var ds :| Digits(t, ds) && Positional(ds) == v;
    DigitsSpell(t, ds);
  }

  ghost predicate GroupTexts(ts: seq<string>, vs: seq<nat>) {
    |ts| == |vs| && forall i :: 0 <= i < |ts| ==> GroupText(ts[i], vs[i])
  }

  function Join(ts: seq<string>): string {
    if ts == [] then [] else if |ts| == 1 then ts[0] else ts[0] + ":" + Join(ts[1..])
  }

  /** What may follow a group: the end or a colon. */
  predicate Ends(rest: string) {
    rest == [] || rest[0] == ':'
  }

  lemma {:induction false} GroupReads(t: string, k: nat, rest: string)
    requires AllHex(t) && k <= |t| <= 4 && 1 <= |t| && Ends(rest)
    ensures AllHex(t[..k]) && HexValue(t) < 0x1_0000
    ensures GroupFrom(t[k..] + rest, k, HexValue(t[..k])) == Some((HexValue(t), rest))
    decreases 4 - k
  {
    hide HexCharToNum, HexValue, GroupFrom;
    HexValueBound(t);
    if k == |t| {
      assert t[..k] == t && t[k..] + rest == rest;
      GroupEnds(rest, k, HexValue(t));
    } else {
      var s := t[k..] + rest;
      assert s[0] == t[k] && s[1..] == t[k + 1..] + rest;
      HexValueBound(t[..k + 1]);
      HexValueStep(t, k);
      GroupGoesOn(s, k, HexValue(t[..k]));
      GroupReads(t, k + 1, rest);
    }
  }

  lemma {:induction false} GroupEnds(rest: string, k: nat, group: nat)
    requires Ends(rest) && 1 <= k <= 4
    ensures GroupFrom(rest, k, group) == Some((group, rest))
  {
    ColonIsNoDigit(rest);
  }

  lemma {:induction false} GroupGoesOn(s: string, k: nat, group: nat)
    requires s != [] && k < 4 && HexCharToNum(s[0]).Some? && group * 16 + HexCharToNum(s[0]).value < 0x1_0000
    ensures GroupFrom(s, k, group) == GroupFrom(s[1..], k + 1, group * 16 + HexCharToNum(s[0]).value)
  {
    hide HexCharToNum;
  }

  lemma {:induction false} ColonIsNoDigit(rest: string)
    requires Ends(rest)
    ensures rest == [] || HexCharToNum(rest[0]) == None
  {
  }

  lemma {:induction false} HexValueStep(t: string, k: nat)
    requires AllHex(t) && k < |t|
    ensures AllHex(t[..k]) && AllHex(t[..k + 1])
    ensures HexValue(t[..k + 1]) == HexValue(t[..k]) * 16 + HexCharToNum(t[k]).value
  {
    assert t[..k + 1][..k] == t[..k];
  }

  lemma {:induction false} HexValueBound(t: string)
    requires AllHex(t) && |t| <= 4
    ensures HexValue(t) < 0x1_0000
    ensures |t| <= 3 ==> HexValue(t) < 0x1000
    ensures |t| <= 2 ==> HexValue(t) < 0x100
    ensures |t| <= 1 ==> HexValue(t) < 0x10
    decreases |t|
  {
    if t != [] {
      HexValueBound(t[..|t| - 1]);
    }
  }

  /** A group followed by the end or a colon is read whole. */
  lemma {:induction false} GroupIsRead(t: string, v: nat, rest: string)
    requires GroupText(t, v) && Ends(rest)
    ensures ParseIpv6Group(t + rest) == Some((v, rest))
    ensures t + rest != [] && !StartsWithCompressor(t + rest)
  {
    hide GroupText, HexCharToNum;
    GroupTextMeans(t, v);
    GroupReads(t, 0, rest);
    assert t[..0] == [] && t[0..] == t;
    StartsWithDigit(t, v);
    assert (t + rest)[0] == t[0];
  }

  lemma {:induction false} StartsWithDigit(t: string, v: nat)
    requires GroupText(t, v)
    ensures t != [] && t[0] != ':'
  {
    hide GroupText, HexValue;
    GroupTextMeans(t, v);
    assert HexCharToNum(t[0]).Some?;
  }

  lemma {:induction false} JoinStep(ts: seq<string>, tail: string)
    requires ts != []
    ensures Join(ts) + tail == ts[0] + (if |ts| == 1 then tail else ":" + (Join(ts[1..]) + tail))
  {
  }

  lemma {:induction false} JoinStartsWithDigit(ts: seq<string>, vs: seq<nat>, tail: string)
    requires ts != [] && GroupTexts(ts, vs)
    ensures Join(ts) != [] && !StartsWithCompressor(":" + (Join(ts) + tail)) && (Join(ts) + tail)[0] != ':'
  {
    hide GroupText;
    StartsWithDigit(ts[0], vs[0]);
    JoinStep(ts, tail);
    JoinStep(ts, []);
    assert (Join(ts) + tail)[0] == ts[0][0];
    assert Join(ts) + [] == Join(ts);
  }

  lemma {:induction false} TailTexts(ts: seq<string>, vs: seq<nat>)
    requires GroupTexts(ts, vs) && ts != []
    ensures GroupTexts(ts[1..], vs[1..]) && GroupText(ts[0], vs[0]) && vs == [vs[0]] + vs[1..]
  {
  }

  lemma {:induction false} FrontStep(s: string, groups: seq<nat>, group: nat, rest: string)
    requires s != [] && |groups| < GROUPS && ParseIpv6Group(s) == Some((group, rest))
    ensures FrontLoop(s, groups) ==
            if StartsWithCompressor(rest) then Some(Front(true, groups + [group], rest[1..]))
            else FrontLoop(SkipOne(rest), groups + [group])
  {
    hide ParseIpv6Group;
  }

  lemma {:induction false} FrontDone(groups: seq<nat>)
    requires |groups| == GROUPS
    ensures FrontLoop([], groups) == Some(Front(false, groups, []))
  {
  }

  lemma {:induction false} Prepend(done: seq<nat>, vs: seq<nat>)
    requires vs != []
    ensures done + [vs[0]] + vs[1..] == done + vs
    ensures |vs| == 1 ==> done + [vs[0]] == done + vs
  {
  }

  /** The front loop over groups that go to the end of the text. */
  lemma {:induction false} FrontReadsAll(ts: seq<string>, vs: seq<nat>, done: seq<nat>)
    requires GroupTexts(ts, vs) && |done| + |ts| == GROUPS
    ensures FrontLoop(Join(ts), done) == Some(Front(false, done + vs, []))
    decreases |ts|
  {
    hide ParseIpv6Group, FrontLoop, GroupText, Join;
    if ts == [] {
      JoinNone();
      assert done + vs == done;
      FrontDone(done);
    } else {
      TailTexts(ts, vs);
      JoinStep(ts, []);
      assert Join(ts) + [] == Join(ts);
      var rest := if |ts| == 1 then [] else ":" + (Join(ts[1..]) + []);
      GroupIsRead(ts[0], vs[0], rest);
      FrontStep(Join(ts), done, vs[0], rest);
      Prepend(done, vs);
      if |ts| > 1 {
        JoinStartsWithDigit(ts[1..], vs[1..], []);
        assert SkipOne(rest) == Join(ts[1..]);
      } else {
        JoinNone();
      }
      FrontReadsAll(ts[1..], vs[1..], done + [vs[0]]);
    }
  }

  /** The front loop over groups that a "::" follows. */
  lemma {:induction false} FrontReadsUpTo(ts: seq<string>, vs: seq<nat>, done: seq<nat>, tail: string)
    requires GroupTexts(ts, vs) && ts != [] && |done| + |ts| < GROUPS && StartsWithCompressor(tail)
    ensures FrontLoop(Join(ts) + tail, done) == Some(Front(true, done + vs, tail[1..]))
    decreases |ts|
  {
    hide ParseIpv6Group, FrontLoop, GroupText, Join;
    TailTexts(ts, vs);
    JoinStep(ts, tail);
    var rest := if |ts| == 1 then tail else ":" + (Join(ts[1..]) + tail);
    GroupIsRead(ts[0], vs[0], rest);
    FrontStep(Join(ts) + tail, done, vs[0], rest);
    Prepend(done, vs);
    if |ts| > 1 {
      JoinStartsWithDigit(ts[1..], vs[1..], tail);
      assert SkipOne(rest) == Join(ts[1..]) + tail;
      FrontReadsUpTo(ts[1..], vs[1..], done + [vs[0]], tail);
    }
  }

  lemma {:induction false} BackReads(ts: seq<string>, vs: seq<nat>, front: nat, done: seq<nat>)
    requires GroupTexts(ts, vs) && ts != [] && front + |done| + |ts| < GROUPS
    ensures BackLoop(":" + Join(ts), front, done) == Some(done + vs)
    decreases |ts|
  {
    hide ParseIpv6Group, GroupText, Join, BackLoop;
    TailTexts(ts, vs);
    var s := ":" + Join(ts);
    JoinStartsWithDigit(ts, vs, []);
    JoinStep(ts, []);
    assert Join(ts) + [] == Join(ts) && s[1..] == Join(ts);
    var rest := if |ts| == 1 then [] else ":" + (Join(ts[1..]) + []);
    GroupIsRead(ts[0], vs[0], rest);
    BackStep(s, front, done, vs[0], rest);
    Prepend(done, vs);
    if |ts| > 1 {
      assert Join(ts[1..]) + [] == Join(ts[1..]);
      BackReads(ts[1..], vs[1..], front, done + [vs[0]]);
    }
  }

  lemma {:induction false} BackStep(s: string, front: nat, back: seq<nat>, group: nat, rest: string)
    requires front + |back| < GROUPS && |s| > 1 && s[0] == ':' && !StartsWithCompressor(s)
    requires ParseIpv6Group(s[1..]) == Some((group, rest))
    ensures BackLoop(s, front, back) == BackLoop(rest, front, back + [group])
    ensures BackLoop([], front, back + [group]) == Some(back + [group])
  {
    hide ParseIpv6Group;
  }

  /** All eight groups written out. */
  lemma {:induction false} FullFormParses(ts: seq<string>, vs: seq<nat>)
    requires |ts| == 8 && GroupTexts(ts, vs)
    ensures ParseRegular(Join(ts)) == Some(vs)
  {
    hide GroupText;
    JoinStartsWithDigit(ts, vs, []);
    assert Join(ts) + [] == Join(ts);
    FrontReadsAll(ts, vs, []);
    assert [] + vs == vs;
  }

  /** "::" for one or more groups of zeros, at the front, in the middle, at the end or alone. */
  lemma {:induction false} CompressedFormParses(a: seq<string>, va: seq<nat>, b: seq<string>, vb: seq<nat>)
    requires GroupTexts(a, va) && GroupTexts(b, vb) && |a| + |b| < 8
    ensures ParseRegular(Join(a) + "::" + Join(b)) == Some(va + Zeros(8 - |a| - |b|) + vb)
  {
    hide Join, FrontLoop, BackLoop, Zeros, GroupText;
    var s := Join(a) + "::" + Join(b);
    FrontOfCompressed(a, va, Join(b));
    BackOfCompressed(b, vb, |va|);
  }

  lemma {:induction false} FrontOfCompressed(a: seq<string>, va: seq<nat>, after: string)
    requires GroupTexts(a, va) && |a| < GROUPS
    ensures ParseFrontGroups(Join(a) + "::" + after) == Some(Front(true, va, ":" + after))
  {
    hide Join, FrontLoop, GroupText;
    var tail := "::" + after;
    assert Join(a) + "::" + after == Join(a) + tail && tail[1..] == ":" + after;
    if a == [] {
      JoinNone();
      assert [] + tail == tail;
    } else {
      JoinStartsWithDigit(a, va, tail);
      FrontReadsUpTo(a, va, [], tail);
      assert [] + va == va;
    }
  }

  lemma {:induction false} BackOfCompressed(b: seq<string>, vb: seq<nat>, front: nat)
    requires GroupTexts(b, vb) && front + |b| < GROUPS
    ensures BackLoop(":" + Join(b), front, []) == Some(vb)
  {
    hide Join, GroupText;
    if b == [] {
      JoinNone();
      assert ":" + [] == ":";
    } else {
      BackReads(b, vb, front, []);
      assert [] + vb == vb;
    }
  }

  lemma {:induction false} JoinNone()
    ensures Join([]) == []
  {
  }

  // ---------------------------------------------------------------- in place

  /** `std::shift_right` on the part of the buffer behind `from`. */
  method ShiftRight(buf: array<nat>, from: nat, count: nat)
    requires from + count <= buf.Length
    modifies buf
    ensures forall i :: 0 <= i < from ==> buf[i] == old(buf[i])
    ensures forall i :: from + count <= i < buf.Length ==> buf[i] == old(buf[i - count])
  {
    var i := buf.Length;
    while i > from + count
      invariant from + count <= i <= buf.Length
      invariant forall k :: 0 <= k < i ==> buf[k] == old(buf[k])
      invariant forall k :: i <= k < buf.Length ==> buf[k] == old(buf[k - count])
    {
      i := i - 1;
      buf[i] := buf[i - count];
    }
  }

  /** `std::fill_n` with zeros. */
  method FillZeros(buf: array<nat>, from: nat, count: nat)
    requires from + count <= buf.Length
    modifies buf
    ensures forall i :: 0 <= i < buf.Length ==> buf[i] == if from <= i < from + count then 0 else old(buf[i])
  {
    for k := from to from + count
      invariant forall i :: 0 <= i < buf.Length ==> buf[i] == if from <= i < k then 0 else old(buf[i])
    {
      buf[k] := 0;
    }
  }

  method ReadFront(s: string, buf: array<nat>) returns (ok: bool, compressed: bool, groups: nat, rest: string)
    requires buf.Length == GROUPS
    modifies buf
    ensures groups <= GROUPS
    ensures ParseFrontGroups(s) == if ok then Some(Front(compressed, buf[..groups], rest)) else None
  {
    compressed, groups, rest, ok := false, 0, s, true;
    if StartsWithCompressor(s) {
      return true, true, 0, s[1..];
    }
    ghost var goal := FrontLoop(s, []);
    assert buf[..0] == [];
    while rest != [] && groups < GROUPS
      invariant groups <= GROUPS && goal == FrontLoop(rest, buf[..groups])
      decreases GROUPS - groups
    {
      var res := ParseIpv6Group(rest);
      if res == None {
        return false, false, 0, rest;
      }
      ghost var before := buf[..groups];
      buf[groups] := res.value.0;
      groups := groups + 1;
      assert buf[..groups] == before + [res.value.0];
      rest := res.value.1;
      if StartsWithCompressor(rest) {
        return true, true, groups, rest[1..];
      }
      rest := SkipOne(rest);
    }
  }

  method ReadBack(s: string, buf: array<nat>, front: nat) returns (ok: bool, back: nat)
    requires buf.Length == GROUPS && front <= GROUPS
    modifies buf
    ensures buf[..front] == old(buf[..front]) && front + back <= GROUPS
    ensures BackLoop(s, front, []) == if ok then Some(buf[front..front + back]) else None
  {
    hide ParseIpv6Group;
    var rest := s;
    back := 0;
    ghost var goal := BackLoop(s, front, []);
    assert buf[front..front] == [];
    while rest != []
      invariant front + back <= GROUPS && buf[..front] == old(buf[..front])
      invariant goal == BackLoop(rest, front, buf[front..front + back])
      decreases GROUPS - back, |rest|
    {
      if back + front + 1 > GROUPS || rest[0] != ':' || StartsWithCompressor(rest) {
        return false, 0;
      }
      rest := rest[1..];
      if rest == [] {
        return true, back;
      }
      var res := ParseIpv6Group(rest);
      if res == None {
        return false, 0;
      }
      ghost var before := buf[front..front + back];
      buf[front + back] := res.value.0;
      back := back + 1;
      assert buf[front..front + back] == before + [res.value.0];
      rest := res.value.1;
    }
    return true, back;
  }

  method ReadAddress(s: string) returns (r: Option<seq<nat>>)
    ensures r == match ParseRegular(s)
                 case None => None
                 case Some(groups) => Some(FromGroups(groups))
  {
    hide ParseFrontGroups, BackLoop, FromGroups;
    var buf := new nat[GROUPS](_ => 0);
    var ok, compressed, front, rest := ReadFront(s, buf);
    if !ok {
      return None;
    }
    ghost var frontGroups := buf[..front];
    if compressed {
      var back;
      ok, back := ReadBack(rest, buf, front);
      if !ok {
        return None;
      }
      ghost var backGroups := buf[front..front + back];
      var zeros := GROUPS - front - back;
      ghost var before := buf[..];
      assert before[..front] == frontGroups && before[front..front + back] == backGroups;
      ShiftRight(buf, front, zeros);
      FillZeros(buf, front, zeros);
      if front + back >= GROUPS {
        return None;
      }
      ghost var all := frontGroups + Zeros(zeros) + backGroups;
      forall i | 0 <= i < GROUPS ensures buf[i] == all[i] {
        assert i >= front + zeros ==> buf[i] == before[i - zeros] == backGroups[i - zeros - front];
      }
      assert buf[..] == all;
      return Some(FromGroups(buf[..]));
    }
    if front != GROUPS || rest != [] {
      return None;
    }
    assert buf[..] == frontGroups;
    return Some(FromGroups(buf[..]));
  }
}
