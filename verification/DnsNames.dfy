/** What octets mean as a domain name, and that the parser reads exactly that meaning. */
module DnsNames {
  import opened Basics
  import opened DnsParser

  type Labels = seq<Octets>

  /** The octets from `pos` spell the labels: each is a length and so many octets, a zero
      length ends the name, and a pointer continues it at a label further front. */
  ghost predicate Denotes(msg: Octets, pos: nat, labels: Labels)
    decreases |labels|, pos
  {
    && pos < |msg|
    && if msg[pos] >= 0xC0 then
         && pos + 1 < |msg|
         && var target := PointerTarget(msg, pos);
            target < pos && 1 <= msg[target] <= 63 && Denotes(msg, target, labels)
       else if labels == [] then msg[pos] == 0
       else
         && 1 <= msg[pos] <= 63
         && pos + 1 + msg[pos] <= |msg|
         && msg[pos + 1..pos + 1 + msg[pos]] == labels[0]
         && Denotes(msg, pos + 1 + msg[pos], labels[1..])
  }

  /** The offset in the low 14 bits of two octets. */
  function PointerTarget(msg: Octets, pos: nat): nat
    requires pos + 1 < |msg|
  {
    var high: nat := msg[pos] % 64;
    high * 256 + msg[pos + 1]
  }

  /** Octets of the labels and the root label, written without pointers. */
  function WireLength(labels: Labels): (n: nat)
    ensures n > 0
  {
    if labels == [] then 1 else |labels[0]| + 1 + WireLength(labels[1..])
  }

  lemma {:induction false} DenotesExtends(msg: Octets, more: Octets, pos: nat, labels: Labels)
    requires Denotes(msg, pos, labels)
    ensures Denotes(msg + more, pos, labels)
    decreases |labels|, pos
  {
    var m := msg + more;
    assert forall i :: 0 <= i < |msg| ==> m[i] == msg[i];
    if msg[pos] >= MARKER {
      DenotesExtends(msg, more, PointerTarget(msg, pos), labels);
    } else if labels != [] {
      assert m[pos + 1..pos + 1 + msg[pos]] == msg[pos + 1..pos + 1 + msg[pos]];
      DenotesExtends(msg, more, pos + 1 + msg[pos], labels[1..]);
    }
  }

  /** A place spells one name only. */
  lemma {:induction false} DenotesIsUnique(msg: Octets, pos: nat, a: Labels, b: Labels)
    requires Denotes(msg, pos, a) && Denotes(msg, pos, b)
    ensures a == b
    decreases |a|, pos
  {
    if msg[pos] >= MARKER {
      DenotesIsUnique(msg, PointerTarget(msg, pos), a, b);
    } else if a != [] {
      assert b != [];
      DenotesIsUnique(msg, pos + 1 + msg[pos], a[1..], b[1..]);
      assert a == [a[0]] + a[1..] && b == [b[0]] + b[1..];
    }
  }

  function Content(msg: Octets, s: Span): Octets {
    if s.start + s.len <= |msg| then msg[s.start..s.start + s.len] else []
  }

  function Contents(msg: Octets, spans: seq<Span>): (r: Labels)
    ensures |r| == |spans|
    ensures forall i :: 0 <= i < |spans| ==> r[i] == Content(msg, spans[i])
  {
    if spans == [] then [] else [Content(msg, spans[0])] + Contents(msg, spans[1..])
  }

  lemma {:induction false} ContentsAppend(msg: Octets, spans: seq<Span>, s: Span)
    ensures Contents(msg, spans + [s]) == Contents(msg, spans) + [Content(msg, s)]
  {
  }

  // ---------------------------------------------------------------- spelled through any pointers

  /** The octets of the span spell the labels in exactly `n` moves: over labels, and through
      pointers to any place of the message, forward or backward, to labels or to pointers. */
  ghost predicate Spells(msg: Octets, pos: nat, end: nat, labels: Labels, n: nat)
    requires pos <= end <= |msg|
    decreases n
  {
    && n > 0 && pos < end
    && if msg[pos] >= 0xC0 && pos + 2 <= end then
         PointerTarget(msg, pos) < |msg| && Spells(msg, PointerTarget(msg, pos), |msg|, labels, n - 1)
       else if msg[pos] == 0 then labels == [] && n == 1
       else
         && msg[pos] <= 63 && pos + 1 + msg[pos] <= end
         && labels != [] && labels[0] == msg[pos + 1..pos + 1 + msg[pos]]
         && Spells(msg, pos + 1 + msg[pos], end, labels[1..], n - 1)
  }

  /** The decoder sees a pointer where there is one, with the offset the octets have. */
  lemma {:induction false} DecodesTarget(msg: Octets, pos: nat, end: nat)
    requires pos <= end <= |msg|
    ensures DecodeCompressionPtr(msg, pos, end)
            == if pos + 2 <= end && msg[pos] >= 0xC0 then Some(PointerTarget(msg, pos)) else None
  {
  }

  /** A place spells one name only, in one number of moves. */
  lemma {:induction false} SpellsOnce(msg: Octets, pos: nat, end: nat, a: Labels, n: nat, b: Labels, m: nat)
    requires pos <= end <= |msg| && Spells(msg, pos, end, a, n) && Spells(msg, pos, end, b, m)
    ensures a == b && n == m
    decreases n
  {
    if msg[pos] >= 0xC0 && pos + 2 <= end {
      SpellsOnce(msg, PointerTarget(msg, pos), |msg|, a, n - 1, b, m - 1);
    } else if msg[pos] != 0 {
      SpellsOnce(msg, pos + 1 + msg[pos], end, a[1..], n - 1, b[1..], m - 1);
      assert a == [a[0]] + a[1..] && b == [b[0]] + b[1..];
    }
  }

  /** What the encoder writes is a special form. */
  lemma {:induction false} DenotedIsSpelled(msg: Octets, pos: nat, labels: Labels) returns (n: nat)
    requires Denotes(msg, pos, labels)
    ensures pos <= |msg| && Spells(msg, pos, |msg|, labels, n)
    decreases |labels|, pos
  {
    if msg[pos] >= MARKER {
      var m := DenotedIsSpelled(msg, PointerTarget(msg, pos), labels);
      n := m + 1;
    } else if labels == [] {
      n := 1;
    } else {
      var m := DenotedIsSpelled(msg, pos + 1 + msg[pos], labels[1..]);
      n := m + 1;
    }
  }

  /** From what the loop check remembers, more moves are left than from here. */
  ghost predicate Ahead(msg: Octets, c: Cursor, n: nat) {
    c.first.Some? ==>
      && c.first.value < |msg|
      && exists labels, m :: m >= n && Spells(msg, c.first.value, |msg|, labels, m)
  }

  function AfterPointer(c: Cursor, target: nat, end: nat): Cursor {
    c.(pos := target, end := end, jumped := true,
       first := if c.jumped then c.first else Some(target),
       consumed := if c.jumped then c.consumed else (c.consumed + 2) % 256)
  }

  function AfterLabel(c: Cursor, len: nat): Cursor {
    c.(pos := c.pos + len + 1, first := None, total := c.total + len + 1,
       consumed := if c.jumped then c.consumed else (c.consumed + len + 1) % 256,
       labels := c.labels + [Span(c.pos + 1, len)])
  }

  lemma {:induction false} StepAtPointer(msg: Octets, c: Cursor, target: nat, labels: Labels, n: nat)
    requires InMessage(msg, c) && DecodeCompressionPtr(msg, c.pos, c.end) == Some(target)
    requires n > 0 && Spells(msg, c.pos, c.end, labels, n) && Ahead(msg, c, n)
    ensures target < |msg|
    ensures ParseStep(msg, c) == Running(AfterPointer(c, target, |msg|))
    ensures Ahead(msg, AfterPointer(c, target, |msg|), n - 1)
  {
    DecodesTarget(msg, c.pos, c.end);
    if c.first == Some(target) {
      var ls, m :| m >= n && Spells(msg, target, |msg|, ls, m);
      SpellsOnce(msg, target, |msg|, ls, m, labels, n - 1);
    }
  }

  lemma {:induction false} StepAtLabel(msg: Octets, c: Cursor)
    requires InMessage(msg, c) && DecodeCompressionPtr(msg, c.pos, c.end).None? && DecodeLabel(msg, c.pos, c.end).Ok?
    ensures var size := msg[c.pos] + 1;
            ParseStep(msg, c) ==
            if c.total + size > FQDN_MAX_OCTET_LEN then Failed(NameLenTooBig)
            else if size > 1 then Running(AfterLabel(c, size - 1))
            else Done(if c.jumped then c.consumed else (c.consumed + 1) % 256, c.labels)
  {
  }

  /** The parser reads a spelled name: it accepts it with exactly its labels when the name has
      at most 255 octets and rejects it as too long otherwise. The loop check never interferes,
      for the number of moves left from a place is unique. */
  lemma {:induction false} ParserReads(msg: Octets, c: Cursor, labels: Labels, n: nat) returns (fuel: nat)
    requires InMessage(msg, c) && Spells(msg, c.pos, c.end, labels, n)
    requires c.total <= FQDN_MAX_OCTET_LEN && Ahead(msg, c, n)
    ensures var r := ParseFrom(msg, c, fuel);
            if c.total + WireLength(labels) <= FQDN_MAX_OCTET_LEN then
              r.Done? && Contents(msg, r.labels) == Contents(msg, c.labels) + labels
            else r == Failed(NameLenTooBig)
    decreases n
  {
    hide ParseStep, ParseFrom, Contents, Ahead, Spells, DecodeCompressionPtr, DecodeLabel;
    SpellsUnfolds(msg, c.pos, c.end, labels, n);
    match DecodeCompressionPtr(msg, c.pos, c.end)
    case Some(t) =>
      StepAtPointer(msg, c, t, labels, n);
      var f := ParserReads(msg, AfterPointer(c, t, |msg|), labels, n - 1);
      fuel := f + 1;
      StepThen(msg, c, f);
    case None =>
      StepAtLabel(msg, c);
      if msg[c.pos] == 0 || c.total + 1 + msg[c.pos] > FQDN_MAX_OCTET_LEN {
        fuel := 1;
        StepThen(msg, c, 0);
        assert Contents(msg, c.labels) + [] == Contents(msg, c.labels);
      } else {
        var d := AfterLabel(c, msg[c.pos]);
        NothingRemembered(msg, d, n - 1);
        var f := ParserReads(msg, d, labels[1..], n - 1);
        LabelMoves(msg, c, labels);
        fuel := f + 1;
        StepThen(msg, c, f);
      }
  }

  lemma {:induction false} SpellsUnfolds(msg: Octets, pos: nat, end: nat, labels: Labels, n: nat)
    requires pos <= end <= |msg| && Spells(msg, pos, end, labels, n)
    ensures n > 0
    ensures match DecodeCompressionPtr(msg, pos, end)
            case Some(t) => t < |msg| && Spells(msg, t, |msg|, labels, n - 1)
            case None =>
              && DecodeLabel(msg, pos, end).Ok? && (msg[pos] == 0 <==> labels == [])
              && (labels != [] ==>
                    && labels[0] == msg[pos + 1..pos + 1 + msg[pos]]
                    && Spells(msg, pos + 1 + msg[pos], end, labels[1..], n - 1))
  {
    DecodesTarget(msg, pos, end);
  }

  lemma {:induction false} StepThen(msg: Octets, c: Cursor, fuel: nat)
    requires InMessage(msg, c)
    ensures ParseFrom(msg, c, fuel + 1) ==
            if ParseStep(msg, c).Running? then ParseFrom(msg, ParseStep(msg, c).cursor, fuel) else ParseStep(msg, c)
  {
  }

  lemma {:induction false} LabelMoves(msg: Octets, c: Cursor, labels: Labels)
    requires c.pos < |msg| && c.pos + 1 + msg[c.pos] <= |msg|
    requires labels != [] && labels[0] == msg[c.pos + 1..c.pos + 1 + msg[c.pos]]
    ensures Contents(msg, AfterLabel(c, msg[c.pos]).labels) + labels[1..] == Contents(msg, c.labels) + labels
    ensures WireLength(labels) == msg[c.pos] + 1 + WireLength(labels[1..])
  {
    hide Contents;
    ContentsAppend(msg, c.labels, Span(c.pos + 1, msg[c.pos]));
    assert Contents(msg, c.labels) + [labels[0]] + labels[1..] == Contents(msg, c.labels) + labels;
  }

  lemma {:induction false} NothingRemembered(msg: Octets, c: Cursor, n: nat)
    requires c.first.None?
    ensures Ahead(msg, c, n)
  {
  }

  /** What the parser accepted is spelled there. */
  lemma {:induction false} AcceptedIsSpelled(msg: Octets, c: Cursor, fuel: nat) returns (labels: Labels, n: nat)
    requires InMessage(msg, c) && ParseFrom(msg, c, fuel).Done?
    ensures Spells(msg, c.pos, c.end, labels, n)
    ensures Contents(msg, ParseFrom(msg, c, fuel).labels) == Contents(msg, c.labels) + labels
    ensures c.total + WireLength(labels) <= FQDN_MAX_OCTET_LEN
    decreases fuel
  {
    hide ParseStep, Contents;
    StepKinds(msg, c);
    DecodesTarget(msg, c.pos, c.end);
    match DecodeCompressionPtr(msg, c.pos, c.end)
    case Some(t) =>
      var ls, m := AcceptedIsSpelled(msg, ParseStep(msg, c).cursor, fuel - 1);
      labels, n := ls, m + 1;
    case None =>
      if msg[c.pos] == 0 {
        labels, n := [], 1;
        assert Contents(msg, c.labels) + [] == Contents(msg, c.labels);
      } else {
        var l := Span(c.pos + 1, msg[c.pos]);
        var ls, m := AcceptedIsSpelled(msg, ParseStep(msg, c).cursor, fuel - 1);
        ContentsAppend(msg, c.labels, l);
        labels, n := [Content(msg, l)] + ls, m + 1;
        assert labels[1..] == ls;
        assert Contents(msg, c.labels) + [Content(msg, l)] + ls == Contents(msg, c.labels) + labels;
      }
  }

  ghost predicate AcceptedWith(msg: Octets, pos: nat, end: nat, labels: Labels, fuel: nat)
    requires pos <= end <= |msg|
  {
    var r := ParseFrom(msg, Start(pos, end), fuel);
    r.Done? && Contents(msg, r.labels) == labels
  }

  /** On every message and every span of it, the parser accepts exactly the names that are
      spelled there and have at most 255 octets, and reads them right. */
  lemma {:induction false} AcceptsIffSpelled(msg: Octets, pos: nat, end: nat, labels: Labels)
    requires pos <= end <= |msg|
    ensures (exists fuel :: AcceptedWith(msg, pos, end, labels, fuel)) <==>
            (exists n :: Spells(msg, pos, end, labels, n)) && WireLength(labels) <= 255
  {
    hide ParseFrom, Spells;
    assert [] + labels == labels;
    if f: nat :| AcceptedWith(msg, pos, end, labels, f) {
      var ls, n := AcceptedIsSpelled(msg, Start(pos, end), f);
      assert [] + ls == ls;
    }
    if n: nat :| Spells(msg, pos, end, labels, n) {
      NothingRemembered(msg, Start(pos, end), n);
      var f := ParserReads(msg, Start(pos, end), labels, n);
      assert WireLength(labels) <= FQDN_MAX_OCTET_LEN ==> AcceptedWith(msg, pos, end, labels, f);
    }
  }

  // ---------------------------------------------------------------- rejections

  /** What makes the parser give each of its errors, in terms of the octets it stands on. */
  ghost predicate Because(msg: Octets, d: Cursor, x: DecodeError) {
    && InMessage(msg, d)
    && var pointer := d.pos + 2 <= d.end && msg[d.pos] >= 0xC0;
       var atLabel := !pointer && d.pos < d.end;
       match x
       case NoRootLabel => d.pos == d.end
       case CompressionPtrOob => pointer && PointerTarget(msg, d.pos) >= |msg|
       case CompressionPtrInfiniteLoop =>
         pointer && PointerTarget(msg, d.pos) < |msg| && d.first == Some(PointerTarget(msg, d.pos))
       case LabelLenTooBig => atLabel && msg[d.pos] > 63
       case LabelLenOob => atLabel && msg[d.pos] <= 63 && d.end < d.pos + 1 + msg[d.pos]
       case NameLenTooBig =>
         atLabel && msg[d.pos] <= 63 && d.pos + 1 + msg[d.pos] <= d.end && d.total + msg[d.pos] + 1 > 255
       case _ => false
  }

  lemma {:induction false} StepFailsIff(msg: Octets, d: Cursor, x: DecodeError)
    requires InMessage(msg, d)
    ensures ParseStep(msg, d) == Failed(x) <==> Because(msg, d, x)
  {
    hide DecodeCompressionPtr, PointerTarget, DecodeLabel;
    DecodesTarget(msg, d.pos, d.end);
  }

  /** A call is rejected with an error if and only if it comes to a state that is the reason for
      it, and the length so far is that of the labels so far. */
  lemma {:induction false} RejectedIff(msg: Octets, start: nat, end: nat, x: DecodeError)
    requires start <= end <= |msg|
    ensures (exists fuel :: ParseFrom(msg, Start(start, end), fuel) == Failed(x)) <==>
            (exists k :: RejectedAt(msg, Start(start, end), k, x))
  {
    hide ParseFrom, Because;
    var c := Start(start, end);
    if fuel: nat :| ParseFrom(msg, c, fuel) == Failed(x) {
      var k := FailureHasReason(msg, c, fuel, x);
    }
    if k: nat :| RejectedAt(msg, c, k, x) {
      ReasonFails(msg, c, k, x);
    }
  }

  ghost predicate RejectedAt(msg: Octets, c: Cursor, k: nat, x: DecodeError)
    requires InMessage(msg, c)
  {
    match ParseFrom(msg, c, k)
    case Running(d) => Because(msg, d, x) && d.total == SpanOctets(d.labels)
    case _ => false
  }

  lemma {:induction false} FailureHasReason(msg: Octets, c: Cursor, fuel: nat, x: DecodeError) returns (k: nat)
    requires InMessage(msg, c) && ParseFrom(msg, c, fuel) == Failed(x) && c.total == SpanOctets(c.labels)
    ensures RejectedAt(msg, c, k, x)
    decreases fuel
  {
    hide Because, ParseStep;
    StepFailsIff(msg, c, x);
    k := 0;
    if ParseStep(msg, c).Running? {
      StepKinds(msg, c);
      SpanOctetsAppend(c.labels, Span(c.pos + 1, if c.pos < |msg| then msg[c.pos] else 0));
      var m := FailureHasReason(msg, ParseStep(msg, c).cursor, fuel - 1, x);
      k := m + 1;
    }
  }

  lemma {:induction false} SpanOctetsAppend(spans: seq<Span>, l: Span)
    ensures SpanOctets(spans + [l]) == SpanOctets(spans) + l.len + 1
  {
    if spans != [] {
      assert (spans + [l])[1..] == spans[1..] + [l];
      SpanOctetsAppend(spans[1..], l);
    } else {
      assert (spans + [l])[1..] == [];
    }
  }

  lemma {:induction false} ReasonFails(msg: Octets, c: Cursor, k: nat, x: DecodeError)
    requires InMessage(msg, c) && RejectedAt(msg, c, k, x)
    ensures ParseFrom(msg, c, k + 1) == Failed(x)
    decreases k
  {
    hide Because, ParseStep;
    if k == 0 {
      StepFailsIff(msg, c, x);
    } else {
      ReasonFails(msg, ParseStep(msg, c).cursor, k - 1, x);
    }
  }

  /** From a start position; the result does not depend on how many steps one allows. */
  ghost predicate ParsesTo(msg: Octets, pos: nat, labels: Labels) {
    && pos <= |msg|
    && exists fuel :: ParsedWith(msg, pos, labels, fuel)
  }

  ghost predicate ParsedWith(msg: Octets, pos: nat, labels: Labels, fuel: nat)
    requires pos <= |msg|
  {
    AcceptedWith(msg, pos, |msg|, labels, fuel)
  }

  ghost predicate TooLong(msg: Octets, pos: nat) {
    && pos <= |msg|
    && exists fuel :: ParseFrom(msg, Start(pos, |msg|), fuel) == Failed(NameLenTooBig)
  }

  lemma {:induction false} DenotedIsRead(msg: Octets, pos: nat, labels: Labels) returns (fuel: nat)
    requires Denotes(msg, pos, labels)
    ensures pos <= |msg|
    ensures var r := ParseFrom(msg, Start(pos, |msg|), fuel);
            if WireLength(labels) <= FQDN_MAX_OCTET_LEN then r.Done? && Contents(msg, r.labels) == [] + labels
            else r == Failed(NameLenTooBig)
  {
    hide ParseFrom, Spells, Denotes;
    var n := DenotedIsSpelled(msg, pos, labels);
    NothingRemembered(msg, Start(pos, |msg|), n);
    fuel := ParserReads(msg, Start(pos, |msg|), labels, n);
  }

  lemma {:induction false} DenotedNameParses(msg: Octets, pos: nat, labels: Labels)
    requires Denotes(msg, pos, labels)
    ensures WireLength(labels) <= 255 ==> ParsesTo(msg, pos, labels)
    ensures WireLength(labels) > 255 ==> TooLong(msg, pos)
  {
    var fuel := DenotedIsRead(msg, pos, labels);
    assert [] + labels == labels;
    assert WireLength(labels) <= FQDN_MAX_OCTET_LEN ==> ParsedWith(msg, pos, labels, fuel);
  }

  /** Accepting and rejecting as too long exclude each other. */
  lemma {:induction false} ParsesToExcludesTooLong(msg: Octets, pos: nat, labels: Labels)
    requires ParsesTo(msg, pos, labels)
    ensures !TooLong(msg, pos)
  {
    var f :| ParsedWith(msg, pos, labels, f);
    if TooLong(msg, pos) {
      var g :| ParseFrom(msg, Start(pos, |msg|), g) == Failed(NameLenTooBig);
      if f <= g {
        MoreFuel(msg, Start(pos, |msg|), f, g);
      } else {
        MoreFuel(msg, Start(pos, |msg|), g, f);
      }
      assert false;
    }
  }
}
