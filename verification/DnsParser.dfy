/** Domain names on the wire, sections 3.1 and 4.1.4 of RFC 1035: the validating parser and the
    unchecked iterator that later walks the same octets. */
module DnsParser {
  import opened Basics

  type Octet = x: int | 0 <= x < 256
  type Octets = seq<Octet>

  const FQDN_MAX_OCTET_LEN: nat := 255
  const MAX_LABEL: nat := 63
  const MARKER: nat := 0xC0
  const POINTER_RANGE: nat := 0x4000

  datatype DecodeError =
    | WrongHeaderBytesCount
    | CompressionPtrOob
    | CompressionPtrInfiniteLoop
    | LabelNoLen
    | LabelLenOob
    | LabelLenTooBig
    | NameLenTooBig
    | NoRootLabel
    | NoQuestionType
    | NoQuestionClass

  /** `read_ntoh` of two octets: the one that comes first counts 256-fold. */
  function ReadNtoh16(hi: Octet, lo: Octet): (r: nat)
    ensures r / 256 == hi && r % 256 == lo
  {
    hi * 256 + lo
  }

  /** The 14-bit offset of a compression pointer, if the octets at `pos` are one. */
  function DecodeCompressionPtr(msg: Octets, pos: nat, end: nat): (r: Option<nat>)
    requires pos <= end <= |msg|
    ensures r.Some? <==> end - pos >= 2 && msg[pos] >= 0xC0
    ensures r.Some? ==> r.value / 256 == msg[pos] - 0xC0 && r.value % 256 == msg[pos + 1]
  {
    if end - pos < 2 then None
    else
      var v := ReadNtoh16(msg[pos], msg[pos + 1]);
      if v / POINTER_RANGE != 3 then None else Some(v % POINTER_RANGE)
  }

  /** Where a label sits in the message. */
  datatype Span = Span(start: nat, len: nat)

  function DecodeLabel(msg: Octets, pos: nat, end: nat): (r: Result<Span, DecodeError>)
    requires pos <= end <= |msg|
    ensures r == Err(LabelNoLen) <==> pos == end
    ensures r == Err(LabelLenTooBig) <==> pos < end && msg[pos] > 63
    ensures r == Err(LabelLenOob) <==> pos < end && msg[pos] <= 63 && end < pos + 1 + msg[pos]
    ensures r.Ok? <==> pos < end && msg[pos] <= 63 && pos + 1 + msg[pos] <= end
    ensures r.Ok? ==> r.value == Span(pos + 1, msg[pos])
  {
    if pos == end then Err(LabelNoLen)
    else if msg[pos] > MAX_LABEL then Err(LabelLenTooBig)
    else if end - pos < msg[pos] + 1 then Err(LabelLenOob)
    else Ok(Span(pos + 1, msg[pos]))
  }

  // ---------------------------------------------------------------- the parser as steps

  /** The locals of `parse_domain_name`: the rest `pos..end` of the span, whether a pointer has
      been followed (`!first_ptr`), the pointer remembered by the loop check, the 8-bit count of
      octets to consume, the length of the name so far and the labels accepted so far. */
  datatype Cursor = Cursor(pos: nat, end: nat, jumped: bool, first: Option<nat>,
                           consumed: nat, total: nat, labels: seq<Span>)

  datatype Outcome = Running(cursor: Cursor) | Done(consumed: nat, labels: seq<Span>) | Failed(error: DecodeError)

  ghost predicate InMessage(msg: Octets, c: Cursor) {
    c.pos <= c.end <= |msg|
  }

  function Start(pos: nat, end: nat): Cursor {
    Cursor(pos, end, false, None, 0, 0, [])
  }

  /** Follow one pointer, or take one label. */
  function ParseStep(msg: Octets, c: Cursor): (r: Outcome)
    requires c.pos <= c.end <= |msg|
    ensures r.Running? ==> InMessage(msg, r.cursor)
  {
    if c.pos == c.end then Failed(NoRootLabel)
    else
      match DecodeCompressionPtr(msg, c.pos, c.end)
      case Some(ptr) =>
        if ptr > |msg| - 1 then Failed(CompressionPtrOob)
        else if c.first == Some(ptr) then Failed(CompressionPtrInfiniteLoop)
        else
          Running(c.(pos := ptr, end := |msg|, jumped := true,
                     first := if c.jumped then c.first else Some(ptr),
                     consumed := if c.jumped then c.consumed else (c.consumed + 2) % 256))
      case None =>
        match DecodeLabel(msg, c.pos, c.end)
        case Err(e) => Failed(e)
        case Ok(l) =>
          var size := l.len + 1;
          var total := c.total + size;
          var consumed := if c.jumped then c.consumed else (c.consumed + size) % 256;
          if total > FQDN_MAX_OCTET_LEN then Failed(NameLenTooBig)
          else if l.len != 0 then
            Running(c.(pos := c.pos + size, first := None, consumed := consumed, total := total,
                       labels := c.labels + [l]))
          else Done(consumed, c.labels)
  }

  /** What one step does, in terms of what stands at the cursor. */
  lemma {:induction false} StepKinds(msg: Octets, c: Cursor)
    requires c.pos <= c.end <= |msg|
    ensures var r := ParseStep(msg, c);
            match DecodeCompressionPtr(msg, c.pos, c.end)
            case Some(t) =>
              && !r.Done?
              && (r.Running? ==>
                    && t < |msg|
                    && r.cursor == c.(pos := t, end := |msg|, jumped := true, first := r.cursor.first,
                                      consumed := if c.jumped then c.consumed else (c.consumed + 2) % 256))
            case None =>
              !r.Failed? ==>
                && DecodeLabel(msg, c.pos, c.end).Ok?
                && var size := msg[c.pos] + 1;
                   var consumed := if c.jumped then c.consumed else (c.consumed + size) % 256;
                   && c.total + size <= FQDN_MAX_OCTET_LEN
                   && (r.Done? ==> size == 1 && r == Done(consumed, c.labels))
                   && (r.Running? ==> size > 1)
                   && (r.Running? ==>
                         r.cursor == c.(pos := c.pos + size, first := None, consumed := consumed,
                                        total := c.total + size, labels := c.labels + [Span(c.pos + 1, size - 1)]))
  {
  }

  /** At most `fuel` steps. */
  function ParseFrom(msg: Octets, c: Cursor, fuel: nat): (r: Outcome)
    requires c.pos <= c.end <= |msg|
    ensures r.Running? ==> InMessage(msg, r.cursor)
    decreases fuel
  {
    if fuel == 0 then Running(c)
    else
      match ParseStep(msg, c)
      case Running(d) => ParseFrom(msg, d, fuel - 1)
      case stop => stop
  }

  /** Once the parser has stopped, more steps change nothing. */
  lemma {:induction false} MoreFuel(msg: Octets, c: Cursor, fuel: nat, more: nat)
    requires InMessage(msg, c) && fuel <= more && !ParseFrom(msg, c, fuel).Running?
    ensures ParseFrom(msg, c, more) == ParseFrom(msg, c, fuel)
    decreases fuel
  {
    match ParseStep(msg, c)
    case Running(d) => MoreFuel(msg, d, fuel - 1, more - 1);
    case _ =>
  }

  /** The loops of `parse_domain_name`. They need not stop on every message, so the caller
      shows, by some number of steps, that on this one they do. */
  method ParseDomainName(msg: Octets, start: nat, end: nat, ghost fuel: nat)
    returns (r: Result<(nat, seq<Span>), DecodeError>)
    requires start <= end <= |msg|
    requires !ParseFrom(msg, Start(start, end), fuel).Running?
    ensures match ParseFrom(msg, Start(start, end), fuel)
            case Done(consumed, labels) => r == Ok((consumed, labels))
            case Failed(e) => r == Err(e)
            case Running(_) => false
  {
    var pos: nat, stop: nat := start, end;
    var firstPtr := true;
    var bytesToConsume: nat := 0;
    var domainNameLen: nat := 0;
    var labels := [];
    ghost var left: nat := fuel;
    ghost var goal := ParseFrom(msg, Start(start, end), fuel);
    while pos < stop
      invariant pos <= stop <= |msg| && !goal.Running?
      invariant goal == ParseFrom(msg, Cursor(pos, stop, !firstPtr, None, bytesToConsume, domainNameLen, labels), left)
      decreases left
    {
      var first: Option<nat> := None;
      var ptr := DecodeCompressionPtr(msg, pos, stop);
      while ptr.Some?
        invariant pos < stop <= |msg| && ptr == DecodeCompressionPtr(msg, pos, stop)
        invariant goal == ParseFrom(msg, Cursor(pos, stop, !firstPtr, first, bytesToConsume, domainNameLen, labels),
                                    left)
        invariant left <= fuel
        decreases left
      {
        if ptr.value > |msg| - 1 {
          return Err(CompressionPtrOob);
        }
        if first == ptr {
          return Err(CompressionPtrInfiniteLoop);
        }
        if firstPtr {
          bytesToConsume := (bytesToConsume + 2) % 256;
          first := ptr;
          firstPtr := false;
        }
        pos, stop := ptr.value, |msg|;
        ptr := DecodeCompressionPtr(msg, pos, stop);
        left := left - 1;
      }
      var decoded := DecodeLabel(msg, pos, stop);
      if decoded.Err? {
        return Err(decoded.error);
      }
      var size := decoded.value.len + 1;
      domainNameLen := domainNameLen + size;
      if domainNameLen > FQDN_MAX_OCTET_LEN {
        return Err(NameLenTooBig);
      }
      if firstPtr {
        bytesToConsume := (bytesToConsume + size) % 256;
      }
      if decoded.value.len == 0 {
        return Ok((bytesToConsume, labels));
      }
      labels := labels + [decoded.value];
      pos := pos + size;
      left := left - 1;
    }
    r := Err(NoRootLabel);
  }

  // ---------------------------------------------------------------- octets to consume

  /** Octets of the name where it stands: up to its root label or its first pointer. */
  function OnWire(msg: Octets, pos: nat, end: nat): (n: nat)
    requires pos <= end <= |msg|
    decreases end - pos
  {
    if DecodeCompressionPtr(msg, pos, end).Some? then 2
    else
      match DecodeLabel(msg, pos, end)
      case Err(_) => 0
      case Ok(l) => if l.len == 0 then 1 else l.len + 1 + OnWire(msg, pos + l.len + 1, end)
  }

  lemma {:induction false} ConsumedAfterJump(msg: Octets, c: Cursor, fuel: nat)
    requires InMessage(msg, c) && c.jumped && ParseFrom(msg, c, fuel).Done?
    ensures ParseFrom(msg, c, fuel).consumed == c.consumed
    decreases fuel
  {
    hide ParseStep;
    StepKinds(msg, c);
    match ParseStep(msg, c)
    case Running(d) => ConsumedAfterJump(msg, d, fuel - 1);
    case _ =>
  }

  lemma {:induction false} ConsumedWraps(msg: Octets, c: Cursor, fuel: nat)
    requires InMessage(msg, c) && !c.jumped && c.consumed == c.total <= FQDN_MAX_OCTET_LEN
    requires ParseFrom(msg, c, fuel).Done?
    ensures c.total + OnWire(msg, c.pos, c.end) <= FQDN_MAX_OCTET_LEN + 1
    ensures ParseFrom(msg, c, fuel).consumed == (c.total + OnWire(msg, c.pos, c.end)) % 256
    decreases fuel
  {
    hide ParseStep, DecodeCompressionPtr;
    StepKinds(msg, c);
    match ParseStep(msg, c)
    case Running(d) =>
      if d.jumped {
        ConsumedAfterJump(msg, d, fuel - 1);
        TotalGrows(msg, d, fuel - 1);
      } else {
        ConsumedWraps(msg, d, fuel - 1);
      }
    case _ =>
  }

  lemma {:induction false} TotalGrows(msg: Octets, c: Cursor, fuel: nat)
    requires InMessage(msg, c) && ParseFrom(msg, c, fuel).Done?
    ensures c.total < FQDN_MAX_OCTET_LEN
    decreases fuel
  {
    hide ParseStep;
    StepKinds(msg, c);
    match ParseStep(msg, c)
    case Running(d) => TotalGrows(msg, d, fuel - 1);
    case _ =>
  }

  /** `bytes_to_consume` is the length of the name on the wire exactly when that fits its 8
      bits; the only accepted length that does not is 256, and then the count is 0. */
  lemma {:induction false} ConsumedIsOnWire(msg: Octets, start: nat, end: nat, fuel: nat)
    requires start <= end <= |msg| && ParseFrom(msg, Start(start, end), fuel).Done?
    ensures var n := OnWire(msg, start, end);
            var consumed := ParseFrom(msg, Start(start, end), fuel).consumed;
            && 1 <= n <= 256
            && (consumed == n <==> n <= 255)
            && (n == 256 ==> consumed == 0)
  {
    ConsumedWraps(msg, Start(start, end), fuel);
    OnWirePositive(msg, Start(start, end), fuel);
  }

  lemma {:induction false} OnWirePositive(msg: Octets, c: Cursor, fuel: nat)
    requires InMessage(msg, c) && ParseFrom(msg, c, fuel).Done?
    ensures OnWire(msg, c.pos, c.end) >= 1
  {
    assert fuel > 0;
    assert DecodeCompressionPtr(msg, c.pos, c.end).Some? || DecodeLabel(msg, c.pos, c.end).Ok?;
  }

  /** A name of 254 octets of labels and a pointer to a root label: accepted, but nothing is
      to be consumed. */
  lemma {:induction false} SomeNameConsumesNothing(msg: Octets)
    requires msg == seq(257, (i: nat) => if i in {0, 64, 128} then 63 else if i == 192 then 61
                                         else if i == 254 then 0xC1 else if i >= 255 then 0 else 97)
    ensures ParseFrom(msg, Start(0, 257), 6).Done?
    ensures ParseFrom(msg, Start(0, 257), 6).consumed == 0 && OnWire(msg, 0, 257) == 256
  {
    var c1 := Cursor(64, 257, false, None, 64, 64, [Span(1, 63)]);
    var c2 := Cursor(128, 257, false, None, 128, 128, c1.labels + [Span(65, 63)]);
    var c3 := Cursor(192, 257, false, None, 192, 192, c2.labels + [Span(129, 63)]);
    var c4 := Cursor(254, 257, false, None, 254, 254, c3.labels + [Span(193, 61)]);
    var c5 := Cursor(256, 257, true, Some(256), 0, 254, c4.labels);
    assert ParseStep(msg, Start(0, 257)) == Running(c1);
    assert ParseStep(msg, c1) == Running(c2);
    assert ParseStep(msg, c2) == Running(c3);
    assert ParseStep(msg, c3) == Running(c4);
    assert ParseStep(msg, c4) == Running(c5);
    assert ParseStep(msg, c5).Done?;
    assert ParseFrom(msg, c5, 1).Done?;
    assert ParseFrom(msg, c4, 2) == ParseFrom(msg, c5, 1);
    assert ParseFrom(msg, c3, 3) == ParseFrom(msg, c4, 2);
    assert ParseFrom(msg, c2, 4) == ParseFrom(msg, c3, 3);
    assert ParseFrom(msg, c1, 5) == ParseFrom(msg, c2, 4);
    ConsumedIsOnWire(msg, 0, 257, 6);
  }

  // ---------------------------------------------------------------- the iterator

  /** Memory as the iterator sees it: the message, then whatever follows it. */
  ghost predicate Holds(mem: nat -> Octet, msg: Octets) {
    forall i :: 0 <= i < |msg| ==> mem(i) == msg[i]
  }

  /** The two octets at `p` as a pointer, with no regard to where the message ends. */
  function PeekPtr(mem: nat -> Octet, p: nat): (r: Option<nat>)
    ensures r.Some? <==> mem(p) >= 0xC0
    ensures r.Some? ==> r.value / 256 == mem(p) - 0xC0 && r.value % 256 == mem(p + 1)
  {
    var v := ReadNtoh16(mem(p), mem(p + 1));
    if v / POINTER_RANGE != 3 then None else Some(v % POINTER_RANGE)
  }

  /** The labels a loop over the name at `p` sees, if it ends within `fuel` moves. */
  function Iterate(mem: nat -> Octet, p: nat, fuel: nat): (r: Option<seq<Span>>)
    decreases fuel
  {
    if fuel == 0 then None
    else
      match PeekPtr(mem, p)
      case Some(ptr) => Iterate(mem, ptr, fuel - 1)
      case None =>
        if mem(p) == 0 then Some([])
        else
          match Iterate(mem, p + mem(p) + 1, fuel - 1)
          case None => None
          case Some(rest) => Some([Span(p + 1, mem(p))] + rest)
  }

  function SpanOctets(labels: seq<Span>): nat {
    if labels == [] then 0 else labels[0].len + 1 + SpanOctets(labels[1..])
  }

  ghost predicate GoodLabel(msg: Octets, l: Span) {
    1 <= l.len <= 63 && l.start + l.len <= |msg|
  }

  lemma {:induction false} IteratorFollows(mem: nat -> Octet, msg: Octets, c: Cursor, fuel: nat)
    returns (rest: seq<Span>)
    requires InMessage(msg, c) && Holds(mem, msg) && ParseFrom(msg, c, fuel).Done?
    ensures Iterate(mem, c.pos, fuel) == Some(rest)
    ensures ParseFrom(msg, c, fuel).labels == c.labels + rest
    ensures forall i :: 0 <= i < |rest| ==> GoodLabel(msg, rest[i])
    ensures c.total + SpanOctets(rest) + 1 <= FQDN_MAX_OCTET_LEN
    decreases fuel
  {
    hide ParseStep, DecodeCompressionPtr, PeekPtr, DecodeLabel;
    StepKinds(msg, c);
    PeekSees(mem, msg, c.pos, c.end);
    match ParseStep(msg, c)
    case Running(d) =>
      rest := IteratorFollows(mem, msg, d, fuel - 1);
      if DecodeCompressionPtr(msg, c.pos, c.end).None? {
        var l := Span(c.pos + 1, msg[c.pos]);
        assert c.labels + [l] + rest == c.labels + ([l] + rest);
        assert ([l] + rest)[1..] == rest;
        rest := [l] + rest;
      }
    case Done(_, _) =>
      rest := [];
    case Failed(_) =>
      assert false;
  }

  /** Where the parser sees a pointer or a label, the iterator sees the same. */
  lemma {:induction false} PeekSees(mem: nat -> Octet, msg: Octets, pos: nat, end: nat)
    requires pos <= end <= |msg| && Holds(mem, msg)
    ensures DecodeCompressionPtr(msg, pos, end).Some? ==> PeekPtr(mem, pos) == DecodeCompressionPtr(msg, pos, end)
    ensures DecodeLabel(msg, pos, end).Ok? ==> PeekPtr(mem, pos).None? && mem(pos) == msg[pos]
  {
  }

  /** Whatever the parser accepted, the unchecked iterator yields the same labels and stops,
      whatever lies behind the message; each label has 1 to 63 octets and lies inside it. */
  lemma {:induction false} IteratorYieldsParsedLabels(mem: nat -> Octet, msg: Octets, start: nat, end: nat, fuel: nat)
    requires start <= end <= |msg| && Holds(mem, msg) && ParseFrom(msg, Start(start, end), fuel).Done?
    ensures var labels := ParseFrom(msg, Start(start, end), fuel).labels;
            && Iterate(mem, start, fuel) == Some(labels)
            && (forall i :: 0 <= i < |labels| ==> GoodLabel(msg, labels[i]))
            && SpanOctets(labels) + 1 <= 255
  {
    var rest := IteratorFollows(mem, msg, Start(start, end), fuel);
    assert [] + rest == rest;
  }

  /** `DomainName::LabelsIterator`: `m_label_start` moves over memory it does not know the end
      of. `remaining` is what it will still yield and `moves` how many moves that takes. */
  class LabelsIterator {
    const mem: nat -> Octet
    var labelStart: Option<nat>
    ghost var remaining: seq<Span>
    ghost var moves: nat

    ghost predicate Valid()
      reads this
    {
      match labelStart
      case None => remaining == []
      case Some(p) => remaining != [] && mem(p) < MARKER && Iterate(mem, p, moves) == Some(remaining)
    }

    constructor (mem: nat -> Octet, selfStart: nat, ghost fuel: nat)
      requires Iterate(mem, selfStart, fuel).Some?
      ensures Valid() && remaining == Iterate(mem, selfStart, fuel).value && this.mem == mem
    {
      this.mem := mem;
      labelStart := Some(selfStart);
      remaining := Iterate(mem, selfStart, fuel).value;
      moves := fuel;
      new;
      Advance(selfStart);
    }

    /** Follow pointers from `from` to a label, or to the root label, which ends the walk. */
    method Advance(from: nat)
      requires Iterate(mem, from, moves) == Some(remaining)
      modifies this`labelStart, this`moves
      ensures Valid()
    {
      var p := from;
      var ptr := PeekPtr(mem, p);
      while ptr.Some?
        invariant ptr == PeekPtr(mem, p) && Iterate(mem, p, moves) == Some(remaining)
        decreases moves
      {
        p := ptr.value;
        moves := moves - 1;
        ptr := PeekPtr(mem, p);
      }
      labelStart := if mem(p) == 0 then None else Some(p);
    }

    method Current() returns (l: Span)
      requires Valid() && labelStart.Some?
      ensures remaining != [] && l == remaining[0]
    {
      l := Span(labelStart.value + 1, mem(labelStart.value));
    }

    method Next()
      requires Valid()
      modifies this
      ensures Valid()
      ensures remaining == if old(remaining) == [] then [] else old(remaining)[1..]
    {
      if labelStart.Some? {
        var p := labelStart.value;
        var next := p + mem(p) + 1;
        moves := moves - 1;
        remaining := remaining[1..];
        Advance(next);
      }
    }
  }

  /** Runs an iterator to its end. */
  method CollectLabels(mem: nat -> Octet, start: nat, ghost fuel: nat) returns (labels: seq<Span>)
    requires Iterate(mem, start, fuel).Some?
    ensures Some(labels) == Iterate(mem, start, fuel)
  {
    hide Iterate, PeekPtr;
    labels := [];
    var it := new LabelsIterator(mem, start, fuel);
    ghost var all := it.remaining;
    while it.labelStart.Some?
      invariant it.Valid() && fresh(it)
      invariant labels + it.remaining == all
      decreases |it.remaining|
    {
      var l := it.Current();
      ghost var r := it.remaining;
      assert labels + r == labels + [r[0]] + r[1..];
      labels := labels + [l];
      it.Next();
    }
    assert labels + [] == labels;
  }
}
