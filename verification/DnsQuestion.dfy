/** Questions: written by a client, read back by the response decoder; sections 4.1.1 and 4.1.2
    of RFC 1035. */
module DnsQuestion {
  import opened Basics
  import opened DnsParser
  import opened DnsNames
  import opened CompressionMap
  import opened DnsEncoder

  type U16 = x: int | 0 <= x < 0x1_0000

  datatype Header = Header(id: U16, flags: U16, qdcount: U16, ancount: U16, nscount: U16, arcount: U16)

  /** `opcode` is a 4-bit field, type and class are 8-bit enumerations. */
  datatype Question = Question(id: U16, opcode: nat, recursionDesired: bool, name: Octets, qtype: Octet, qclass: Octet)

  /** `Header::Flags` with the opcode in bits 11 to 14 and recursion-desired in bit 8. */
  function MakeFlags(opcode: nat, recursionDesired: bool): (r: U16)
    requires opcode < 16
    ensures r / 2048 == opcode && r % 2048 == if recursionDesired then 256 else 0
  {
    opcode * 2048 + if recursionDesired then 256 else 0
  }

  function OpcodeOf(flags: U16): nat {
    flags / 2048 % 16
  }

  predicate RecursionDesired(flags: U16) {
    flags / 256 % 2 == 1
  }

  /** The two octets at `pos` are the value, the first counting 256-fold. */
  ghost predicate Stands(msg: Octets, pos: nat, v: U16)
    requires pos + 2 <= |msg|
  {
    v / 256 == msg[pos] && v % 256 == msg[pos + 1]
  }

  function EncodeHeader(h: Header): (r: Octets)
    ensures |r| == 12
    ensures Stands(r, 0, h.id) && Stands(r, 2, h.flags) && Stands(r, 4, h.qdcount)
    ensures Stands(r, 6, h.ancount) && Stands(r, 8, h.nscount) && Stands(r, 10, h.arcount)
  {
    WriteHton16(h.id) + WriteHton16(h.flags) + WriteHton16(h.qdcount) +
    WriteHton16(h.ancount) + WriteHton16(h.nscount) + WriteHton16(h.arcount)
  }

  function QuestionHeader(q: Question): Header
    requires q.opcode < 16
  {
    Header(q.id, MakeFlags(q.opcode, q.recursionDesired), 1, 0, 0, 0)
  }

  function EncodeQuestion(e: Env, q: Question): (r: Result<Octets, EncodeError>)
    requires q.opcode < 16
  {
    match EncodeDomainName(e, Writer(EncodeHeader(QuestionHeader(q)), []), q.name)
    case Err(x) => Err(x)
    case Ok(w) => Ok(w.out + WriteHton16(q.qtype) + WriteHton16(q.qclass))
  }

  /** The fields of a question where section 4.1.1 of RFC 1035 has them: the id; the opcode in bits
      11 to 14 and recursion-desired in bit 8 of the flags, all other bits zero; one question and
      no other records; and, at the end, type and class. */
  ghost predicate QuestionOctets(msg: Octets, q: Question) {
    && 16 <= |msg|
    && msg[0] == q.id / 256 && msg[1] == q.id % 256
    && msg[2] == q.opcode * 8 + (if q.recursionDesired then 1 else 0) && msg[3] == 0
    && msg[4] == 0 && msg[5] == 1
    && msg[6] == 0 && msg[7] == 0 && msg[8] == 0 && msg[9] == 0 && msg[10] == 0 && msg[11] == 0
    && msg[|msg| - 4] == 0 && msg[|msg| - 3] == q.qtype && msg[|msg| - 2] == 0 && msg[|msg| - 1] == q.qclass
  }

  /** Every question that is written has its fields in these octets. */
  lemma {:induction false} QuestionIsOctets(e: Env, q: Question)
    requires q.opcode < 16
    ensures EncodeQuestion(e, q).Ok? ==> QuestionOctets(EncodeQuestion(e, q).value, q)
  {
    hide EncodeDomainName, EncodeHeader, Plain, FirstError, SplitIntoLabels;
    var header := EncodeHeader(QuestionHeader(q));
    SingleNameIsPlain(e, Writer(header, []), q.name);
    if EncodeQuestion(e, q).Ok? {
      var front := header + Plain(SplitIntoLabels(q.name));
      var msg := front + WriteHton16(q.qtype) + WriteHton16(q.qclass);
      assert EncodeQuestion(e, q).value == msg;
      assert forall i :: 0 <= i < 12 ==> msg[i] == header[i];
    }
  }

  /** The output iterator with its shared counter, and the compression map. */
  class MessageWriter {
    var out: Octets
    var table: seq<Node>

    ghost function View(): Writer
      reads this
    {
      Writer(out, table)
    }

    constructor ()
      ensures View() == Writer([], [])
    {
      out, table := [], [];
    }

    /** `encode_domain_name` with `write_label` in its loop. A call that fails has written
        what it had written. */
    method EncodeName(e: Env, name: Octets) returns (error: Option<EncodeError>)
      requires Offsets(table)
      modifies this
      ensures match old(EncodeDomainName(e, View(), name))
              case Ok(w) => error == None && View() == w
              case Err(x) => error == Some(x)
      ensures old(out) <= out && Offsets(table)
    {
      hide Encode, WriteLabel, Find, Insert, MakeNode, Offsets, EncodeCompressionPtr;
      if |name| > FQDN_MAX_OCTET_LEN {
        return Some(TooLongDomainName);
      }
      ghost var goal := EncodeDomainName(e, View(), name);
      var s := StripDot(name);
      var dot := if EndsWithDot(name) then [DOT] else [];
      var more := s != [];
      while more
        invariant Offsets(table) && old(out) <= out
        invariant more ==> goal == Encode(e, View(), s, dot)
        invariant !more ==> goal == Ok(Writer(out + [0], table))
        decreases more, |s|
      {
        var i := FirstDot(s);
        var part := s[..i];
        EncodeTurn(e, View(), s, dot);
        if part == [] {
          return Some(EmptyLabel);
        }
        if |part| > MAX_LABEL {
          return Some(TooLongDomainNameLabel);
        }
        var offset := Find(table, e.hash, s + dot);
        if offset.Some? {
          out := out + EncodeCompressionPtr(offset.value);
          return None;
        }
        LabelUnfolds(e, View(), part, s + dot);
        if |out| <= MAX_POINTER && e.granted(|out|) {
          table := Insert(table, MakeNode(e.hash, s + dot, |out|));
        }
        out := out + [|part|] + part;
        if i == |s| {
          more := false;
        } else {
          s := s[i + 1..];
        }
      }
      out := out + [0];
      return None;
    }

    method WriteQuestion(e: Env, q: Question) returns (error: Option<EncodeError>)
      requires q.opcode < 16 && View() == Writer([], [])
      modifies this
      ensures match EncodeQuestion(e, q)
              case Ok(octets) => error == None && out == octets
              case Err(x) => error == Some(x)
      ensures error == None ==> QuestionOctets(out, q)
    {
      QuestionIsOctets(e, q);
      out := EncodeHeader(QuestionHeader(q));
      error := EncodeName(e, q.name);
      if error == None {
        out := out + WriteHton16(q.qtype);
        out := out + WriteHton16(q.qclass);
      }
    }
  }

  // ---------------------------------------------------------------- decoding

  function Read16(msg: Octets, pos: nat): (r: U16)
    requires pos + 2 <= |msg|
    ensures r / 256 == msg[pos] && r % 256 == msg[pos + 1]
  {
    ReadNtoh16(msg[pos], msg[pos + 1])
  }

  function DecodeHeader(msg: Octets, pos: nat): (r: Result<Header, DecodeError>)
    requires pos <= |msg|
    ensures r == Err(WrongHeaderBytesCount) <==> |msg| - pos < 12
    ensures r.Ok? <==> |msg| - pos >= 12
    ensures r.Ok? ==>
              && Stands(msg, pos, r.value.id) && Stands(msg, pos + 2, r.value.flags)
              && Stands(msg, pos + 4, r.value.qdcount) && Stands(msg, pos + 6, r.value.ancount)
              && Stands(msg, pos + 8, r.value.nscount) && Stands(msg, pos + 10, r.value.arcount)
  {
    if |msg| - pos < 12 then Err(WrongHeaderBytesCount)
    else Ok(Header(Read16(msg, pos), Read16(msg, pos + 2), Read16(msg, pos + 4),
                   Read16(msg, pos + 6), Read16(msg, pos + 8), Read16(msg, pos + 10)))
  }

  /** A decoded entry: where its name starts, its type and its class. */
  datatype Entry = Entry(nameStart: nat, qtype: Octet, qclass: Octet)

  /** The entry and the position behind it, given what the name parser answered. */
  function DecodeEntry(msg: Octets, pos: nat, name: Outcome): (r: Result<(Entry, nat), DecodeError>)
    requires pos <= |msg| && !name.Running?
    requires name.Done? ==> pos + name.consumed <= |msg|
    ensures name.Failed? ==> r == Err(name.error)
    ensures name.Done? ==>
              var p := pos + name.consumed;
              && (|msg| - p < 2 ==> r == Err(NoQuestionType))
              && (2 <= |msg| - p < 4 ==> r == Err(NoQuestionClass))
              && (|msg| - p >= 4 ==> r == Ok((Entry(pos, msg[p + 1], msg[p + 3]), p + 4)))
  {
    match name
    case Failed(x) => Err(x)
    case Done(consumed, _) =>
      var p := pos + consumed;
      if |msg| - p < 2 then Err(NoQuestionType)
      else if |msg| - p < 4 then Err(NoQuestionClass)
      else Ok((Entry(pos, Read16(msg, p) % 256, Read16(msg, p + 2) % 256), p + 4))
  }

  /** What the parser consumes lies in front of it. */
  lemma {:induction false} ConsumedFits(msg: Octets, c: Cursor, fuel: nat)
    requires InMessage(msg, c) && ParseFrom(msg, c, fuel).Done?
    ensures c.pos + OnWire(msg, c.pos, c.end) <= c.end
    decreases fuel
  {
    match ParseStep(msg, c)
    case Running(d) =>
      if DecodeCompressionPtr(msg, c.pos, c.end).None? {
        ConsumedFits(msg, d, fuel - 1);
      }
    case _ =>
  }

  lemma {:induction false} ConsumedStaysInside(msg: Octets, start: nat, fuel: nat)
    requires start <= |msg| && ParseFrom(msg, Start(start, |msg|), fuel).Done?
    ensures start + ParseFrom(msg, Start(start, |msg|), fuel).consumed <= |msg|
  {
    ConsumedFits(msg, Start(start, |msg|), fuel);
    ConsumedIsOnWire(msg, start, |msg|, fuel);
  }

  /** `ResponseDecoder`: `pos` is where the remaining message starts. */
  class ResponseDecoder {
    var original: Octets
    var pos: nat

    ghost predicate Valid()
      reads this
    {
      pos <= |original|
    }

    constructor (response: Octets)
      ensures Valid() && original == response && pos == 0
    {
      original, pos := response, 0;
    }

    method Invalidate()
      modifies this
      ensures Valid() && original == [] && pos == 0
    {
      original, pos := [], 0;
    }

    method ConsumeHeader() returns (r: Result<Header, DecodeError>)
      requires Valid()
      modifies this`pos
      ensures Valid() && r == DecodeHeader(original, old(pos))
      ensures pos == if r.Ok? then old(pos) + 12 else old(pos)
    {
      r := DecodeHeader(original, pos);
      if r.Ok? {
        pos := pos + 12;
      }
    }

    /** A failure empties the decoder. */
    method ConsumeQuestionEntry(ghost fuel: nat) returns (r: Result<Entry, DecodeError>)
      requires Valid() && !ParseFrom(original, Start(pos, |original|), fuel).Running?
      modifies this
      ensures Valid()
      ensures old(var name := ParseFrom(original, Start(pos, |original|), fuel);
                  name.Done? ==> pos + name.consumed <= |original|)
      ensures match old(DecodeEntry(original, pos, ParseFrom(original, Start(pos, |original|), fuel)))
              case Ok((entry, next)) => r == Ok(entry) && original == old(original) && pos == next
              case Err(x) => r == Err(x) && original == [] && pos == 0
    {
      if ParseFrom(original, Start(pos, |original|), fuel).Done? {
        ConsumedStaysInside(original, pos, fuel);
      }
      var start := pos;
      var name := ParseDomainName(original, pos, |original|, fuel);
      if name.Err? {
        Invalidate();
        return Err(name.error);
      }
      pos := pos + name.value.0;
      if |original| - pos < 2 {
        Invalidate();
        return Err(NoQuestionType);
      }
      var qtype := Read16(original, pos) % 256;
      pos := pos + 2;
      if |original| - pos < 2 {
        Invalidate();
        return Err(NoQuestionClass);
      }
      var qclass := Read16(original, pos) % 256;
      pos := pos + 2;
      return Ok(Entry(start, qtype, qclass));
    }
  }

  // ---------------------------------------------------------------- round trip

  lemma {:induction false} FlagsRoundTrip(opcode: nat, recursionDesired: bool)
    requires opcode < 16
    ensures OpcodeOf(MakeFlags(opcode, recursionDesired)) == opcode
    ensures RecursionDesired(MakeFlags(opcode, recursionDesired)) == recursionDesired
  {
  }

  /** Where the getters look: opcode in bits 11 to 14, recursion-desired in bit 8. */
  lemma {:induction false} FlagBits(flags: U16, high: nat, opcode: nat, middle: nat, rd: nat, low: nat)
    requires high < 2 && opcode < 16 && middle < 4 && rd < 2 && low < 256
    requires flags == high * 32768 + opcode * 2048 + middle * 512 + rd * 256 + low
    ensures OpcodeOf(flags) == opcode && (RecursionDesired(flags) <==> rd == 1)
  {
    assert flags / 2048 == high * 16 + opcode;
    assert flags / 256 == 2 * (high * 64 + opcode * 4 + middle) + rd;
  }

  lemma {:induction false} HeaderRoundTrip(h: Header, rest: Octets)
    ensures DecodeHeader(EncodeHeader(h) + rest, 0) == Ok(h)
  {
    var m := EncodeHeader(h) + rest;
    var w := [WriteHton16(h.id), WriteHton16(h.flags), WriteHton16(h.qdcount),
              WriteHton16(h.ancount), WriteHton16(h.nscount), WriteHton16(h.arcount)];
    assert m[0] == w[0][0] && m[1] == w[0][1] && m[2] == w[1][0] && m[3] == w[1][1];
    assert m[4] == w[2][0] && m[5] == w[2][1] && m[6] == w[3][0] && m[7] == w[3][1];
    assert m[8] == w[4][0] && m[9] == w[4][1] && m[10] == w[5][0] && m[11] == w[5][1];
  }

  lemma {:induction false} OnWireStep(msg: Octets, pos: nat)
    requires pos < |msg| && msg[pos] <= MAX_LABEL && pos + 1 + msg[pos] <= |msg|
    ensures OnWire(msg, pos, |msg|) ==
            if msg[pos] == 0 then 1 else msg[pos] + 1 + OnWire(msg, pos + msg[pos] + 1, |msg|)
  {
  }

  lemma {:induction false} RootIsPlain(before: Octets, rest: Octets)
    ensures Plain([]) == [0] && Denotes(before + [0] + rest, |before|, [])
  {
    assert (before + [0] + rest)[|before|] == 0;
  }

  /** A plainly written name spells its labels and takes as many octets as it has. */
  lemma {:induction false} PlainOnWire(before: Octets, labels: Labels, rest: Octets)
    requires FirstError(labels).None?
    ensures OnWire(before + Plain(labels) + rest, |before|, |before + Plain(labels) + rest|) == WireLength(labels)
    ensures Denotes(before + Plain(labels) + rest, |before|, labels)
    decreases |labels|
  {
    hide OnWire, Denotes, Plain, FirstError;
    var m := before + Plain(labels) + rest;
    if labels == [] {
      RootIsPlain(before, rest);
      assert m[|before|] == 0;
      OnWireStep(m, |before|);
    } else {
      var part := labels[0];
      assert labels == [part] + labels[1..];
      PlainStep(part, labels[1..]);
      var b := before + [|part|] + part;
      assert m == b + Plain(labels[1..]) + rest;
      PlainOnWire(b, labels[1..], rest);
      assert m == before + [|part|] + part + (Plain(labels[1..]) + rest);
      assert m[|before|] == |part|;
      OnWireStep(m, |before|);
      LabelDenotes(before, part, Plain(labels[1..]) + rest, labels[1..]);
    }
  }

  /** Decoding the header and the entry gives the question, with nothing left over: its id, its
      opcode and recursion bit and no other flag, one question and no other records, its labels,
      its type and its class. */
  ghost predicate ReadBack(msg: Octets, q: Question, fuel: nat)
    requires q.opcode < 16
  {
    && 12 <= |msg|
    && var flags: nat := q.opcode * 2048 + if q.recursionDesired then 256 else 0;
       var name := ParseFrom(msg, Start(12, |msg|), fuel);
       && DecodeHeader(msg, 0) == Ok(Header(q.id, flags, 1, 0, 0, 0))
       && OpcodeOf(flags) == q.opcode && RecursionDesired(flags) == q.recursionDesired
       && ParsedWith(msg, 12, SplitIntoLabels(q.name), fuel)
       && 12 + name.consumed <= |msg|
       && DecodeEntry(msg, 12, name) == Ok((Entry(12, q.qtype, q.qclass), |msg|))
  }

  /** A question with labels of 1 to 63 octets and a dot-stripped name of at most 253 is written
      by `encode_question` and read back whole: header, labels, type and class, with nothing
      left over. */
  lemma {:induction false} QuestionRoundTrip(e: Env, q: Question) returns (fuel: nat)
    requires q.opcode < 16 && |StripDot(q.name)| <= 253 && FirstError(SplitIntoLabels(q.name)).None?
    ensures EncodeQuestion(e, q).Ok?
    ensures ReadBack(EncodeQuestion(e, q).value, q, fuel)
  {
    hide EncodeDomainName, EncodeHeader, DecodeHeader, ParseFrom, Plain, FirstError, SplitIntoLabels,
         MakeFlags, OpcodeOf, RecursionDesired, DecodeEntry, ParsedWith, QuestionHeader, Stands;
    QuestionHeaderIs(q);
    var header := EncodeHeader(QuestionHeader(q));
    var labels := SplitIntoLabels(q.name);
    SingleNameIsPlain(e, Writer(header, []), q.name);
    FlagsRoundTrip(q.opcode, q.recursionDesired);
    NameWireLength(q.name);
    var tail := WriteHton16(q.qtype) + WriteHton16(q.qclass);
    assert EncodeQuestion(e, q).value == header + Plain(labels) + tail == header + (Plain(labels) + tail);
    HeaderRoundTrip(QuestionHeader(q), Plain(labels) + tail);
    fuel := EntryRoundTrip(header, labels, q.qtype, q.qclass);
  }

  lemma {:induction false} QuestionHeaderIs(q: Question)
    requires q.opcode < 16
    ensures QuestionHeader(q) == Header(q.id, q.opcode * 2048 + (if q.recursionDesired then 256 else 0), 1, 0, 0, 0)
    ensures QuestionHeader(q).flags == MakeFlags(q.opcode, q.recursionDesired)
  {
  }

  lemma {:induction false} EntryRoundTrip(before: Octets, labels: Labels, qtype: Octet, qclass: Octet)
    returns (fuel: nat)
    requires FirstError(labels).None? && WireLength(labels) <= FQDN_MAX_OCTET_LEN
    ensures var msg := before + Plain(labels) + (WriteHton16(qtype) + WriteHton16(qclass));
            var name := ParseFrom(msg, Start(|before|, |msg|), fuel);
            && ParsedWith(msg, |before|, labels, fuel)
            && |before| + name.consumed <= |msg|
            && DecodeEntry(msg, |before|, name) == Ok((Entry(|before|, qtype, qclass), |msg|))
  {
    hide ParseFrom, Plain, FirstError, WriteHton16, Read16, WireLength, ParsedWith;
    var front := before + Plain(labels);
    fuel := PlainParses(before, labels, WriteHton16(qtype) + WriteHton16(qclass));
    ReadsTail(front, qtype, qclass);
  }

  /** A plainly written name is read back, and as many octets consumed as were written. */
  lemma {:induction false} PlainParses(before: Octets, labels: Labels, tail: Octets) returns (fuel: nat)
    requires FirstError(labels).None? && WireLength(labels) <= FQDN_MAX_OCTET_LEN
    ensures var msg := before + Plain(labels) + tail;
            && ParsedWith(msg, |before|, labels, fuel)
            && ParseFrom(msg, Start(|before|, |msg|), fuel).Done?
            && ParseFrom(msg, Start(|before|, |msg|), fuel).consumed == WireLength(labels)
  {
    hide ParseFrom, Plain, FirstError, OnWire, Denotes, Contents, WireLength;
    var msg := before + Plain(labels) + tail;
    PlainOnWire(before, labels, tail);
    fuel := DenotedIsRead(msg, |before|, labels);
    assert [] + labels == labels;
    ConsumedIsOnWire(msg, |before|, |msg|, fuel);
  }

  lemma {:induction false} ReadsTail(front: Octets, qtype: Octet, qclass: Octet)
    ensures var msg := front + (WriteHton16(qtype) + WriteHton16(qclass));
            && |msg| == |front| + 4
            && Read16(msg, |front|) == qtype && Read16(msg, |front| + 2) == qclass
  {
    var a, b := WriteHton16(qtype), WriteHton16(qclass);
    var msg := front + (a + b);
    var p := |front|;
    assert msg[p] == a[0] && msg[p + 1] == a[1] && msg[p + 2] == b[0] && msg[p + 3] == b[1];
  }

  /** Every accepted question can be read back if and only if its name, without the trailing
      dot, has at most 253 octets. The encoder also accepts 254 and 255; those are too long for
      the parser. */
  lemma {:induction false} QuestionReadsBackIff(e: Env, q: Question)
    requires q.opcode < 16 && |q.name| <= FQDN_MAX_OCTET_LEN && FirstError(SplitIntoLabels(q.name)).None?
    ensures EncodeQuestion(e, q).Ok?
    ensures var msg := EncodeQuestion(e, q).value;
            var short := |StripDot(q.name)| <= 253;
            && (ParsesTo(msg, 12, SplitIntoLabels(q.name)) <==> short)
            && (TooLong(msg, 12) <==> !short)
  {
    hide EncodeDomainName, EncodeHeader, Plain, FirstError, SplitIntoLabels, ParsesTo, TooLong, Denotes, OnWire;
    var header := EncodeHeader(QuestionHeader(q));
    var labels := SplitIntoLabels(q.name);
    SingleNameIsPlain(e, Writer(header, []), q.name);
    NameWireLength(q.name);
    var tail := WriteHton16(q.qtype) + WriteHton16(q.qclass);
    var msg := header + Plain(labels) + tail;
    assert EncodeQuestion(e, q).value == msg;
    PlainOnWire(header, labels, tail);
    DenotedNameParses(msg, 12, labels);
    ParsesExclusive(msg, 12, labels);
  }

  /** `n` times the letter "a". */
  function Letters(n: nat): (r: Octets)
    ensures |r| == n && DOT !in r
  {
    seq(n, _ => 97)
  }

  lemma {:induction false} SplitAtDot(part: Octets, rest: Octets)
    requires DOT !in part
    ensures Split(part + [DOT] + rest) == [part] + Split(rest) && Split(part) == [part]
  {
    FirstDotBehind(part, [DOT] + rest);
    FirstDotBehind(part, []);
    assert part + [DOT] + rest == part + ([DOT] + rest) && part + [] == part;
    assert (part + [DOT] + rest)[..|part|] == part && (part + [DOT] + rest)[|part| + 1..] == rest;
  }

  lemma {:induction false} FirstDotBehind(part: Octets, rest: Octets)
    requires DOT !in part && (rest == [] || rest[0] == DOT)
    ensures FirstDot(part + rest) == |part|
  {
    if part == [] {
      assert part + rest == rest;
    } else {
      assert (part + rest)[1..] == part[1..] + rest;
      FirstDotBehind(part[1..], rest);
    }
  }

  /** A question with a name of 254 octets, in labels of 63, 63, 63 and 62: it is written and
      fits the buffer, and its name is rejected as too long when it is read. */
  lemma {:induction false} LongQuestionIsNotReadBack(e: Env, q: Question)
    requires q.opcode < 16
    requires var a := Letters(63); q.name == a + [DOT] + (a + [DOT] + (a + [DOT] + Letters(62)))
    ensures |q.name| == 254 && EncodeQuestion(e, q).Ok? && TooLong(EncodeQuestion(e, q).value, 12)
  {
    hide EncodeQuestion, Split, FirstError, Letters, TooLong, ParsesTo;
    var a, b := Letters(63), Letters(62);
    SplitAtDot(a, a + [DOT] + (a + [DOT] + b));
    SplitAtDot(a, a + [DOT] + b);
    SplitAtDot(a, b);
    SplitAtDot(b, []);
    assert q.name[|q.name| - 1] == b[61];
    assert SplitIntoLabels(q.name) == [a] + ([a] + ([a] + [b]));
    QuestionReadsBackIff(e, q);
  }

  /** Exactly which questions are accepted, and that each fits the 512-octet buffer the
      resolver encodes into. */
  lemma {:induction false} QuestionFitsBuffer(e: Env, q: Question)
    requires q.opcode < 16
    ensures EncodeQuestion(e, q).Ok? <==> |q.name| <= 255 && FirstError(SplitIntoLabels(q.name)).None?
    ensures EncodeQuestion(e, q).Ok? ==>
              |EncodeQuestion(e, q).value| == 16 + WireLength(SplitIntoLabels(q.name)) <= 273 <= 512
  {
    hide EncodeDomainName, EncodeHeader, FirstError, Plain;
    var w := Writer(EncodeHeader(QuestionHeader(q)), []);
    SingleNameIsPlain(e, w, q.name);
    NameWireLength(q.name);
  }
}
