/** Writing names with compression, section 4.1.4 of RFC 1035. */
module DnsEncoder {
  import opened Basics
  import opened DnsParser
  import opened DnsNames
  import opened CompressionMap

  const DOT: Octet := 46
  const MAX_POINTER: nat := 0x3FFF

  datatype EncodeError = TooLongDomainName | TooLongDomainNameLabel | EmptyLabel

  // ---------------------------------------------------------------- labels of a name

  function FirstDot(s: Octets): (i: nat)
    ensures i <= |s| && DOT !in s[..i] && (i < |s| ==> s[i] == DOT)
  {
    if s == [] || s[0] == DOT then 0
    else
      var i := 1 + FirstDot(s[1..]);
      assert s[..i] == [s[0]] + s[1..][..i - 1];
      i
  }

  /** The parts of a string between its dots. */
  function Split(s: Octets): (r: Labels)
    ensures r != []
    decreases |s|
  {
    var i := FirstDot(s);
    if i == |s| then [s] else [s[..i]] + Split(s[i + 1..])
  }

  predicate EndsWithDot(name: Octets) {
    name != [] && name[|name| - 1] == DOT
  }

  function StripDot(name: Octets): (r: Octets)
    ensures |r| <= |name|
  {
    if EndsWithDot(name) then name[..|name| - 1] else name
  }

  /** `split_into_labels`: one trailing dot is dropped, and splitting nothing gives no label. */
  function SplitIntoLabels(name: Octets): Labels {
    var s := StripDot(name);
    if s == [] then [] else Split(s)
  }

  lemma {:induction false} SplitWireLength(s: Octets)
    ensures WireLength(Split(s)) == |s| + 2
    decreases |s|
  {
    var i := FirstDot(s);
    if i < |s| {
      SplitWireLength(s[i + 1..]);
      var r := Split(s);
      assert r[0] == s[..i] && r[1..] == Split(s[i + 1..]);
    } else {
      assert Split(s)[1..] == [];
    }
  }

  lemma {:induction false} NameWireLength(name: Octets)
    ensures WireLength(SplitIntoLabels(name)) == if StripDot(name) == [] then 1 else |StripDot(name)| + 2
  {
    SplitWireLength(StripDot(name));
  }

  // ---------------------------------------------------------------- writing

  /** What has been written so far (its length is the shared counter), and the map. */
  datatype Writer = Writer(out: Octets, table: seq<Node>)

  /** How strings hash, and whether the insertion made at a given offset finds memory. */
  datatype Env = Env(hash: Hash, granted: nat -> bool)

  function WriteHton16(v: nat): (r: Octets)
    requires v < 0x1_0000
    ensures |r| == 2 && r[0] == v / 256 && r[1] == v % 256
  {
    [v / 256, v % 256]
  }

  function EncodeCompressionPtr(offset: nat): (r: Octets)
    requires offset <= MAX_POINTER
    ensures |r| == 2 && r[0] == 0xC0 + offset / 256 && r[1] == offset % 256
  {
    WriteHton16(0xC000 + offset)
  }

  ghost predicate Offsets(t: seq<Node>) {
    forall i :: 0 <= i < |t| ==> t[i].offset <= MAX_POINTER
  }

  /** The name whose remaining part is `s`, plus the trailing dot it may have come with. The
      rest of the name as it was given is what the map is searched for. */
  function Encode(e: Env, w: Writer, s: Octets, dot: Octets): (r: Result<Writer, EncodeError>)
    requires Offsets(w.table)
    ensures r.Ok? ==> Offsets(r.value.table)
    decreases |s|
  {
    var i := FirstDot(s);
    var part := s[..i];
    if part == [] then Err(EmptyLabel)
    else if |part| > MAX_LABEL then Err(TooLongDomainNameLabel)
    else
      match Find(w.table, e.hash, s + dot)
      case Some(offset) => Ok(w.(out := w.out + EncodeCompressionPtr(offset)))
      case None =>
        var w1 := WriteLabel(e, w, part, s + dot);
        if i == |s| then Ok(w1.(out := w1.out + [0]))
        else Encode(e, w1, s[i + 1..], dot)
  }

  /** An uncompressed label, remembered if its offset fits a pointer and memory allows. */
  function WriteLabel(e: Env, w: Writer, part: Octets, remaining: Octets): (r: Writer)
    requires Offsets(w.table) && 1 <= |part| <= MAX_LABEL
    ensures Offsets(r.table)
    ensures r.out == w.out + [|part|] + part
    ensures forall n :: n in r.table ==> n in w.table || (n.str == remaining && n.offset == |w.out|)
  {
    var table := if |w.out| <= MAX_POINTER && e.granted(|w.out|)
                 then Insert(w.table, MakeNode(e.hash, remaining, |w.out|)) else w.table;
    InsertedOffsets(e, w, remaining);
    Writer(w.out + [|part|] + part, table)
  }

  lemma {:induction false} InsertedOffsets(e: Env, w: Writer, remaining: Octets)
    requires Offsets(w.table)
    ensures |w.out| <= MAX_POINTER ==> Offsets(Insert(w.table, MakeNode(e.hash, remaining, |w.out|)))
  {
    if |w.out| <= MAX_POINTER {
      var n := MakeNode(e.hash, remaining, |w.out|);
      var r := Insert(w.table, n);
      forall i | 0 <= i < |r| ensures r[i].offset <= MAX_POINTER {
        assert r[i] in r;
        if r[i] in w.table {
          var j :| 0 <= j < |w.table| && w.table[j] == r[i];
        }
      }
    }
  }

  function EncodeDomainName(e: Env, w: Writer, name: Octets): (r: Result<Writer, EncodeError>)
    requires Offsets(w.table)
    ensures r.Ok? ==> Offsets(r.value.table)
  {
    if |name| > FQDN_MAX_OCTET_LEN then Err(TooLongDomainName)
    else if StripDot(name) == [] then Ok(w.(out := w.out + [0]))
    else Encode(e, w, StripDot(name), if EndsWithDot(name) then [DOT] else [])
  }

  // ---------------------------------------------------------------- compression preserves meaning

  /** An entry of the map leads to a label from which its string can be read. */
  ghost predicate Leads(out: Octets, n: Node) {
    && n.offset < |out|
    && 1 <= out[n.offset] <= MAX_LABEL
    && Denotes(out, n.offset, SplitIntoLabels(n.str))
  }

  lemma {:induction false} LeadsExtends(out: Octets, more: Octets, n: Node)
    requires Leads(out, n)
    ensures Leads(out + more, n)
  {
    DenotesExtends(out, more, n.offset, SplitIntoLabels(n.str));
  }

  lemma {:induction false} KeyLabels(s: Octets, dot: Octets)
    requires s != [] && (dot == [DOT] || (dot == [] && !EndsWithDot(s)))
    ensures SplitIntoLabels(s + dot) == Split(s)
  {
    if dot == [] {
      assert s + dot == s;
    } else {
      assert EndsWithDot(s + dot);
      assert (s + dot)[..|s|] == s;
    }
  }

  lemma {:induction false} PointerDenotes(out: Octets, n: Node, labels: Labels)
    requires Leads(out, n) && n.offset <= MAX_POINTER && labels == SplitIntoLabels(n.str)
    ensures Denotes(out + EncodeCompressionPtr(n.offset), |out|, labels)
  {
    hide EncodeCompressionPtr, PointerTarget, SplitIntoLabels;
    var ptr := EncodeCompressionPtr(n.offset);
    DenotesExtends(out, ptr, n.offset, labels);
    PointerIsRead(out, n.offset);
    var m := out + ptr;
    assert m[n.offset] == out[n.offset];
  }

  lemma {:induction false} PointerIsRead(out: Octets, offset: nat)
    requires offset <= MAX_POINTER
    ensures var m := out + EncodeCompressionPtr(offset);
            |out| + 1 < |m| && m[|out|] >= 0xC0 && PointerTarget(m, |out|) == offset
  {
    hide EncodeCompressionPtr;
    var ptr := EncodeCompressionPtr(offset);
    var m := out + ptr;
    assert m[|out|] == ptr[0] && m[|out| + 1] == ptr[1];
    HighBits(offset / 256);
  }

  lemma {:induction false} HighBits(x: nat)
    requires x < 64
    ensures (0xC0 + x) % 64 == x
  {
  }

  lemma {:induction false} LabelDenotes(out: Octets, part: Octets, rest: Octets, labels: Labels)
    requires 1 <= |part| <= MAX_LABEL
    requires Denotes(out + [|part|] + part + rest, |out| + 1 + |part|, labels)
    ensures Denotes(out + [|part|] + part + rest, |out|, [part] + labels)
  {
    var m := out + [|part|] + part + rest;
    assert m[|out|] == |part|;
    assert m[|out| + 1..|out| + 1 + |part|] == part;
    assert ([part] + labels)[1..] == labels;
  }

  /** Everything in the map that can be met while writing `s` can be read; afterwards so can
      the name itself and everything the call added. */
  lemma {:induction false} EncodeMeans(e: Env, w: Writer, s: Octets, dot: Octets)
    requires Offsets(w.table) && (dot == [DOT] || (dot == [] && !EndsWithDot(s)))
    requires forall n :: n in w.table && |n.str| <= |s + dot| ==> Leads(w.out, n)
    requires Encode(e, w, s, dot).Ok?
    ensures var r := Encode(e, w, s, dot).value;
            && w.out <= r.out
            && Denotes(r.out, |w.out|, Split(s))
            && (forall n :: n in r.table ==> n in w.table || Leads(r.out, n))
    decreases |s|
  {
    hide Find, WriteLabel, Leads, EncodeCompressionPtr, Insert, Denotes, SplitIntoLabels, EndsWithDot;
    var i := FirstDot(s);
    var part := s[..i];
    KeyLabels(s, dot);
    match Find(w.table, e.hash, s + dot)
    case Some(offset) =>
      var k :| 0 <= k < |w.table| && w.table[k].str == s + dot && w.table[k].offset == offset;
      assert w.table[k] in w.table;
      PointerDenotes(w.out, w.table[k], Split(s));
    case None =>
      var w1 := WriteLabel(e, w, part, s + dot);
      if i == |s| {
        RootDenotes(w1.out);
        LabelDenotes(w.out, part, [0], []);
        assert part == s;
        assert [part] + [] == Split(s);
        NewEntryLeads(e, w, w1, part, [0], s, dot);
      } else {
        EncodeRest(e, w, s, dot);
      }
  }

  lemma {:induction false} RootDenotes(out: Octets)
    ensures Denotes(out + [0], |out|, [])
  {
  }

  lemma {:induction false} NewEntryLeads(e: Env, w: Writer, w1: Writer, part: Octets, rest: Octets, s: Octets,
                                         dot: Octets)
    requires Offsets(w.table) && 1 <= |part| <= MAX_LABEL && s != []
    requires dot == [DOT] || (dot == [] && !EndsWithDot(s))
    requires w1 == WriteLabel(e, w, part, s + dot)
    requires Denotes(w1.out + rest, |w.out|, Split(s))
    ensures forall n :: n in w1.table ==> n in w.table || Leads(w1.out + rest, n)
  {
    KeyLabels(s, dot);
    assert (w1.out + rest)[|w.out|] == |part|;
  }

  lemma {:induction false} EncodeRest(e: Env, w: Writer, s: Octets, dot: Octets)
    requires Offsets(w.table) && (dot == [DOT] || (dot == [] && !EndsWithDot(s)))
    requires forall n :: n in w.table && |n.str| <= |s + dot| ==> Leads(w.out, n)
    requires Encode(e, w, s, dot).Ok? && Find(w.table, e.hash, s + dot).None? && FirstDot(s) < |s|
    ensures var r := Encode(e, w, s, dot).value;
            && w.out <= r.out
            && Denotes(r.out, |w.out|, Split(s))
            && (forall n :: n in r.table ==> n in w.table || Leads(r.out, n))
    decreases |s|, 0
  {
    hide Find, WriteLabel, Leads, Denotes, SplitIntoLabels, Split, Encode, EndsWithDot;
    var i := FirstDot(s);
    var part := s[..i];
    EncodeUnfolds(e, w, s, dot);
    var w1 := WriteLabel(e, w, part, s + dot);
    var tail := s[i + 1..];
    ShorterStillLead(e, w, w1, part, s, dot, tail);
    EncodeMeans(e, w1, tail, dot);
    var r := Encode(e, w, s, dot).value;
    var rest := r.out[|w1.out|..];
    assert r.out == w1.out + rest;
    LabelDenotes(w.out, part, rest, Split(tail));
    NewEntryLeads(e, w, w1, part, rest, s, dot);
  }

  lemma {:induction false} EncodeUnfolds(e: Env, w: Writer, s: Octets, dot: Octets)
    requires Offsets(w.table) && (dot == [DOT] || (dot == [] && !EndsWithDot(s)))
    requires Encode(e, w, s, dot).Ok? && Find(w.table, e.hash, s + dot).None? && FirstDot(s) < |s|
    ensures var i := FirstDot(s);
            && s != [] && 1 <= i <= MAX_LABEL
            && Split(s) == [s[..i]] + Split(s[i + 1..])
            && (dot == [] ==> !EndsWithDot(s[i + 1..]))
            && var w1 := WriteLabel(e, w, s[..i], s + dot);
               Encode(e, w, s, dot) == Encode(e, w1, s[i + 1..], dot) && w1.out == w.out + [i] + s[..i]
  {
    hide Find, WriteLabel;
  }

  lemma {:induction false} ShorterStillLead(e: Env, w: Writer, w1: Writer, part: Octets, s: Octets, dot: Octets,
                                            tail: Octets)
    requires Offsets(w.table) && 1 <= |part| <= MAX_LABEL && w1 == WriteLabel(e, w, part, s + dot)
    requires forall n :: n in w.table && |n.str| <= |s + dot| ==> Leads(w.out, n)
    requires |tail| < |s|
    ensures forall n :: n in w1.table && |n.str| <= |tail + dot| ==> Leads(w1.out, n)
  {
    hide WriteLabel, Leads;
    var more := [|part|] + part;
    assert w1.out == w.out + more;
    forall n | n in w1.table && |n.str| <= |tail + dot| ensures Leads(w1.out, n) {
      assert n in w.table;
      LeadsExtends(w.out, more, n);
    }
  }

  ghost predicate TableLeads(w: Writer) {
    forall n :: n in w.table ==> Leads(w.out, n)
  }

  /** One call: the name can be read at its start, everything read before can still be read,
      and the map stays sound. */
  lemma {:induction false} EncodeNameMeans(e: Env, w: Writer, name: Octets)
    requires Offsets(w.table) && TableLeads(w) && EncodeDomainName(e, w, name).Ok?
    ensures var r := EncodeDomainName(e, w, name).value;
            && w.out <= r.out
            && Denotes(r.out, |w.out|, SplitIntoLabels(name))
            && TableLeads(r)
  {
    hide Leads, Encode, Denotes, Split;
    var r := EncodeDomainName(e, w, name).value;
    var s := StripDot(name);
    if s == [] {
      RootDenotes(w.out);
    } else {
      EncodeMeans(e, w, s, if EndsWithDot(name) then [DOT] else []);
    }
    var more := r.out[|w.out|..];
    assert r.out == w.out + more;
    forall n | n in r.table ensures Leads(r.out, n) {
      if n in w.table {
        LeadsExtends(w.out, more, n);
      }
    }
  }

  // ---------------------------------------------------------------- whole messages

  /** A message is written as names and other octets in any order. */
  datatype Piece = Name(name: Octets) | Raw(octets: Octets)

  function Write(e: Env, w: Writer, pieces: seq<Piece>): (r: Result<Writer, EncodeError>)
    requires Offsets(w.table)
    ensures r.Ok? ==> Offsets(r.value.table)
    decreases |pieces|
  {
    if pieces == [] then Ok(w)
    else
      var first := match pieces[0]
        case Name(name) => EncodeDomainName(e, w, name)
        case Raw(octets) => Ok(w.(out := w.out + octets));
      match first
      case Err(x) => Err(x)
      case Ok(w1) => Write(e, w1, pieces[1..])
  }

  /** Where the `k`-th piece starts. */
  function PieceStart(e: Env, w: Writer, pieces: seq<Piece>, k: nat): nat
    requires Offsets(w.table) && k < |pieces| && Write(e, w, pieces[..k]).Ok?
  {
    |Write(e, w, pieces[..k]).value.out|
  }

  lemma {:induction false} WriteAppends(e: Env, w: Writer, a: seq<Piece>, b: seq<Piece>)
    requires Offsets(w.table)
    ensures Write(e, w, a).Err? ==> Write(e, w, a + b) == Write(e, w, a)
    ensures Write(e, w, a).Ok? ==> Write(e, w, a + b) == Write(e, Write(e, w, a).value, b)
    decreases |a|
  {
    hide EncodeDomainName;
    if a == [] {
      assert a + b == b;
    } else {
      assert (a + b)[0] == a[0] && (a + b)[1..] == a[1..] + b;
      var first := match a[0]
        case Name(name) => EncodeDomainName(e, w, name)
        case Raw(octets) => Ok(w.(out := w.out + octets));
      if first.Ok? {
        WriteAppends(e, first.value, a[1..], b);
      }
    }
  }

  lemma {:induction false} WriteMeans(e: Env, w: Writer, pieces: seq<Piece>)
    requires Offsets(w.table) && TableLeads(w) && Write(e, w, pieces).Ok?
    ensures w.out <= Write(e, w, pieces).value.out && TableLeads(Write(e, w, pieces).value)
    decreases |pieces|
  {
    hide EncodeDomainName, Leads, Denotes;
    if pieces != [] {
      match pieces[0]
      case Name(name) =>
        EncodeNameMeans(e, w, name);
        WriteMeans(e, EncodeDomainName(e, w, name).value, pieces[1..]);
      case Raw(octets) =>
        forall n | n in w.table ensures Leads(w.out + octets, n) { LeadsExtends(w.out, octets, n); }
        WriteMeans(e, w.(out := w.out + octets), pieces[1..]);
    }
  }

  /** Every name of the message spells its labels at its start offset in the finished message,
      through whatever pointers were written for it; each pointer leads to a label at a strictly
      smaller offset. */
  lemma {:induction false} WrittenNameDenotes(e: Env, pieces: seq<Piece>, k: nat)
    requires Write(e, Writer([], []), pieces).Ok? && k < |pieces| && pieces[k].Name?
    ensures Write(e, Writer([], []), pieces[..k]).Ok?
    ensures Denotes(Write(e, Writer([], []), pieces).value.out, PieceStart(e, Writer([], []), pieces, k),
                    SplitIntoLabels(pieces[k].name))
  {
    hide EncodeDomainName, Leads, Denotes, SplitIntoLabels;
    var w0 := Writer([], []);
    assert pieces == pieces[..k] + pieces[k..];
    WriteAppends(e, w0, pieces[..k], pieces[k..]);
    var w := Write(e, w0, pieces[..k]).value;
    WriteMeans(e, w0, pieces[..k]);
    assert pieces[k..][0] == pieces[k];
    EncodeNameMeans(e, w, pieces[k].name);
    var w1 := EncodeDomainName(e, w, pieces[k].name).value;
    WriteMeans(e, w1, pieces[k..][1..]);
    var all := Write(e, w0, pieces).value.out;
    var more := all[|w1.out|..];
    assert all == w1.out + more;
    DenotesExtends(w1.out, more, |w.out|, SplitIntoLabels(pieces[k].name));
  }

  /** Compression preserves meaning: the parser reads back exactly the labels of every name
      written, if and only if the name, without its trailing dot, has at most 253 octets.
      Longer ones are accepted by the encoder but rejected by the parser. */
  lemma {:induction false} WrittenNameParses(e: Env, pieces: seq<Piece>, k: nat)
    requires Write(e, Writer([], []), pieces).Ok? && k < |pieces| && pieces[k].Name?
    ensures Write(e, Writer([], []), pieces[..k]).Ok?
    ensures var msg := Write(e, Writer([], []), pieces).value.out;
            var start := PieceStart(e, Writer([], []), pieces, k);
            var short := |StripDot(pieces[k].name)| <= 253;
            && (ParsesTo(msg, start, SplitIntoLabels(pieces[k].name)) <==> short)
            && (TooLong(msg, start) <==> !short)
  {
    hide Write, Denotes, SplitIntoLabels, StripDot, ParsesTo, TooLong;
    WrittenNameDenotes(e, pieces, k);
    var msg := Write(e, Writer([], []), pieces).value.out;
    var start := PieceStart(e, Writer([], []), pieces, k);
    var labels := SplitIntoLabels(pieces[k].name);
    NameWireLength(pieces[k].name);
    DenotedNameParses(msg, start, labels);
    ParsesExclusive(msg, start, labels);
  }

  /** And so does the unchecked iterator, whatever lies in memory behind the message. */
  lemma {:induction false} WrittenNameIterates(e: Env, pieces: seq<Piece>, k: nat, mem: nat -> Octet)
    requires Write(e, Writer([], []), pieces).Ok? && k < |pieces| && pieces[k].Name?
    requires |StripDot(pieces[k].name)| <= 253
    requires Holds(mem, Write(e, Writer([], []), pieces).value.out)
    ensures Write(e, Writer([], []), pieces[..k]).Ok?
    ensures exists fuel, spans ::
              && Iterate(mem, PieceStart(e, Writer([], []), pieces, k), fuel) == Some(spans)
              && Contents(Write(e, Writer([], []), pieces).value.out, spans) == SplitIntoLabels(pieces[k].name)
  {
    hide Write, Denotes, SplitIntoLabels, StripDot, TooLong, Iterate, Contents, ParseFrom;
    WrittenNameParses(e, pieces, k);
    var msg := Write(e, Writer([], []), pieces).value.out;
    var start := PieceStart(e, Writer([], []), pieces, k);
    var fuel :| ParsedWith(msg, start, SplitIntoLabels(pieces[k].name), fuel);
    IteratorYieldsParsedLabels(mem, msg, start, |msg|, fuel);
    var spans := ParseFrom(msg, Start(start, |msg|), fuel).labels;
    assert Iterate(mem, start, fuel) == Some(spans) && Contents(msg, spans) == SplitIntoLabels(pieces[k].name);
  }

  lemma {:induction false} ParsesExclusive(msg: Octets, pos: nat, labels: Labels)
    ensures !(ParsesTo(msg, pos, labels) && TooLong(msg, pos))
  {
    if ParsesTo(msg, pos, labels) {
      ParsesToExcludesTooLong(msg, pos, labels);
    }
  }

  // ---------------------------------------------------------------- a name on its own

  /** Labels and root label, uncompressed. */
  function Plain(labels: Labels): (r: Octets)
    requires forall i :: 0 <= i < |labels| ==> |labels[i]| <= MAX_LABEL
    ensures |r| == WireLength(labels)
  {
    if labels == [] then [0] else [|labels[0]|] + labels[0] + Plain(labels[1..])
  }

  /** What is wrong with the first bad label, if there is one. */
  function FirstError(labels: Labels): (r: Option<EncodeError>)
    ensures r.None? <==> forall i :: 0 <= i < |labels| ==> 1 <= |labels[i]| <= 63
    ensures r.Some? ==> exists i :: FirstBad(labels, i, r.value)
  {
    if labels == [] then None
    else if labels[0] == [] then
      assert FirstBad(labels, 0, EmptyLabel);
      Some(EmptyLabel)
    else if |labels[0]| > MAX_LABEL then
      assert FirstBad(labels, 0, TooLongDomainNameLabel);
      Some(TooLongDomainNameLabel)
    else
      assert forall i :: 0 < i < |labels| ==> labels[i] == labels[1..][i - 1];
      FirstBadBehind(labels);
      FirstError(labels[1..])
  }

  lemma {:induction false} FirstBadBehind(labels: Labels)
    requires labels != [] && 1 <= |labels[0]| <= 63
    ensures forall i: nat, x :: FirstBad(labels[1..], i, x) ==> FirstBad(labels, i + 1, x)
  {
    assert forall i :: 0 < i < |labels| ==> labels[i] == labels[1..][i - 1];
  }

  ghost predicate FirstBad(labels: Labels, i: nat, x: EncodeError) {
    && i < |labels| && (forall j :: 0 <= j < i ==> 1 <= |labels[j]| <= 63)
    && ((labels[i] == [] && x == EmptyLabel) || (|labels[i]| > 63 && x == TooLongDomainNameLabel))
  }

  /** A name never points into itself: with nothing else in the map it is written plainly. */
  lemma {:induction false} EncodePlain(e: Env, w: Writer, s: Octets, dot: Octets)
    requires Offsets(w.table) && forall n :: n in w.table ==> |n.str| > |s + dot|
    ensures match FirstError(Split(s))
            case Some(x) => Encode(e, w, s, dot) == Err(x)
            case None => Encode(e, w, s, dot).Ok? && Encode(e, w, s, dot).value.out == w.out + Plain(Split(s))
    decreases |s|
  {
    hide Plain, FirstError, Split, Encode, WriteLabel;
    var i := FirstDot(s);
    var part := s[..i];
    NoHit(w.table, e.hash, s + dot);
    EncodeStep(e, w, s, dot);
    if 1 <= |part| <= MAX_LABEL {
      var w1 := WriteLabel(e, w, part, s + dot);
      if i == |s| {
        assert Split(s) == [part] + [];
        PlainBehind(w.out, part, []);
      } else {
        var tail := s[i + 1..];
        EncodePlain(e, w1, tail, dot);
        PlainBehind(w.out, part, Split(tail));
      }
    } else {
      BadStep(part, Split(s)[1..]);
      assert Split(s) == [part] + Split(s)[1..];
    }
  }

  lemma {:induction false} PlainBehind(out: Octets, part: Octets, labels: Labels)
    requires 1 <= |part| <= MAX_LABEL
    ensures FirstError([part] + labels) == FirstError(labels) && Plain([]) == [0] && FirstError([]).None?
    ensures FirstError(labels).None? ==> out + Plain([part] + labels) == out + [|part|] + part + Plain(labels)
  {
    hide Plain, FirstError;
    PlainStep(part, labels);
    if FirstError(labels).None? {
      assert out + ([|part|] + part + Plain(labels)) == out + [|part|] + part + Plain(labels);
    }
  }

  lemma {:induction false} PlainStep(part: Octets, labels: Labels)
    requires 1 <= |part| <= MAX_LABEL
    ensures FirstError([part] + labels) == FirstError(labels)
    ensures FirstError(labels).None? ==> Plain([part] + labels) == [|part|] + part + Plain(labels)
    ensures Plain([]) == [0] && FirstError([]).None?
  {
    assert ([part] + labels)[1..] == labels;
  }

  lemma {:induction false} BadStep(part: Octets, labels: Labels)
    requires part == [] || |part| > MAX_LABEL
    ensures FirstError([part] + labels) == Some(if part == [] then EmptyLabel else TooLongDomainNameLabel)
  {
  }

  /** One round of the loop over labels, when the map has no entry for the rest of the name. */
  lemma {:induction false} EncodeStep(e: Env, w: Writer, s: Octets, dot: Octets)
    requires Offsets(w.table) && Find(w.table, e.hash, s + dot).None?
    ensures var i := FirstDot(s);
            var part := s[..i];
            && Split(s) == (if i == |s| then [part] else [part] + Split(s[i + 1..]))
            && Encode(e, w, s, dot) ==
               if part == [] then Err(EmptyLabel)
               else if |part| > MAX_LABEL then Err(TooLongDomainNameLabel)
               else if i == |s| then Ok(WriteLabel(e, w, part, s + dot).(out := w.out + [|part|] + part + [0]))
               else Encode(e, WriteLabel(e, w, part, s + dot), s[i + 1..], dot)
  {
    hide WriteLabel, Find;
    assert s[..|s|] == s;
  }

  /** One turn of the encoder's loop. */
  lemma {:induction false} EncodeTurn(e: Env, w: Writer, s: Octets, dot: Octets)
    requires Offsets(w.table)
    ensures var i := FirstDot(s);
            var part := s[..i];
            Encode(e, w, s, dot) ==
            if part == [] then Err(EmptyLabel)
            else if |part| > MAX_LABEL then Err(TooLongDomainNameLabel)
            else
              match Find(w.table, e.hash, s + dot)
              case Some(offset) => Ok(w.(out := w.out + EncodeCompressionPtr(offset)))
              case None =>
                var w1 := WriteLabel(e, w, part, s + dot);
                if i == |s| then Ok(w1.(out := w1.out + [0])) else Encode(e, w1, s[i + 1..], dot)
  {
    hide WriteLabel, Find;
  }

  lemma {:induction false} LabelUnfolds(e: Env, w: Writer, part: Octets, remaining: Octets)
    requires Offsets(w.table) && 1 <= |part| <= MAX_LABEL
    ensures var table := if |w.out| <= MAX_POINTER && e.granted(|w.out|)
                         then Insert(w.table, MakeNode(e.hash, remaining, |w.out|)) else w.table;
            && WriteLabel(e, w, part, remaining) == Writer(w.out + [|part|] + part, table)
            && Offsets(table)
  {
  }

  lemma {:induction false} NoHit(t: seq<Node>, hash: Hash, s: Octets)
    requires forall n :: n in t ==> |n.str| > |s|
    ensures Find(t, hash, s).None?
  {
  }

  /** A single name: accepted exactly when it has at most 255 octets and every label 1 to 63,
      and then written without any pointer. */
  lemma {:induction false} SingleNameIsPlain(e: Env, w: Writer, name: Octets)
    requires w.table == []
    ensures var labels := SplitIntoLabels(name);
            match EncodeDomainName(e, w, name)
            case Ok(_) => |name| <= 255 && FirstError(labels).None?
            case Err(x) => if |name| > 255 then x == TooLongDomainName else FirstError(labels) == Some(x)
    ensures EncodeDomainName(e, w, name).Ok? ==>
              EncodeDomainName(e, w, name).value.out == w.out + Plain(SplitIntoLabels(name))
  {
    hide Encode, Split;
    if StripDot(name) != [] {
      EncodePlain(e, w, StripDot(name), if EndsWithDot(name) then [DOT] else []);
    }
  }
}
