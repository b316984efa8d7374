/** Whole observation streams: the writer, the reader loop, and what a truncated stream reads as. */
module Stream {
  import opened Words
  import opened Observation
  import opened Wire
  import opened Codec

  // ---- Encoded streams

  function EncodeAll(u: Utf8, records: seq<Record>): bytes {
    if records == [] then [] else EncodeRecord(u, records[0]) + EncodeAll(u, records[1..])
  }

  function EncodeHeader(u: Utf8, target: string): bytes {
    WORKER_MAGIC + (LeBytes(VERSION_2, 2) + EncodeString(u, target))
  }

  lemma {:induction false} EncodeAppend(u: Utf8, records: seq<Record>, r: Record)
    ensures EncodeAll(u, records + [r]) == EncodeAll(u, records) + EncodeRecord(u, r)
    decreases |records|
  {
    hide EncodeRecord;
    if records == [] {
      assert EncodeAll(u, [r]) == EncodeRecord(u, r) + EncodeAll(u, []);
    } else {
      assert (records + [r])[1..] == records[1..] + [r];
      EncodeAppend(u, records[1..], r);
    }
  }

  /** What is written before the string that does not fit. */
  function EncodeHead(u: Utf8, r: Record): bytes {
    [TagOf(r)] + (EncodeFields(FieldsOf(r)) +
      (if r.GapRecord? && !StringFits(u, r.gap.path) then [] else MiddleOf(u, r)))
  }

  lemma {:induction false} FieldsAppend(fs: seq<Field>, f: Field)
    ensures EncodeFields(fs + [f]) == EncodeFields(fs) + LeBytes(f.value, f.width)
    decreases |fs|
  {
    if fs == [] {
      assert EncodeFields([f]) == LeBytes(f.value, f.width) + EncodeFields([]);
    } else {
      assert (fs + [f])[1..] == fs[1..] + [f];
      FieldsAppend(fs[1..], f);
    }
  }

  /** The writing end of the stream. */
  class ObservationWriter {
    const utf8: Utf8
    var output: bytes

    constructor (utf8: Utf8)
      ensures this.utf8 == utf8 && output == []
    {
      this.utf8, output := utf8, [];
    }

    method Put(b: bytes)
      modifies this
      ensures output == old(output) + b
    {
      output := output + b;
    }

    method WriteString(s: string) returns (ok: bool)
      modifies this
      ensures ok <==> StringFits(utf8, s)
      ensures output == old(output) + if ok then EncodeString(utf8, s) else []
    {
      var b := utf8.encode(s);
      if |b| > U16_MAX {
        return false;
      }
      Put(LeBytes(|b|, 2));
      Put(b);
      return true;
    }

    method WriteFields(fs: seq<Field>)
      modifies this
      ensures output == old(output) + EncodeFields(fs)
    {
      for i := 0 to |fs|
        invariant output == old(output) + EncodeFields(fs[..i])
      {
        FieldsAppend(fs[..i], fs[i]);
        assert fs[..i + 1] == fs[..i] + [fs[i]];
        Put(LeBytes(fs[i].value, fs[i].width));
      }
      assert fs[..|fs|] == fs;
    }

    method WriteAllocation(alloc: Option<u64>)
      modifies this
      ensures output == old(output) + EncodeAllocation(alloc)
    {
      match alloc {
        case Some(a) =>
          Put([1]);
          Put(LeBytes(a, 8));
        case None =>
          Put([0]);
          Put(LeBytes(0, 8));
      }
    }

    method WriteIdentity(oid: Option<ObjectIdentity>)
      modifies this
      ensures output == old(output) + EncodeIdentity(oid)
    {
      match oid {
        case Some(id) =>
          Put([1]);
          Put(id.volumeGuid);
          Put(LeBytes(id.fileId, 16));
        case None =>
          Put([0]);
      }
    }

    method WriteLink(k: ValueKnowledge)
      modifies this
      ensures output == old(output) + EncodeLink(k)
    {
      Put([LinkTag(k)]);
      Put(LeBytes(if k.Known? then k.value else 0, 4));
    }

    /** The parts between the fixed fields and the last string; false if the path of a gap does not fit. */
    method WriteMiddle(r: Record) returns (ok: bool)
      modifies this
      ensures ok <==> (r.GapRecord? ==> StringFits(utf8, r.gap.path))
      ensures output == old(output) + if ok then MiddleOf(utf8, r) else []
    {
      hide EncodeString, EncodeIdentity, EncodeLink, EncodeAllocation, LeBytes, StringFits;
      ok := true;
      match r {
        case DirectoryRecord(_, _, _, _, oid, alloc, link) =>
          WriteAllocation(alloc);
          WriteIdentity(oid);
          WriteLink(link);
        case FileRecord(_, _, _, _, oid, _, link, _) =>
          WriteIdentity(oid);
          WriteLink(link);
        case SpecialRecord(_, _, _, _, oid) =>
          WriteIdentity(oid);
        case StreamRecord(_, _, _, alloc) =>
          if alloc.Some? {
            Put(LeBytes(alloc.value, 8));
          }
        case GapRecord(gap) =>
          ok := WriteString(gap.path);
        case TerminalRecord(_) =>
      }
    }

    /** A record whose strings fit is appended whole; otherwise the stream ends inside it. */
    method WriteRecord(r: Record) returns (ok: bool)
      modifies this
      ensures ok <==> Writable(utf8, r)
      ensures output == old(output) + if ok then EncodeRecord(utf8, r) else EncodeHead(utf8, r)
    {
      hide MiddleOf, EncodeFields, FieldsOf, TagOf, EncodeString, StringFits, EncodeRecord, EncodeHead;
      Regroup(utf8, output, r);
      Put([TagOf(r)]);
      WriteFields(FieldsOf(r));
      ok := WriteMiddle(r);
      if ok {
        match NameOf(r) {
          case Some(name) => ok := WriteString(name);
          case None =>
        }
      }
    }
  }

  /** The parts of a record, appended one after the other. */
  lemma Regroup(u: Utf8, o: bytes, r: Record)
    ensures var whole := o + [TagOf(r)] + EncodeFields(FieldsOf(r)) + MiddleOf(u, r);
      && o + EncodeRecord(u, r) == whole + EncodeName(u, r)
      && (NameOf(r).None? ==> o + EncodeRecord(u, r) == whole)
      && (r.GapRecord? && !StringFits(u, r.gap.path) ==> o + EncodeHead(u, r) == o + [TagOf(r)] + EncodeFields(FieldsOf(r)) + [])
      && (!(r.GapRecord? && !StringFits(u, r.gap.path)) ==> o + EncodeHead(u, r) == whole == whole + [])
  {
    hide MiddleOf, EncodeFields, FieldsOf, TagOf, EncodeString, StringFits;
    var t, f, m, n := [TagOf(r)], EncodeFields(FieldsOf(r)), MiddleOf(u, r), EncodeName(u, r);
    assert o + (t + (f + (m + n))) == o + t + f + m + n;
    assert o + (t + (f + m)) == o + t + f + m;
    assert o + (t + (f + [])) == o + t + f;
  }

  // ---- Reading streams

  function ReadHeader(u: Utf8, input: bytes): (r: Read<(string, u16)>)
    ensures r.Got? ==> |r.rest| <= |input|
  {
    match Take(input, 4)
    case Bad(e) => Bad(e)
    case Got(magic, r1) =>
      if magic != WORKER_MAGIC then Bad(InvalidMagic)
      else
        match Take(r1, 2)
        case Bad(e) => Bad(e)
        case Got(v, r2) =>
          WordSizes();
          var version := LeValue(v);
          if version != VERSION_1 && version != VERSION_2 then Bad(UnsupportedVersion(version))
          else
            match ReadString(u, r2)
            case Bad(e) => Bad(e)
            case Got(target, rest) => Got((target, version), rest)
  }

  lemma RecordConsumes(u: Utf8, version: u16, input: bytes)
    ensures var r := ReadRecord(u, version, input); r.Got? && r.value.Some? ==> |r.rest| < |input|
  {
  }

  /** All records, and the error that ended the stream, if any. */
  function ReadAll(u: Utf8, version: u16, input: bytes): (seq<Record>, Option<DecodeError>)
    decreases |input|
  {
    RecordConsumes(u, version, input);
    match ReadRecord(u, version, input)
    case Bad(e) => ([], Some(e))
    case Got(None, _) => ([], None)
    case Got(Some(r), rest) =>
      var (records, end) := ReadAll(u, version, rest);
      ([r] + records, end)
  }

  datatype StreamRead = Unopened(error: DecodeError) | Opened(target: string, version: u16, records: seq<Record>, end: Option<DecodeError>)

  function ReadStream(u: Utf8, input: bytes): StreamRead {
    match ReadHeader(u, input)
    case Bad(e) => Unopened(e)
    case Got(h, rest) =>
      var (records, end) := ReadAll(u, h.1, rest);
      Opened(h.0, h.1, records, end)
  }

  lemma {:induction false} ReadAllPrepend(u: Utf8, version: u16, input: bytes, rest: bytes, r: Record)
    requires ReadRecord(u, version, input) == Got(Some(r), rest)
    ensures ReadAll(u, version, input) == ([r] + ReadAll(u, version, rest).0, ReadAll(u, version, rest).1)
  {
  }

  /** The reader loop: records are taken one at a time until the input ends, cleanly or not. */
  method Decode(u: Utf8, input: bytes) returns (read: StreamRead)
    ensures read == ReadStream(u, input)
  {
    hide ReadRecord, ReadHeader;
    var header := ReadHeader(u, input);
    if header.Bad? {
      return Unopened(header.error);
    }
    var (target, version) := header.value;
    var rest, records := header.rest, [];
    while true
      invariant ReadAll(u, version, header.rest).0 == records + ReadAll(u, version, rest).0
      invariant ReadAll(u, version, header.rest).1 == ReadAll(u, version, rest).1
      decreases |rest|
    {
      RecordConsumes(u, version, rest);
      var next := ReadRecord(u, version, rest);
      match next {
        case Bad(e) => return Opened(target, version, records, Some(e));
        case Got(value, after) =>
          if value.None? {
            return Opened(target, version, records, None);
          }
          records := records + [value.value];
          rest := after;
      }
    }
  }

  // ---- Round trip

  lemma {:induction false} AllRoundTrip(u: Utf8, records: seq<Record>)
    requires Lawful(u) && forall i :: 0 <= i < |records| ==> Writable(u, records[i])
    ensures ReadAll(u, VERSION_2, EncodeAll(u, records)) == (records, None)
    decreases |records|
  {
    hide EncodeRecord, ReadBody;
    if records == [] {
      assert EncodeAll(u, records) == [];
    } else {
      var rest := EncodeAll(u, records[1..]);
      RecordRoundTrip(u, records[0], rest);
      AllRoundTrip(u, records[1..]);
      ReadAllPrepend(u, VERSION_2, EncodeAll(u, records), rest, records[0]);
      assert [records[0]] + records[1..] == records;
    }
  }

  lemma HeaderRoundTrip(u: Utf8, target: string, rest: bytes)
    requires Lawful(u) && StringFits(u, target)
    ensures ReadHeader(u, EncodeHeader(u, target) + rest) == Got((target, VERSION_2), rest)
  {
    WordSizes();
    LeRoundTrip(VERSION_2, 2);
    var name := EncodeString(u, target) + rest;
    var version := LeBytes(VERSION_2, 2) + name;
    assert EncodeHeader(u, target) + rest == WORKER_MAGIC + version;
    TakeFront(WORKER_MAGIC, version);
    TakeFront(LeBytes(VERSION_2, 2), name);
    StringRoundTrip(u, target, rest);
  }

  lemma StreamRoundTrip(u: Utf8, target: string, records: seq<Record>)
    requires Lawful(u) && StringFits(u, target) && forall i :: 0 <= i < |records| ==> Writable(u, records[i])
    ensures ReadStream(u, EncodeHeader(u, target) + EncodeAll(u, records)) == Opened(target, VERSION_2, records, None)
  {
    HeaderRoundTrip(u, target, EncodeAll(u, records));
    AllRoundTrip(u, records);
  }

  // ---- Truncation

  lemma HeaderCuts(u: Utf8, input: bytes, n: nat)
    requires n <= |input|
    ensures Cuts(input, n, ReadHeader(u, input), ReadHeader(u, input[..n]))
  {
    hide ReadString;
    TakeCuts(input, 4, n);
    if n >= 4 {
      TakeCuts(input[4..], 2, n - 4);
      if n >= 6 && |input| >= 6 {
        StringCuts(u, input[4..][2..], n - 6);
      }
    }
  }

  /** Fewer records than written, the same as far as they go, and a clean or a premature end. */
  predicate IsCutOf(got: seq<Record>, end: Option<DecodeError>, records: seq<Record>) {
    |got| < |records| && got <= records && (end == None || end == Some(PrematureEof))
  }

  /** A cut stream of records reads as fewer records, and ends cleanly or prematurely, never in another error. */
  lemma {:induction false} AllCut(u: Utf8, records: seq<Record>, n: nat)
    requires Lawful(u) && (forall i :: 0 <= i < |records| ==> Writable(u, records[i])) && n < |EncodeAll(u, records)|
    ensures IsCutOf(ReadAll(u, VERSION_2, EncodeAll(u, records)[..n]).0, ReadAll(u, VERSION_2, EncodeAll(u, records)[..n]).1, records)
    decreases |records|
  {
    hide EncodeRecord, ReadBody;
    var input := EncodeAll(u, records);
    if n > 0 {
      var first, rest := EncodeRecord(u, records[0]), EncodeAll(u, records[1..]);
      RecordRoundTrip(u, records[0], rest);
      RecordCuts(u, VERSION_2, input, n);
      if n >= |first| {
        assert input[..n] == first + rest[..n - |first|];
        AllCut(u, records[1..], n - |first|);
        ReadAllPrepend(u, VERSION_2, input[..n], rest[..n - |first|], records[0]);
      }
    }
  }

  /** Every strict prefix of a written stream: no header, or fewer records and a clean or premature end. */
  lemma StreamCut(u: Utf8, target: string, records: seq<Record>, n: nat)
    requires Lawful(u) && StringFits(u, target) && (forall i :: 0 <= i < |records| ==> Writable(u, records[i]))
    requires n < |EncodeHeader(u, target) + EncodeAll(u, records)|
    ensures var read := ReadStream(u, (EncodeHeader(u, target) + EncodeAll(u, records))[..n]);
      if read.Unopened? then read.error == PrematureEof
      else read.target == target && read.version == VERSION_2 && IsCutOf(read.records, read.end, records)
  {
    hide EncodeHeader, EncodeAll, ReadHeader, ReadAll;
    var header, body := EncodeHeader(u, target), EncodeAll(u, records);
    HeaderRoundTrip(u, target, body);
    HeaderCuts(u, header + body, n);
    if n >= |header| {
      assert (header + body)[..n] == header + body[..n - |header|];
      AllCut(u, records, n - |header|);
    }
  }

  lemma HeadNotEmpty(u: Utf8, r: Record)
    ensures EncodeHead(u, r) != []
  {
  }

  /** A record that could not be written in full makes the stream unreadable from there on. */
  lemma HeadIsPremature(u: Utf8, r: Record)
    requires Lawful(u) && !Writable(u, r)
    ensures ReadRecord(u, VERSION_2, EncodeHead(u, r)) == Bad(PrematureEof)
  {
    hide EncodeRecord, EncodeHead, ReadRecord, Shortened, StringFits, Writable;
    var r' := Shortened(u, r);
    RecordRoundTrip(u, r', []);
    var whole := EncodeRecord(u, r') + [];
    HeadNotEmpty(u, r);
    RecordCuts(u, VERSION_2, whole, |EncodeHead(u, r)|);
    assert whole[..|EncodeHead(u, r)|] == EncodeHead(u, r);
  }

  /** So the reader sees the records before it, and a premature end. */
  lemma {:induction false} AllThenHead(u: Utf8, records: seq<Record>, r: Record)
    requires Lawful(u) && (forall i :: 0 <= i < |records| ==> Writable(u, records[i])) && !Writable(u, r)
    ensures ReadAll(u, VERSION_2, EncodeAll(u, records) + EncodeHead(u, r)) == (records, Some(PrematureEof))
    decreases |records|
  {
    hide EncodeRecord, EncodeHead, ReadRecord, Writable;
    if records == [] {
      HeadIsPremature(u, r);
      assert EncodeAll(u, records) + EncodeHead(u, r) == EncodeHead(u, r);
    } else {
      var input, rest := EncodeAll(u, records) + EncodeHead(u, r), EncodeAll(u, records[1..]) + EncodeHead(u, r);
      assert input == EncodeRecord(u, records[0]) + rest;
      RecordRoundTrip(u, records[0], rest);
      AllThenHead(u, records[1..], r);
      ReadAllPrepend(u, VERSION_2, input, rest, records[0]);
      assert [records[0]] + records[1..] == records;
    }
  }

  lemma StreamStops(u: Utf8, target: string, records: seq<Record>, r: Record)
    requires Lawful(u) && StringFits(u, target) && (forall i :: 0 <= i < |records| ==> Writable(u, records[i])) && !Writable(u, r)
    ensures ReadStream(u, EncodeHeader(u, target) + (EncodeAll(u, records) + EncodeHead(u, r)))
         == Opened(target, VERSION_2, records, Some(PrematureEof))
  {
    hide EncodeHeader, EncodeAll, EncodeHead, ReadHeader, ReadAll, Writable, StringFits;
    HeaderRoundTrip(u, target, EncodeAll(u, records) + EncodeHead(u, r));
    AllThenHead(u, records, r);
  }

  /** What is written before a target that does not fit. */
  function EncodeStart(): bytes {
    WORKER_MAGIC + LeBytes(VERSION_2, 2)
  }

  lemma StartIsPremature(u: Utf8)
    ensures ReadStream(u, EncodeStart()) == Unopened(PrematureEof)
  {
    WordSizes();
    LeRoundTrip(VERSION_2, 2);
    TakeFront(WORKER_MAGIC, LeBytes(VERSION_2, 2));
    assert LeBytes(VERSION_2, 2) + [] == LeBytes(VERSION_2, 2);
    TakeFront(LeBytes(VERSION_2, 2), []);
  }

  /** The record with the offending string emptied. */
  function Shortened(u: Utf8, r: Record): (r': Record)
    requires Lawful(u) && !Writable(u, r)
    ensures Writable(u, r')
    ensures FieldsOf(r') == FieldsOf(r) && TagOf(r') == TagOf(r)
    ensures r.GapRecord? <==> r'.GapRecord?
    ensures EncodeHead(u, r) < EncodeRecord(u, r')
  {
    EmptyText(u);
    var s := match r
      case DirectoryRecord(id, parentId, _, meta, oid, alloc, link) => DirectoryRecord(id, parentId, "", meta, oid, alloc, link)
      case FileRecord(id, parentId, _, meta, oid, alloc, link, logical) => FileRecord(id, parentId, "", meta, oid, alloc, link, logical)
      case SpecialRecord(id, parentId, _, meta, oid) => SpecialRecord(id, parentId, "", meta, oid)
      case StreamRecord(parentId, _, logical, alloc) => StreamRecord(parentId, "", logical, alloc)
      case GapRecord(gap) => GapRecord(Gap(if StringFits(u, gap.path) then gap.path else "", gap.errorCode, ""))
      case TerminalRecord(_) => r;
    s
  }
}
