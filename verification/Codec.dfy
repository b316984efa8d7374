/** The binary observation stream: header, records, and the reader that consumes them. */
module Codec {
  import opened Words
  import opened Observation
  import opened Wire

  /** The text encoding of names and paths; reading what was written gives it back, and an ASCII character is one byte
      (section 3 of RFC 3629). */
  datatype Utf8 = Utf8(encode: string -> bytes, decode: bytes -> Option<string>)

  ghost predicate Lawful(u: Utf8) {
    && (forall s: string :: u.decode(u.encode(s)) == Some(s))
    && (forall s: string :: IsAscii(s) ==> u.encode(s) == AsciiBytes(s))
  }

  predicate IsAscii(s: string) {
    forall i :: 0 <= i < |s| ==> s[i] as int < 0x80
  }

  function AsciiBytes(s: string): (r: bytes)
    requires IsAscii(s)
    ensures |r| == |s|
  {
    seq(|s|, i requires 0 <= i < |s| => s[i] as int)
  }

  /** No text takes no bytes. */
  lemma EmptyText(u: Utf8)
    requires Lawful(u)
    ensures u.encode("") == []
  {
    assert u.encode("") == AsciiBytes("");
  }

  const WORKER_MAGIC: bytes := [0x50, 0x54, 0x57, 0x4F]
  const VERSION_1: u16 := 1
  const VERSION_2: u16 := 2

  // ---- Strings, identities, link knowledge

  predicate StringFits(u: Utf8, s: string) {
    |u.encode(s)| <= U16_MAX
  }

  function EncodeString(u: Utf8, s: string): bytes {
    LeBytes(|u.encode(s)|, 2) + u.encode(s)
  }

  function ReadString(u: Utf8, input: bytes): (r: Read<string>)
    ensures r.Got? ==> |r.rest| <= |input|
  {
    match Take(input, 2)
    case Bad(e) => Bad(e)
    case Got(len, r) =>
      match Take(r, LeValue(len))
      case Bad(e) => Bad(e)
      case Got(buf, rest) =>
        match u.decode(buf)
        case None => Bad(InvalidUtf8)
        case Some(s) => Got(s, rest)
  }

  lemma StringRoundTrip(u: Utf8, s: string, rest: bytes)
    requires Lawful(u) && StringFits(u, s)
    ensures ReadString(u, EncodeString(u, s) + rest) == Got(s, rest)
  {
    WordSizes();
    var len, body := LeBytes(|u.encode(s)|, 2), u.encode(s);
    LeRoundTrip(|body|, 2);
    assert EncodeString(u, s) + rest == len + (body + rest);
    TakeFront(len, body + rest);
    TakeFront(body, rest);
  }

  lemma StringCuts(u: Utf8, input: bytes, n: nat)
    requires n <= |input|
    ensures Cuts(input, n, ReadString(u, input), ReadString(u, input[..n]))
  {
    TakeCuts(input, 2, n);
    if n >= 2 {
      TakeCuts(input[2..], LeValue(input[..2]), n - 2);
    }
  }

  function EncodeIdentity(oid: Option<ObjectIdentity>): bytes {
    match oid
    case None => [0]
    case Some(id) => [1] + (id.volumeGuid + LeBytes(id.fileId, 16))
  }

  function ReadIdentity(input: bytes): (r: Read<Option<ObjectIdentity>>)
    ensures r.Got? ==> |r.rest| <= |input|
  {
    match Take(input, 1)
    case Bad(e) => Bad(e)
    case Got(flag, r) =>
      if flag[0] == 0 then Got(None, r)
      else if flag[0] == 1 then
        match Take(r, 16)
        case Bad(e) => Bad(e)
        case Got(guid, r2) =>
          match Take(r2, 16)
          case Bad(e) => Bad(e)
          case Got(id, rest) =>
            WordSizes();
            Got(Some(ObjectIdentity(guid, LeValue(id))), rest)
      else Bad(InvalidBooleanTag(flag[0]))
  }

  lemma IdentityRoundTrip(oid: Option<ObjectIdentity>, rest: bytes)
    ensures ReadIdentity(EncodeIdentity(oid) + rest) == Got(oid, rest)
  {
    match oid {
      case None => TakeFront([0], rest);
      case Some(id) =>
        WordSizes();
        LeRoundTrip(id.fileId, 16);
        var tail := LeBytes(id.fileId, 16) + rest;
        assert EncodeIdentity(oid) + rest == [1] + (id.volumeGuid + tail);
        TakeFront([1], id.volumeGuid + tail);
        TakeFront(id.volumeGuid, tail);
        TakeFront(LeBytes(id.fileId, 16), rest);
    }
  }

  lemma IdentityCuts(input: bytes, n: nat)
    requires n <= |input|
    ensures Cuts(input, n, ReadIdentity(input), ReadIdentity(input[..n]))
  {
    TakeCuts(input, 1, n);
    if n >= 1 {
      TakeCuts(input[1..], 16, n - 1);
      if n >= 17 {
        TakeCuts(input[1..][16..], 16, n - 17);
      }
    }
  }

  function LinkTag(k: ValueKnowledge): u8 {
    match k
    case NotObserved => 0
    case Known(_) => 1
    case Unavailable => 2
    case NotApplicable => 3
  }

  function EncodeLink(k: ValueKnowledge): bytes {
    [LinkTag(k)] + LeBytes(if k.Known? then k.value else 0, 4)
  }

  function ReadLink(input: bytes): (r: Read<ValueKnowledge>)
    ensures r.Got? ==> |r.rest| <= |input|
  {
    match Take(input, 1)
    case Bad(e) => Bad(e)
    case Got(tag, r) =>
      match Take(r, 4)
      case Bad(e) => Bad(e)
      case Got(val, rest) =>
        WordSizes();
        match tag[0]
        case 0 => Got(NotObserved, rest)
        case 1 => Got(Known(LeValue(val)), rest)
        case 2 => Got(Unavailable, rest)
        case 3 => Got(NotApplicable, rest)
        case other => Bad(InvalidValueKnowledgeTag(other))
  }

  lemma LinkRoundTrip(k: ValueKnowledge, rest: bytes)
    ensures ReadLink(EncodeLink(k) + rest) == Got(k, rest)
  {
    WordSizes();
    var v := LeBytes(if k.Known? then k.value else 0, 4);
    LeRoundTrip(if k.Known? then k.value else 0, 4);
    assert EncodeLink(k) + rest == [LinkTag(k)] + (v + rest);
    TakeFront([LinkTag(k)], v + rest);
    TakeFront(v, rest);
  }

  lemma LinkCuts(input: bytes, n: nat)
    requires n <= |input|
    ensures Cuts(input, n, ReadLink(input), ReadLink(input[..n]))
  {
    TakeCuts(input, 1, n);
    if n >= 1 {
      TakeCuts(input[1..], 4, n - 1);
    }
  }

  /** A flag byte and always eight bytes. */
  function EncodeAllocation(a: Option<u64>): bytes {
    [if a.Some? then 1 else 0] + LeBytes(a.GetOr(0), 8)
  }

  function ReadAllocation(input: bytes): (r: Read<Option<u64>>)
    ensures r.Got? ==> |r.rest| <= |input|
  {
    match Take(input, 1)
    case Bad(e) => Bad(e)
    case Got(flag, r) =>
      match Take(r, 8)
      case Bad(e) => Bad(e)
      case Got(raw, rest) =>
        WordSizes();
        match flag[0]
        case 0 => Got(None, rest)
        case 1 => Got(Some(LeValue(raw)), rest)
        case other => Bad(InvalidBooleanTag(other))
  }

  lemma AllocationRoundTrip(a: Option<u64>, rest: bytes)
    ensures ReadAllocation(EncodeAllocation(a) + rest) == Got(a, rest)
  {
    WordSizes();
    var flag, raw := [if a.Some? then 1 else 0], LeBytes(a.GetOr(0), 8);
    LeRoundTrip(a.GetOr(0), 8);
    assert EncodeAllocation(a) + rest == flag + (raw + rest);
    TakeFront(flag, raw + rest);
    TakeFront(raw, rest);
  }

  lemma AllocationCuts(input: bytes, n: nat)
    requires n <= |input|
    ensures Cuts(input, n, ReadAllocation(input), ReadAllocation(input[..n]))
  {
    TakeCuts(input, 1, n);
    if n >= 1 {
      TakeCuts(input[1..], 8, n - 1);
    }
  }

  // ---- Records

  const DIRECTORY_WIDTHS: seq<nat> := [4, 4, 4, 4, 8, 8, 8]
  const FILE_WIDTHS: seq<nat> := [4, 4, 8, 1, 8, 4, 4, 8, 8, 8]
  const STREAM_WIDTHS: seq<nat> := [4, 8, 1]
  const TERMINAL_WIDTHS: seq<nat> := [1, 8, 8, 8, 8, 4, 8]

  function TagOf(r: Record): u8 {
    match r
    case DirectoryRecord(_, _, _, _, _, _, _) => 1
    case FileRecord(_, _, _, _, _, _, _, _) => 2
    case SpecialRecord(_, _, _, _, _) => 3
    case GapRecord(_) => 4
    case TerminalRecord(_) => 5
    case StreamRecord(_, _, _, _) => 6
  }

  function OutcomeTag(o: RunOutcome): u8 {
    match o
    case Finished => 0
    case Cancelled => 1
    case Failed => 2
  }

  function Flag(present: bool): nat {
    if present then 1 else 0
  }

  /** The fixed buffer of a record. */
  function FieldsOf(r: Record): seq<Field> {
    match r
    case DirectoryRecord(id, parentId, _, m, _, _, _) =>
      [Field(id, 4), Field(parentId, 4), Field(m.fileAttributes, 4), Field(m.reparseTag, 4),
       Field(m.creationTimeUtcMs, 8), Field(m.lastWriteTimeUtcMs, 8), Field(m.lastAccessTimeUtcMs, 8)]
    case FileRecord(id, parentId, _, m, _, alloc, _, logical) =>
      [Field(id, 4), Field(parentId, 4), Field(logical, 8), Field(Flag(alloc.Some?), 1), Field(alloc.GetOr(0), 8),
       Field(m.fileAttributes, 4), Field(m.reparseTag, 4),
       Field(m.creationTimeUtcMs, 8), Field(m.lastWriteTimeUtcMs, 8), Field(m.lastAccessTimeUtcMs, 8)]
    case SpecialRecord(id, parentId, _, m, _) =>
      [Field(id, 4), Field(parentId, 4), Field(m.fileAttributes, 4), Field(m.reparseTag, 4),
       Field(m.creationTimeUtcMs, 8), Field(m.lastWriteTimeUtcMs, 8), Field(m.lastAccessTimeUtcMs, 8)]
    case StreamRecord(parentId, _, logical, alloc) => [Field(parentId, 4), Field(logical, 8), Field(Flag(alloc.Some?), 1)]
    case GapRecord(gap) => [Field(gap.errorCode, 4)]
    case TerminalRecord(t) =>
      [Field(OutcomeTag(t.outcome), 1), Field(t.totalDirectories, 8), Field(t.totalFiles, 8), Field(t.totalLogicalBytes, 8),
       Field(t.totalAllocatedBytes, 8), Field(t.coverageGapCount, 4), Field(t.durationMs, 8)]
  }

  /** What follows the fixed buffer, up to the last string. */
  function MiddleOf(u: Utf8, r: Record): bytes {
    match r
    case DirectoryRecord(_, _, _, _, oid, alloc, link) => EncodeAllocation(alloc) + (EncodeIdentity(oid) + EncodeLink(link))
    case FileRecord(_, _, _, _, oid, _, link, _) => EncodeIdentity(oid) + EncodeLink(link)
    case SpecialRecord(_, _, _, _, oid) => EncodeIdentity(oid)
    case StreamRecord(_, _, _, alloc) => if alloc.Some? then LeBytes(alloc.value, 8) else []
    case GapRecord(gap) => EncodeString(u, gap.path)
    case TerminalRecord(_) => []
  }

  /** The last string of a record. */
  function NameOf(r: Record): Option<string> {
    match r
    case DirectoryRecord(_, _, name, _, _, _, _) => Some(name)
    case FileRecord(_, _, name, _, _, _, _, _) => Some(name)
    case SpecialRecord(_, _, name, _, _) => Some(name)
    case StreamRecord(_, name, _, _) => Some(name)
    case GapRecord(gap) => Some(gap.errorMessage)
    case TerminalRecord(_) => None
  }

  function EncodeName(u: Utf8, r: Record): bytes {
    match NameOf(r)
    case None => []
    case Some(s) => EncodeString(u, s)
  }

  function EncodeRecord(u: Utf8, r: Record): bytes {
    [TagOf(r)] + (EncodeFields(FieldsOf(r)) + (MiddleOf(u, r) + EncodeName(u, r)))
  }

  /** The strings of a record fit their 16-bit lengths. */
  predicate Writable(u: Utf8, r: Record) {
    && (NameOf(r).Some? ==> StringFits(u, NameOf(r).value))
    && (r.GapRecord? ==> StringFits(u, r.gap.path))
  }

  lemma FieldsFit(r: Record)
    ensures Fits(FieldsOf(r))
  {
    WordSizes();
  }

  // ---- Reading one record

  /** The largest value of a field of the given width. */
  function Largest(width: nat): nat {
    if width == 1 then U8_MAX else if width == 4 then U32_MAX else if width == 8 then U64_MAX else 0
  }

  lemma LargestBound(width: nat, v: nat)
    requires (width == 1 || width == 4 || width == 8) && v < Pow256(width)
    ensures v <= Largest(width)
  {
    WordSizes();
  }

  lemma FieldsBounded(widths: seq<nat>, v: seq<nat>)
    requires |v| == |widths| && forall i :: 0 <= i < |widths| ==> v[i] < Pow256(widths[i]) && (widths[i] == 1 || widths[i] == 4 || widths[i] == 8)
    ensures forall i :: 0 <= i < |widths| ==> v[i] <= Largest(widths[i])
  {
    forall i | 0 <= i < |widths|
      ensures v[i] <= Largest(widths[i])
    {
      LargestBound(widths[i], v[i]);
    }
  }

  function ReadFixed(widths: seq<nat>, input: bytes): (r: Read<seq<nat>>)
    requires forall i :: 0 <= i < |widths| ==> widths[i] == 1 || widths[i] == 4 || widths[i] == 8
    ensures r.Got? ==> |r.rest| <= |input|
    ensures r.Got? ==> |r.value| == |widths| && forall i :: 0 <= i < |widths| ==> r.value[i] <= Largest(widths[i])
  {
    match Take(input, Size(widths))
    case Bad(e) => Bad(e)
    case Got(b, rest) =>
      FieldsBounded(widths, DecodeFields(widths, b));
      Got(DecodeFields(widths, b), rest)
  }

  lemma FixedCuts(widths: seq<nat>, input: bytes, n: nat)
    requires n <= |input| && forall i :: 0 <= i < |widths| ==> widths[i] == 1 || widths[i] == 4 || widths[i] == 8
    ensures Cuts(input, n, ReadFixed(widths, input), ReadFixed(widths, input[..n]))
  {
    TakeCuts(input, Size(widths), n);
  }

  /** The fixed buffer of a written record, as read back. */
  lemma FixedRoundTrip(r: Record, rest: bytes)
    ensures ReadFixed(Widths(FieldsOf(r)), EncodeFields(FieldsOf(r)) + rest) == Got(Values(FieldsOf(r)), rest)
  {
    FieldsFit(r);
    FieldsRoundTrip(FieldsOf(r));
    TakeFront(EncodeFields(FieldsOf(r)), rest);
  }

  /** The fixed fields of a directory or special record. */
  predicate EntryFits(v: seq<nat>) {
    && |v| == |DIRECTORY_WIDTHS| && v[0] <= U32_MAX && v[1] <= U32_MAX && v[2] <= U32_MAX && v[3] <= U32_MAX
    && v[4] <= U64_MAX && v[5] <= U64_MAX && v[6] <= U64_MAX
  }

  /** The fixed fields of a file record. */
  predicate FileFits(v: seq<nat>) {
    && |v| == |FILE_WIDTHS| && v[0] <= U32_MAX && v[1] <= U32_MAX && v[2] <= U64_MAX && v[3] <= U8_MAX && v[4] <= U64_MAX
    && v[5] <= U32_MAX && v[6] <= U32_MAX && v[7] <= U64_MAX && v[8] <= U64_MAX && v[9] <= U64_MAX
  }

  function ReadEntryFields(input: bytes): (r: Read<seq<nat>>)
    ensures r.Got? ==> |r.rest| <= |input| && EntryFits(r.value)
  {
    ReadFixed(DIRECTORY_WIDTHS, input)
  }

  function ReadFileFields(input: bytes): (r: Read<seq<nat>>)
    ensures r.Got? ==> |r.rest| <= |input| && FileFits(r.value)
  {
    ReadFixed(FILE_WIDTHS, input)
  }

  lemma StreamBounds(v: seq<nat>)
    requires |v| == |STREAM_WIDTHS| && forall i :: 0 <= i < |v| ==> v[i] <= Largest(STREAM_WIDTHS[i])
    ensures v[0] <= U32_MAX && v[1] <= U64_MAX && v[2] <= U8_MAX
  {
  }

  lemma TerminalBounds(v: seq<nat>)
    requires |v| == |TERMINAL_WIDTHS| && forall i :: 0 <= i < |v| ==> v[i] <= Largest(TERMINAL_WIDTHS[i])
    ensures v[0] <= U8_MAX && v[1] <= U64_MAX && v[2] <= U64_MAX && v[3] <= U64_MAX && v[4] <= U64_MAX && v[5] <= U32_MAX && v[6] <= U64_MAX
  {
  }

  function MetaOf(v: seq<nat>, i: nat): Meta
    requires i + 5 <= |v| && v[i] <= U32_MAX && v[i + 1] <= U32_MAX && v[i + 2] <= U64_MAX && v[i + 3] <= U64_MAX && v[i + 4] <= U64_MAX
  {
    Meta(v[i], v[i + 1], v[i + 2], v[i + 3], v[i + 4])
  }

  /** Allocation, identity and link count of a directory: absent from version 1 streams. */
  function ReadDirectoryEvidence(version: u16, input: bytes): (r: Read<(Option<u64>, Option<ObjectIdentity>, ValueKnowledge)>)
    ensures r.Got? ==> |r.rest| <= |input|
  {
    if version == VERSION_1 then Got((None, None, NotObserved), input)
    else
      match ReadAllocation(input)
      case Bad(e) => Bad(e)
      case Got(alloc, r) =>
        match ReadFileEvidence(version, r)
        case Bad(e) => Bad(e)
        case Got(evidence, rest) => Got((alloc, evidence.0, evidence.1), rest)
  }

  function ReadFileEvidence(version: u16, input: bytes): (r: Read<(Option<ObjectIdentity>, ValueKnowledge)>)
    ensures r.Got? ==> |r.rest| <= |input|
  {
    if version == VERSION_1 then Got((None, NotObserved), input)
    else
      match ReadIdentity(input)
      case Bad(e) => Bad(e)
      case Got(oid, r) =>
        match ReadLink(r)
        case Bad(e) => Bad(e)
        case Got(link, rest) => Got((oid, link), rest)
  }

  function ReadSpecialEvidence(version: u16, input: bytes): (r: Read<Option<ObjectIdentity>>)
    ensures r.Got? ==> |r.rest| <= |input|
  {
    if version == VERSION_1 then Got(None, input) else ReadIdentity(input)
  }

  function ReadDirectory(u: Utf8, version: u16, input: bytes): (r: Read<Record>)
    ensures r.Got? ==> |r.rest| <= |input|
  {
    match ReadEntryFields(input)
    case Bad(e) => Bad(e)
    case Got(v, r) =>
      match ReadDirectoryEvidence(version, r)
      case Bad(e) => Bad(e)
      case Got(evidence, r2) =>
        match ReadString(u, r2)
        case Bad(e) => Bad(e)
        case Got(name, rest) =>
          Got(DirectoryRecord(v[0], v[1], name, MetaOf(v, 2), evidence.1, evidence.0, evidence.2), rest)
  }

  function FileOf(v: seq<nat>, name: string, oid: Option<ObjectIdentity>, link: ValueKnowledge): Record
    requires FileFits(v)
  {
    FileRecord(v[0], v[1], name, MetaOf(v, 5), oid, if v[3] == 1 then Some(v[4]) else None, link, v[2])
  }

  function ReadFileRecord(u: Utf8, version: u16, input: bytes): (r: Read<Record>)
    ensures r.Got? ==> |r.rest| <= |input|
  {
    match ReadFileFields(input)
    case Bad(e) => Bad(e)
    case Got(v, r) =>
      if v[3] > 1 then Bad(InvalidBooleanTag(v[3]))
      else
        match ReadFileEvidence(version, r)
        case Bad(e) => Bad(e)
        case Got(evidence, r2) =>
          match ReadString(u, r2)
          case Bad(e) => Bad(e)
          case Got(name, rest) =>
            Got(FileOf(v, name, evidence.0, evidence.1), rest)
  }

  function ReadSpecial(u: Utf8, version: u16, input: bytes): (r: Read<Record>)
    ensures r.Got? ==> |r.rest| <= |input|
  {
    match ReadEntryFields(input)
    case Bad(e) => Bad(e)
    case Got(v, r) =>
      match ReadSpecialEvidence(version, r)
      case Bad(e) => Bad(e)
      case Got(oid, r2) =>
        match ReadString(u, r2)
        case Bad(e) => Bad(e)
        case Got(name, rest) =>
          Got(SpecialRecord(v[0], v[1], name, MetaOf(v, 2), oid), rest)
  }

  function ReadGap(u: Utf8, input: bytes): (r: Read<Record>)
    ensures r.Got? ==> |r.rest| <= |input|
  {
    match ReadFixed([4], input)
    case Bad(e) => Bad(e)
    case Got(v, r) =>
      match ReadString(u, r)
      case Bad(e) => Bad(e)
      case Got(path, r2) =>
        match ReadString(u, r2)
        case Bad(e) => Bad(e)
        case Got(message, rest) =>
          Got(GapRecord(Gap(path, v[0], message)), rest)
  }

  /** The allocation of a stream record is present only if its flag says so. */
  function ReadStreamAllocation(flag: nat, input: bytes): (r: Read<Option<u64>>)
    requires flag <= U8_MAX
    ensures r.Got? ==> |r.rest| <= |input|
  {
    if flag == 0 then Got(None, input)
    else if flag == 1 then
      match Take(input, 8)
      case Bad(e) => Bad(e)
      case Got(raw, rest) =>
        WordSizes();
        Got(Some(LeValue(raw)), rest)
    else Bad(InvalidBooleanTag(flag))
  }

  function ReadStreamRecord(u: Utf8, input: bytes): (r: Read<Record>)
    ensures r.Got? ==> |r.rest| <= |input|
  {
    match ReadFixed(STREAM_WIDTHS, input)
    case Bad(e) => Bad(e)
    case Got(v, r) =>
      hide Largest;
      StreamBounds(v);
      match ReadStreamAllocation(v[2], r)
      case Bad(e) => Bad(e)
      case Got(alloc, r2) =>
        match ReadString(u, r2)
        case Bad(e) => Bad(e)
        case Got(name, rest) => Got(StreamRecord(v[0], name, v[1], alloc), rest)
  }

  function OutcomeOfTag(tag: nat): Option<RunOutcome> {
    match tag
    case 0 => Some(Finished)
    case 1 => Some(Cancelled)
    case 2 => Some(Failed)
    case _ => None
  }

  function ReadTerminal(input: bytes): (r: Read<Record>)
    ensures r.Got? ==> |r.rest| <= |input|
  {
    match ReadFixed(TERMINAL_WIDTHS, input)
    case Bad(e) => Bad(e)
    case Got(v, rest) =>
      hide Largest;
      TerminalBounds(v);
      match OutcomeOfTag(v[0])
      case None => Bad(InvalidOutcome(v[0]))
      case Some(outcome) => Got(TerminalRecord(Terminal(outcome, v[1], v[2], v[3], v[4], v[5], v[6])), rest)
  }

  function ReadBody(u: Utf8, version: u16, tag: u8, input: bytes): (r: Read<Record>)
    ensures r.Got? ==> |r.rest| <= |input|
  {
    match tag
    case 1 => ReadDirectory(u, version, input)
    case 2 => ReadFileRecord(u, version, input)
    case 3 => ReadSpecial(u, version, input)
    case 4 => ReadGap(u, input)
    case 5 => ReadTerminal(input)
    case 6 => ReadStreamRecord(u, input)
    case other => Bad(InvalidRecordTag(other))
  }

  /** `read_record`: nothing at a clean end of input. */
  function ReadRecord(u: Utf8, version: u16, input: bytes): (r: Read<Option<Record>>)
    ensures r.Got? ==> |r.rest| <= |input|
  {
    if input == [] then Got(None, [])
    else
      match ReadBody(u, version, input[0], input[1..])
      case Bad(e) => Bad(e)
      case Got(r, rest) => Got(Some(r), rest)
  }

  // ---- What was written is read back

  lemma FileEvidenceRoundTrip(oid: Option<ObjectIdentity>, link: ValueKnowledge, rest: bytes)
    ensures ReadFileEvidence(VERSION_2, EncodeIdentity(oid) + (EncodeLink(link) + rest)) == Got((oid, link), rest)
  {
    IdentityRoundTrip(oid, EncodeLink(link) + rest);
    LinkRoundTrip(link, rest);
  }

  lemma DirectoryRoundTrip(u: Utf8, r: Record, rest: bytes)
    requires Lawful(u) && Writable(u, r) && r.DirectoryRecord?
    ensures ReadDirectory(u, VERSION_2, EncodeFields(FieldsOf(r)) + (EncodeAllocation(r.allocatedSize)
              + (EncodeIdentity(r.objectId) + (EncodeLink(r.linkCount) + (EncodeString(u, r.name) + rest))))) == Got(r, rest)
  {
    hide ReadFixed, ReadString, EncodeString, EncodeFields, FieldsOf, EncodeIdentity, EncodeLink, EncodeAllocation, ReadFileEvidence, ReadAllocation;
    var name := EncodeString(u, r.name) + rest;
    var link := EncodeLink(r.linkCount) + name;
    var oid := EncodeIdentity(r.objectId) + link;
    FixedRoundTrip(r, EncodeAllocation(r.allocatedSize) + oid);
    EntryFields(r);
    AllocationRoundTrip(r.allocatedSize, oid);
    FileEvidenceRoundTrip(r.objectId, r.linkCount, name);
    StringRoundTrip(u, r.name, rest);
  }

  lemma EntryFields(r: Record)
    requires r.DirectoryRecord? || r.SpecialRecord?
    ensures Widths(FieldsOf(r)) == DIRECTORY_WIDTHS
    ensures var v := Values(FieldsOf(r));
      && |v| == 7 && v[0] == r.entryId && v[1] == r.parentId
      && v[2] <= U32_MAX && v[3] <= U32_MAX && v[4] <= U64_MAX && v[5] <= U64_MAX && v[6] <= U64_MAX && MetaOf(v, 2) == r.meta
  {
  }

  lemma StreamFields(r: Record)
    requires r.StreamRecord?
    ensures Widths(FieldsOf(r)) == STREAM_WIDTHS
    ensures var v := Values(FieldsOf(r));
      |v| == 3 && v[0] == r.parentEntryId && v[1] == r.streamLogicalSize && v[2] == Flag(r.streamAllocatedSize.Some?)
  {
  }

  lemma GapFields(r: Record)
    requires r.GapRecord?
    ensures Widths(FieldsOf(r)) == [4] && |Values(FieldsOf(r))| == 1 && Values(FieldsOf(r))[0] == r.gap.errorCode
  {
  }

  lemma TerminalFields(r: Record)
    requires r.TerminalRecord?
    ensures Widths(FieldsOf(r)) == TERMINAL_WIDTHS
    ensures var v, t := Values(FieldsOf(r)), r.terminal;
      && |v| == 7 && OutcomeOfTag(v[0]) == Some(t.outcome) && v[1] == t.totalDirectories && v[2] == t.totalFiles
      && v[3] == t.totalLogicalBytes && v[4] == t.totalAllocatedBytes && v[5] == t.coverageGapCount && v[6] == t.durationMs
  {
  }

  lemma FileFields(r: Record)
    requires r.FileRecord?
    ensures Widths(FieldsOf(r)) == FILE_WIDTHS
    ensures var v := Values(FieldsOf(r));
      && |v| == 10 && v[0] <= U32_MAX && v[1] <= U32_MAX && v[2] <= U64_MAX && v[3] <= 1 && v[4] <= U64_MAX
      && v[5] <= U32_MAX && v[6] <= U32_MAX && v[7] <= U64_MAX && v[8] <= U64_MAX && v[9] <= U64_MAX
      && FileOf(v, r.name, r.objectId, r.linkCount) == r
  {
    var fs := FieldsOf(r);
    assert |Widths(fs)| == 10 && Widths(fs)[3] == 1 && Widths(fs)[9] == 8;
  }

  lemma FileRoundTrip(u: Utf8, r: Record, rest: bytes)
    requires Lawful(u) && Writable(u, r) && r.FileRecord?
    ensures ReadFileRecord(u, VERSION_2, EncodeFields(FieldsOf(r))
              + (EncodeIdentity(r.objectId) + (EncodeLink(r.linkCount) + (EncodeString(u, r.name) + rest)))) == Got(r, rest)
  {
    hide ReadFixed, ReadString, ReadFileEvidence, EncodeString, EncodeFields, EncodeIdentity, EncodeLink, FieldsOf, FileOf;
    var name := EncodeString(u, r.name) + rest;
    var evidence := EncodeIdentity(r.objectId) + (EncodeLink(r.linkCount) + name);
    FileFields(r);
    FixedRoundTrip(r, evidence);
    FileEvidenceRoundTrip(r.objectId, r.linkCount, name);
    StringRoundTrip(u, r.name, rest);
  }

  lemma SpecialRoundTrip(u: Utf8, r: Record, rest: bytes)
    requires Lawful(u) && Writable(u, r) && r.SpecialRecord?
    ensures ReadSpecial(u, VERSION_2, EncodeFields(FieldsOf(r)) + (EncodeIdentity(r.objectId) + (EncodeString(u, r.name) + rest))) == Got(r, rest)
  {
    hide ReadFixed, ReadString, EncodeString, EncodeFields, FieldsOf, EncodeIdentity, EncodeLink, EncodeAllocation, ReadDirectoryEvidence, ReadIdentity;
    var name := EncodeString(u, r.name) + rest;
    FixedRoundTrip(r, EncodeIdentity(r.objectId) + name);
    EntryFields(r);
    IdentityRoundTrip(r.objectId, name);
    StringRoundTrip(u, r.name, rest);
  }

  lemma GapRoundTrip(u: Utf8, r: Record, rest: bytes)
    requires Lawful(u) && Writable(u, r) && r.GapRecord?
    ensures ReadGap(u, EncodeFields(FieldsOf(r)) + (EncodeString(u, r.gap.path) + (EncodeString(u, r.gap.errorMessage) + rest))) == Got(r, rest)
  {
    hide ReadFixed, ReadString, EncodeString, EncodeFields, FieldsOf;
    var message := EncodeString(u, r.gap.errorMessage) + rest;
    FixedRoundTrip(r, EncodeString(u, r.gap.path) + message);
    GapFields(r);
    StringRoundTrip(u, r.gap.path, message);
    StringRoundTrip(u, r.gap.errorMessage, rest);
  }

  lemma StreamRecordRoundTrip(u: Utf8, r: Record, rest: bytes)
    requires Lawful(u) && Writable(u, r) && r.StreamRecord?
    ensures ReadStreamRecord(u, EncodeFields(FieldsOf(r)) + (MiddleOf(u, r) + (EncodeString(u, r.streamName) + rest))) == Got(r, rest)
  {
    hide ReadFixed, ReadString, EncodeString, EncodeFields, FieldsOf;
    var name := EncodeString(u, r.streamName) + rest;
    FixedRoundTrip(r, MiddleOf(u, r) + name);
    StreamFields(r);
    if r.streamAllocatedSize.Some? {
      WordSizes();
      LeRoundTrip(r.streamAllocatedSize.value, 8);
      TakeFront(MiddleOf(u, r), name);
    } else {
      assert MiddleOf(u, r) + name == name;
    }
    StringRoundTrip(u, r.streamName, rest);
  }

  lemma TerminalRoundTrip(r: Record, rest: bytes)
    requires r.TerminalRecord?
    ensures ReadTerminal(EncodeFields(FieldsOf(r)) + rest) == Got(r, rest)
  {
    hide ReadFixed, ReadString, EncodeString, EncodeFields, FieldsOf;
    FixedRoundTrip(r, rest);
    TerminalFields(r);
  }

  lemma BodyRoundTrip(u: Utf8, r: Record, rest: bytes)
    requires Lawful(u) && Writable(u, r)
    ensures ReadBody(u, VERSION_2, TagOf(r), EncodeFields(FieldsOf(r)) + (MiddleOf(u, r) + (EncodeName(u, r) + rest))) == Got(r, rest)
  {
    hide EncodeFields, EncodeString, EncodeIdentity, EncodeLink, EncodeAllocation, FieldsOf, ReadDirectory, ReadFileRecord, ReadSpecial, ReadGap, ReadStreamRecord, ReadTerminal;
    var fixed, middle, tail := EncodeFields(FieldsOf(r)), MiddleOf(u, r), EncodeName(u, r) + rest;
    match r {
      case DirectoryRecord(_, _, name, _, oid, alloc, link) =>
        DirectoryRoundTrip(u, r, rest);
        assert middle + tail == EncodeAllocation(alloc) + (EncodeIdentity(oid) + (EncodeLink(link) + tail));
      case FileRecord(_, _, name, _, oid, _, link, _) =>
        FileRoundTrip(u, r, rest);
        assert middle + tail == EncodeIdentity(oid) + (EncodeLink(link) + tail);
      case SpecialRecord(_, _, _, _, _) => SpecialRoundTrip(u, r, rest);
      case GapRecord(_) => GapRoundTrip(u, r, rest);
      case StreamRecord(_, _, _, _) => StreamRecordRoundTrip(u, r, rest);
      case TerminalRecord(_) =>
        TerminalRoundTrip(r, rest);
        assert middle + tail == rest;
    }
  }

  lemma RecordRoundTrip(u: Utf8, r: Record, rest: bytes)
    requires Lawful(u) && Writable(u, r)
    ensures ReadRecord(u, VERSION_2, EncodeRecord(u, r) + rest) == Got(Some(r), rest)
  {
    hide ReadBody, EncodeFields, FieldsOf, MiddleOf, EncodeName, Writable, TagOf;
    var fixed, middle, name := EncodeFields(FieldsOf(r)), MiddleOf(u, r), EncodeName(u, r);
    var whole := EncodeRecord(u, r) + rest;
    assert whole[0] == TagOf(r) && whole[1..] == fixed + (middle + (name + rest));
    BodyRoundTrip(u, r, rest);
  }

  // ---- Streams of version 1, which carry no evidence on objects

  /** An entry in version 1: the fixed fields and the name. */
  function EncodeVersion1(u: Utf8, r: Record): bytes
    requires r.IsEntry()
  {
    [TagOf(r)] + (EncodeFields(FieldsOf(r)) + EncodeString(u, r.name))
  }

  /** An entry of version 1 is read back without identity and with an unobserved link count; a directory also without its
      allocation, while that of a file is among its fixed fields. */
  lemma Version1RoundTrip(u: Utf8, r: Record, rest: bytes)
    requires Lawful(u) && Writable(u, r) && r.IsEntry()
    ensures ReadRecord(u, 1, EncodeVersion1(u, r) + rest) == Got(Some(match r
      case DirectoryRecord(id, parentId, name, meta, _, _, _) => DirectoryRecord(id, parentId, name, meta, None, None, NotObserved)
      case FileRecord(id, parentId, name, meta, _, alloc, _, logical) => FileRecord(id, parentId, name, meta, None, alloc, NotObserved, logical)
      case SpecialRecord(id, parentId, name, meta, _) => SpecialRecord(id, parentId, name, meta, None)), rest)
  {
    var fixed, name := EncodeFields(FieldsOf(r)), EncodeString(u, r.name) + rest;
    var whole := EncodeVersion1(u, r) + rest;
    assert whole[0] == TagOf(r) && whole[1..] == fixed + name;
    hide ReadFixed, ReadString, EncodeString, EncodeFields, EncodeVersion1, FieldsOf;
    if r.FileRecord? {
      FileVersion1(u, r, rest);
    } else {
      EntryVersion1(u, r, rest);
    }
    hide ReadFileRecord, ReadDirectory, ReadSpecial;
  }

  lemma FileVersion1(u: Utf8, r: Record, rest: bytes)
    requires Lawful(u) && Writable(u, r) && r.FileRecord?
    ensures ReadFileRecord(u, 1, EncodeFields(FieldsOf(r)) + (EncodeString(u, r.name) + rest)) ==
      Got(FileRecord(r.entryId, r.parentId, r.name, r.meta, None, r.allocatedSize, NotObserved, r.logicalSize), rest)
  {
    hide ReadFixed, ReadString, EncodeString, EncodeFields, FieldsOf, MetaOf;
    FixedRoundTrip(r, EncodeString(u, r.name) + rest);
    StringRoundTrip(u, r.name, rest);
    FileFields(r);
  }

  lemma EntryVersion1(u: Utf8, r: Record, rest: bytes)
    requires Lawful(u) && Writable(u, r) && (r.DirectoryRecord? || r.SpecialRecord?)
    ensures var input := EncodeFields(FieldsOf(r)) + (EncodeString(u, r.name) + rest);
      && (r.DirectoryRecord? ==>
            ReadDirectory(u, 1, input) == Got(DirectoryRecord(r.entryId, r.parentId, r.name, r.meta, None, None, NotObserved), rest))
      && (r.SpecialRecord? ==> ReadSpecial(u, 1, input) == Got(SpecialRecord(r.entryId, r.parentId, r.name, r.meta, None), rest))
  {
    hide ReadFixed, ReadString, EncodeString, EncodeFields, FieldsOf;
    FixedRoundTrip(r, EncodeString(u, r.name) + rest);
    StringRoundTrip(u, r.name, rest);
    EntryFields(r);
  }

  // ---- No strict prefix of a record is read as anything

  lemma DirectoryCuts(u: Utf8, version: u16, input: bytes, n: nat)
    requires n <= |input|
    ensures Cuts(input, n, ReadDirectory(u, version, input), ReadDirectory(u, version, input[..n]))
  {
    hide ReadFixed, ReadDirectoryEvidence, ReadString;
    FixedCuts(DIRECTORY_WIDTHS, input, n);
    var fixed := ReadFixed(DIRECTORY_WIDTHS, input);
    if fixed.Got? && n >= |input| - |fixed.rest| {
      var n1 := n - (|input| - |fixed.rest|);
      DirectoryEvidenceCuts(version, fixed.rest, n1);
      var evidence := ReadDirectoryEvidence(version, fixed.rest);
      if evidence.Got? && n1 >= |fixed.rest| - |evidence.rest| {
        StringCuts(u, evidence.rest, n1 - (|fixed.rest| - |evidence.rest|));
      }
    }
  }

  lemma FileEvidenceCuts(version: u16, input: bytes, n: nat)
    requires n <= |input|
    ensures Cuts(input, n, ReadFileEvidence(version, input), ReadFileEvidence(version, input[..n]))
  {
    hide ReadIdentity, ReadLink;
    if version != VERSION_1 {
      IdentityCuts(input, n);
      var oid := ReadIdentity(input);
      if oid.Got? && n >= |input| - |oid.rest| {
        LinkCuts(oid.rest, n - (|input| - |oid.rest|));
      }
    }
  }

  lemma DirectoryEvidenceCuts(version: u16, input: bytes, n: nat)
    requires n <= |input|
    ensures Cuts(input, n, ReadDirectoryEvidence(version, input), ReadDirectoryEvidence(version, input[..n]))
  {
    hide ReadAllocation, ReadFileEvidence;
    if version != VERSION_1 {
      AllocationCuts(input, n);
      var alloc := ReadAllocation(input);
      if alloc.Got? && n >= |input| - |alloc.rest| {
        FileEvidenceCuts(version, alloc.rest, n - (|input| - |alloc.rest|));
      }
    }
  }

  lemma SpecialEvidenceCuts(version: u16, input: bytes, n: nat)
    requires n <= |input|
    ensures Cuts(input, n, ReadSpecialEvidence(version, input), ReadSpecialEvidence(version, input[..n]))
  {
    IdentityCuts(input, n);
  }

  lemma FileCuts(u: Utf8, version: u16, input: bytes, n: nat)
    requires n <= |input|
    ensures Cuts(input, n, ReadFileRecord(u, version, input), ReadFileRecord(u, version, input[..n]))
  {
    hide ReadFixed, ReadFileEvidence, ReadString;
    FixedCuts(FILE_WIDTHS, input, n);
    var fixed := ReadFixed(FILE_WIDTHS, input);
    if fixed.Got? && n >= |input| - |fixed.rest| {
      var n1 := n - (|input| - |fixed.rest|);
      FileEvidenceCuts(version, fixed.rest, n1);
      var evidence := ReadFileEvidence(version, fixed.rest);
      if evidence.Got? && n1 >= |fixed.rest| - |evidence.rest| {
        StringCuts(u, evidence.rest, n1 - (|fixed.rest| - |evidence.rest|));
      }
    }
  }

  lemma SpecialCuts(u: Utf8, version: u16, input: bytes, n: nat)
    requires n <= |input|
    ensures Cuts(input, n, ReadSpecial(u, version, input), ReadSpecial(u, version, input[..n]))
  {
    hide ReadFixed, ReadSpecialEvidence, ReadString;
    FixedCuts(DIRECTORY_WIDTHS, input, n);
    var fixed := ReadFixed(DIRECTORY_WIDTHS, input);
    if fixed.Got? && n >= |input| - |fixed.rest| {
      var n1 := n - (|input| - |fixed.rest|);
      SpecialEvidenceCuts(version, fixed.rest, n1);
      var evidence := ReadSpecialEvidence(version, fixed.rest);
      if evidence.Got? && n1 >= |fixed.rest| - |evidence.rest| {
        StringCuts(u, evidence.rest, n1 - (|fixed.rest| - |evidence.rest|));
      }
    }
  }

  lemma GapCuts(u: Utf8, input: bytes, n: nat)
    requires n <= |input|
    ensures Cuts(input, n, ReadGap(u, input), ReadGap(u, input[..n]))
  {
    hide ReadFixed, ReadString;
    FixedCuts([4], input, n);
    var fixed := ReadFixed([4], input);
    if fixed.Got? && n >= |input| - |fixed.rest| {
      var n1 := n - (|input| - |fixed.rest|);
      StringCuts(u, fixed.rest, n1);
      var path := ReadString(u, fixed.rest);
      if path.Got? && n1 >= |fixed.rest| - |path.rest| {
        StringCuts(u, path.rest, n1 - (|fixed.rest| - |path.rest|));
      }
    }
  }

  lemma StreamRecordCuts(u: Utf8, input: bytes, n: nat)
    requires n <= |input|
    ensures Cuts(input, n, ReadStreamRecord(u, input), ReadStreamRecord(u, input[..n]))
  {
    hide ReadFixed, ReadString, LeValue;
    FixedCuts(STREAM_WIDTHS, input, n);
    var fixed := ReadFixed(STREAM_WIDTHS, input);
    if fixed.Got? && n >= |input| - |fixed.rest| {
      var n1 := n - (|input| - |fixed.rest|);
      TakeCuts(fixed.rest, 8, n1);
      var alloc := ReadStreamAllocation(fixed.value[2], fixed.rest);
      if alloc.Got? && n1 >= |fixed.rest| - |alloc.rest| {
        StringCuts(u, alloc.rest, n1 - (|fixed.rest| - |alloc.rest|));
      }
    }
  }

  lemma TerminalCuts(input: bytes, n: nat)
    requires n <= |input|
    ensures Cuts(input, n, ReadTerminal(input), ReadTerminal(input[..n]))
  {
    hide ReadFixed;
    FixedCuts(TERMINAL_WIDTHS, input, n);
  }

  lemma BodyCuts(u: Utf8, version: u16, tag: u8, input: bytes, n: nat)
    requires n <= |input|
    ensures Cuts(input, n, ReadBody(u, version, tag, input), ReadBody(u, version, tag, input[..n]))
  {
    hide ReadDirectory, ReadFileRecord, ReadSpecial, ReadGap, ReadStreamRecord, ReadTerminal;
    match tag {
      case 1 => DirectoryCuts(u, version, input, n);
      case 2 => FileCuts(u, version, input, n);
      case 3 => SpecialCuts(u, version, input, n);
      case 4 => GapCuts(u, input, n);
      case 5 => TerminalCuts(input, n);
      case 6 => StreamRecordCuts(u, input, n);
      case _ =>
    }
  }

  /** A record cut short is a premature end of input, in either stream version; only the empty prefix is a clean end. */
  lemma RecordCuts(u: Utf8, version: u16, input: bytes, n: nat)
    requires 0 < n <= |input|
    ensures Cuts(input, n, ReadRecord(u, version, input), ReadRecord(u, version, input[..n]))
  {
    BodyCuts(u, version, input[0], input[1..], n - 1);
    assert input[..n][1..] == input[1..][..n - 1];
  }
}
