/** The binary observation stream byte by byte: where every field of a record stands. */
module Format {
  import opened Words
  import opened Observation
  import opened Wire
  import opened Codec
  import opened Stream

  /** `value` stands in `width` bytes at `off`, lowest byte first. */
  ghost predicate Stands(b: bytes, off: nat, width: nat, value: nat) {
    off + width <= |b| && ValueAt(b, off, width) == value
  }

  lemma LeStands(pre: bytes, v: nat, width: nat, post: bytes)
    requires v < Pow256(width)
    ensures Stands(pre + (LeBytes(v, width) + post), |pre|, width, v)
  {
    hide LeBytes, LeValue, Pow256;
    LeRoundTrip(v, width);
    assert (pre + (LeBytes(v, width) + post))[|pre|..|pre| + width] == LeBytes(v, width);
  }

  // ---- Strings, identities, link counts, allocations

  /** A string is its length in bytes, in two bytes, and its bytes. */
  ghost predicate StringLaid(u: Utf8, b: bytes, off: nat, s: string) {
    var n := |u.encode(s)|;
    Stands(b, off, 2, n) && off + 2 + n <= |b| && b[off + 2..off + 2 + n] == u.encode(s)
  }

  /** An identity is a zero byte if there is none, and otherwise a one, the volume and the file id in sixteen bytes each. */
  ghost predicate IdentityLaid(b: bytes, off: nat, oid: Option<ObjectIdentity>) {
    if oid.None? then Stands(b, off, 1, 0)
    else Stands(b, off, 1, 1) && off + 33 <= |b| && b[off + 1..off + 17] == oid.value.volumeGuid && Stands(b, off + 17, 16, oid.value.fileId)
  }

  /** A link count is one byte, from 0 to 3 for not observed, known, unavailable and not applicable, and the count in four. */
  ghost predicate LinkLaid(b: bytes, off: nat, link: ValueKnowledge) {
    match link
    case NotObserved => Stands(b, off, 1, 0) && Stands(b, off + 1, 4, 0)
    case Known(k) => Stands(b, off, 1, 1) && Stands(b, off + 1, 4, k)
    case Unavailable => Stands(b, off, 1, 2) && Stands(b, off + 1, 4, 0)
    case NotApplicable => Stands(b, off, 1, 3) && Stands(b, off + 1, 4, 0)
  }

  /** An allocation is a flag byte and eight bytes, zero if it is not known. */
  ghost predicate AllocationLaid(b: bytes, off: nat, alloc: Option<u64>) {
    if alloc.None? then Stands(b, off, 1, 0) && Stands(b, off + 1, 8, 0) else Stands(b, off, 1, 1) && Stands(b, off + 1, 8, alloc.value)
  }

  lemma ByteStands(pre: bytes, x: u8, post: bytes)
    ensures Stands(pre + ([x] + post), |pre|, 1, x)
  {
    assert (pre + ([x] + post))[|pre|] == x;
    BytesValue(pre + ([x] + post), |pre|);
  }

  lemma StringIsLaid(u: Utf8, pre: bytes, s: string, post: bytes)
    requires StringFits(u, s)
    ensures StringLaid(u, pre + (EncodeString(u, s) + post), |pre|, s)
  {
    hide LeBytes, ValueAt;
    WordSizes();
    var n, len := |u.encode(s)|, LeBytes(|u.encode(s)|, 2);
    var b := pre + (EncodeString(u, s) + post);
    assert b == pre + (len + (u.encode(s) + post));
    LeStands(pre, n, 2, u.encode(s) + post);
    assert b[|pre| + 2..|pre| + 2 + n] == u.encode(s);
  }

  lemma IdentityIsLaid(pre: bytes, oid: Option<ObjectIdentity>, post: bytes)
    ensures IdentityLaid(pre + (EncodeIdentity(oid) + post), |pre|, oid)
  {
    hide LeBytes, ValueAt;
    WordSizes();
    match oid {
      case None => ByteStands(pre, 0, post);
      case Some(id) =>
        var b, last := pre + (EncodeIdentity(oid) + post), LeBytes(id.fileId, 16);
        assert b == pre + ([1] + (id.volumeGuid + (last + post)));
        ByteStands(pre, 1, id.volumeGuid + (last + post));
        assert b == (pre + [1] + id.volumeGuid) + (last + post);
        LeStands(pre + [1] + id.volumeGuid, id.fileId, 16, post);
        assert b[|pre| + 1..|pre| + 17] == id.volumeGuid;
    }
  }

  lemma TaggedIsLaid(pre: bytes, tag: u8, v: nat, width: nat, post: bytes)
    requires v < Pow256(width)
    ensures Stands(pre + (([tag] + LeBytes(v, width)) + post), |pre|, 1, tag)
    ensures Stands(pre + (([tag] + LeBytes(v, width)) + post), |pre| + 1, width, v)
  {
    hide LeBytes, ValueAt, Pow256;
    var b := pre + (([tag] + LeBytes(v, width)) + post);
    assert b == pre + ([tag] + (LeBytes(v, width) + post));
    ByteStands(pre, tag, LeBytes(v, width) + post);
    assert b == (pre + [tag]) + (LeBytes(v, width) + post);
    LeStands(pre + [tag], v, width, post);
  }

  lemma LinkIsLaid(pre: bytes, link: ValueKnowledge, post: bytes)
    ensures LinkLaid(pre + (EncodeLink(link) + post), |pre|, link)
  {
    hide LeBytes, ValueAt;
    WordSizes();
    TaggedIsLaid(pre, LinkTag(link), if link.Known? then link.value else 0, 4, post);
  }

  lemma AllocationIsLaid(pre: bytes, alloc: Option<u64>, post: bytes)
    ensures AllocationLaid(pre + (EncodeAllocation(alloc) + post), |pre|, alloc)
  {
    hide LeBytes, ValueAt;
    WordSizes();
    TaggedIsLaid(pre, if alloc.Some? then 1 else 0, alloc.GetOr(0), 8, post);
  }

  // ---- Records

  /** The bytes of an identity. */
  function IdentitySize(oid: Option<ObjectIdentity>): nat {
    if oid.None? then 1 else 33
  }

  lemma IdentitySizeOk(oid: Option<ObjectIdentity>)
    ensures |EncodeIdentity(oid)| == IdentitySize(oid)
  {
  }

  /** Attributes, reparse tag and the three times, from `off` on. */
  ghost predicate MetaLaid(b: bytes, off: nat, m: Meta) {
    && Stands(b, off, 4, m.fileAttributes) && Stands(b, off + 4, 4, m.reparseTag) && Stands(b, off + 8, 8, m.creationTimeUtcMs)
    && Stands(b, off + 16, 8, m.lastWriteTimeUtcMs) && Stands(b, off + 24, 8, m.lastAccessTimeUtcMs)
  }

  /** The record types are numbered from 1: directory, file, special object, gap, terminal record, stream. */
  ghost predicate RecordLaid(u: Utf8, b: bytes, r: Record) {
    match r
    case DirectoryRecord(id, parentId, name, meta, oid, alloc, link) =>
      && Stands(b, 0, 1, 1) && Stands(b, 1, 4, id) && Stands(b, 5, 4, parentId) && MetaLaid(b, 9, meta)
      && AllocationLaid(b, 41, alloc) && IdentityLaid(b, 50, oid) && LinkLaid(b, 50 + IdentitySize(oid), link)
      && StringLaid(u, b, 55 + IdentitySize(oid), name) && |b| == 57 + IdentitySize(oid) + |u.encode(name)|
    case FileRecord(id, parentId, name, meta, oid, alloc, link, logical) =>
      && Stands(b, 0, 1, 2) && Stands(b, 1, 4, id) && Stands(b, 5, 4, parentId) && Stands(b, 9, 8, logical)
      && AllocationLaid(b, 17, alloc) && MetaLaid(b, 26, meta) && IdentityLaid(b, 58, oid) && LinkLaid(b, 58 + IdentitySize(oid), link)
      && StringLaid(u, b, 63 + IdentitySize(oid), name) && |b| == 65 + IdentitySize(oid) + |u.encode(name)|
    case SpecialRecord(id, parentId, name, meta, oid) =>
      && Stands(b, 0, 1, 3) && Stands(b, 1, 4, id) && Stands(b, 5, 4, parentId) && MetaLaid(b, 9, meta)
      && IdentityLaid(b, 41, oid) && StringLaid(u, b, 41 + IdentitySize(oid), name) && |b| == 43 + IdentitySize(oid) + |u.encode(name)|
    case GapRecord(gap) =>
      && Stands(b, 0, 1, 4) && Stands(b, 1, 4, gap.errorCode) && StringLaid(u, b, 5, gap.path)
      && StringLaid(u, b, 7 + |u.encode(gap.path)|, gap.errorMessage) && |b| == 9 + |u.encode(gap.path)| + |u.encode(gap.errorMessage)|
    case TerminalRecord(t) =>
      && Stands(b, 0, 1, 5)
      && Stands(b, 1, 1, if t.outcome == Finished then 0 else if t.outcome == Cancelled then 1 else 2)
      && Stands(b, 2, 8, t.totalDirectories) && Stands(b, 10, 8, t.totalFiles) && Stands(b, 18, 8, t.totalLogicalBytes)
      && Stands(b, 26, 8, t.totalAllocatedBytes) && Stands(b, 34, 4, t.coverageGapCount) && Stands(b, 38, 8, t.durationMs) && |b| == 46
    case StreamRecord(parentId, name, logical, alloc) =>
      && Stands(b, 0, 1, 6) && Stands(b, 1, 4, parentId) && Stands(b, 5, 8, logical)
      && (if alloc.Some? then Stands(b, 13, 1, 1) && Stands(b, 14, 8, alloc.value) else Stands(b, 13, 1, 0))
      && StringLaid(u, b, if alloc.Some? then 22 else 14, name) && |b| == (if alloc.Some? then 24 else 16) + |u.encode(name)|
  }

  lemma EntryOffsets()
    ensures Offset(DIRECTORY_WIDTHS, 0) == 0 && Offset(DIRECTORY_WIDTHS, 1) == 4 && Offset(DIRECTORY_WIDTHS, 2) == 8
    ensures Offset(DIRECTORY_WIDTHS, 3) == 12 && Offset(DIRECTORY_WIDTHS, 4) == 16 && Offset(DIRECTORY_WIDTHS, 5) == 24
    ensures Offset(DIRECTORY_WIDTHS, 6) == 32 && Size(DIRECTORY_WIDTHS) == 40
  {
    assert Offset(DIRECTORY_WIDTHS, 2) == 8;
    assert Offset(DIRECTORY_WIDTHS, 4) == 16;
    assert Offset(DIRECTORY_WIDTHS, 6) == 32;
    SizeIsOffset(DIRECTORY_WIDTHS);
  }

  lemma FileOffsets()
    ensures Offset(FILE_WIDTHS, 0) == 0 && Offset(FILE_WIDTHS, 1) == 4 && Offset(FILE_WIDTHS, 2) == 8 && Offset(FILE_WIDTHS, 3) == 16
    ensures Offset(FILE_WIDTHS, 4) == 17 && Offset(FILE_WIDTHS, 5) == 25 && Offset(FILE_WIDTHS, 6) == 29 && Offset(FILE_WIDTHS, 7) == 33
    ensures Offset(FILE_WIDTHS, 8) == 41 && Offset(FILE_WIDTHS, 9) == 49 && Size(FILE_WIDTHS) == 57
  {
    assert Offset(FILE_WIDTHS, 2) == 8;
    assert Offset(FILE_WIDTHS, 4) == 17;
    assert Offset(FILE_WIDTHS, 6) == 29;
    assert Offset(FILE_WIDTHS, 8) == 41;
    SizeIsOffset(FILE_WIDTHS);
  }

  lemma TerminalOffsets()
    ensures Offset(TERMINAL_WIDTHS, 0) == 0 && Offset(TERMINAL_WIDTHS, 1) == 1 && Offset(TERMINAL_WIDTHS, 2) == 9
    ensures Offset(TERMINAL_WIDTHS, 3) == 17 && Offset(TERMINAL_WIDTHS, 4) == 25 && Offset(TERMINAL_WIDTHS, 5) == 33
    ensures Offset(TERMINAL_WIDTHS, 6) == 37 && Size(TERMINAL_WIDTHS) == 45
  {
    assert Offset(TERMINAL_WIDTHS, 2) == 9;
    assert Offset(TERMINAL_WIDTHS, 4) == 25;
    assert Offset(TERMINAL_WIDTHS, 6) == 37;
    SizeIsOffset(TERMINAL_WIDTHS);
  }

  lemma StreamOffsets()
    ensures Offset(STREAM_WIDTHS, 0) == 0 && Offset(STREAM_WIDTHS, 1) == 4 && Offset(STREAM_WIDTHS, 2) == 12 && Size(STREAM_WIDTHS) == 13
  {
    assert Offset(STREAM_WIDTHS, 2) == 12;
    SizeIsOffset(STREAM_WIDTHS);
  }

  /** The tag and the fixed fields of a record, wherever its middle and its name end. */
  ghost predicate FixedLaid(b: bytes, r: Record) {
    && Stands(b, 0, 1, TagOf(r)) && |b| >= 1 + Size(Widths(FieldsOf(r)))
    && forall k :: 0 <= k < |FieldsOf(r)| ==> Stands(b, 1 + Offset(Widths(FieldsOf(r)), k), FieldsOf(r)[k].width, FieldsOf(r)[k].value)
  }

  lemma FixedIsLaid(u: Utf8, r: Record)
    ensures FixedLaid(EncodeRecord(u, r), r)
  {
    FieldsFit(r);
    hide FieldsOf, MiddleOf, EncodeName, EncodeFields, Offset, ValueAt, Widths, Fits, TagOf, Size;
    var fs, rest := FieldsOf(r), MiddleOf(u, r) + EncodeName(u, r);
    var b := EncodeRecord(u, r);
    ByteStands([], TagOf(r), EncodeFields(fs) + rest);
    assert b == [] + ([TagOf(r)] + (EncodeFields(fs) + rest));
    forall k | 0 <= k < |fs|
      ensures Stands(b, 1 + Offset(Widths(fs), k), fs[k].width, fs[k].value)
    {
      FieldPlaced([TagOf(r)], fs, rest, k);
    }
  }

  /** Identity, link count and name, behind anything. */
  lemma EvidenceIsLaid(u: Utf8, pre: bytes, oid: Option<ObjectIdentity>, link: ValueKnowledge, name: string)
    requires StringFits(u, name)
    ensures var b := pre + (EncodeIdentity(oid) + (EncodeLink(link) + EncodeString(u, name))); var n := |pre| + IdentitySize(oid);
      && IdentityLaid(b, |pre|, oid) && LinkLaid(b, n, link) && StringLaid(u, b, n + 5, name) && |b| == n + 7 + |u.encode(name)|
  {
    IdentitySizeOk(oid);
    assert |EncodeLink(link)| == 5 && |EncodeString(u, name)| == 2 + |u.encode(name)|;
    hide IdentityLaid, LinkLaid, StringLaid, EncodeIdentity, EncodeLink, EncodeString;
    var id, l, s := EncodeIdentity(oid), EncodeLink(link), EncodeString(u, name);
    IdentityIsLaid(pre, oid, l + s);
    LinkIsLaid(pre + id, link, s);
    StringIsLaid(u, pre + id + l, name, []);
    Appended(pre, id, l, s);
  }

  lemma Appended(pre: bytes, id: bytes, l: bytes, s: bytes)
    ensures (pre + id) + (l + s) == pre + (id + (l + s)) && (pre + id + l) + (s + []) == pre + (id + (l + s))
  {
    assert s + [] == s;
  }

  /** The field `k` of a record stands at `off`. */
  lemma FixedAt(b: bytes, r: Record, fs: seq<Field>, k: nat, off: nat)
    requires FixedLaid(b, r) && fs == FieldsOf(r) && k < |fs| && off == 1 + Offset(Widths(fs), k)
    ensures Stands(b, off, fs[k].width, fs[k].value)
  {
    hide FieldsOf, TagOf, Stands, Offset, Widths, Size;
  }

  lemma TagAt(b: bytes, r: Record)
    requires FixedLaid(b, r)
    ensures Stands(b, 0, 1, TagOf(r))
  {
  }

  /** The fixed fields of a directory or special record. */
  lemma EntryPlaces(b: bytes, r: Record, fs: seq<Field>)
    requires FixedLaid(b, r) && fs == FieldsOf(r) && Widths(fs) == DIRECTORY_WIDTHS && |fs| == 7
    ensures Stands(b, 1, 4, fs[0].value) && Stands(b, 5, 4, fs[1].value) && Stands(b, 9, 4, fs[2].value) && Stands(b, 13, 4, fs[3].value)
    ensures Stands(b, 17, 8, fs[4].value) && Stands(b, 25, 8, fs[5].value) && Stands(b, 33, 8, fs[6].value)
  {
    EntryOffsets();
    assert forall k :: 0 <= k < 7 ==> fs[k].width == DIRECTORY_WIDTHS[k];
    hide FixedLaid, Offset, Stands, FieldsOf;
    FixedAt(b, r, fs, 0, 1);
    FixedAt(b, r, fs, 1, 5);
    FixedAt(b, r, fs, 2, 9);
    FixedAt(b, r, fs, 3, 13);
    FixedAt(b, r, fs, 4, 17);
    FixedAt(b, r, fs, 5, 25);
    FixedAt(b, r, fs, 6, 33);
  }

  lemma DirectoryNumbers(b: bytes, r: Record)
    requires (r.DirectoryRecord? || r.SpecialRecord?) && FixedLaid(b, r)
    ensures Stands(b, 0, 1, if r.DirectoryRecord? then 1 else 3)
    ensures Stands(b, 1, 4, r.entryId) && Stands(b, 5, 4, r.parentId) && MetaLaid(b, 9, r.meta)
  {
    assert Widths(FieldsOf(r)) == DIRECTORY_WIDTHS;
    TagAt(b, r);
    hide FixedLaid, Stands, Widths;
    EntryPlaces(b, r, FieldsOf(r));
  }

  /** The parts of a record, regrouped at each border. */
  lemma Regrouped(t: bytes, f: bytes, a: bytes, i: bytes, l: bytes, s: bytes)
    ensures t + (f + ((a + (i + l)) + s)) == (t + f) + (a + (i + (l + s)))
    ensures (t + f) + (a + (i + (l + s))) == (t + f + a) + (i + (l + s))
  {
    assert (a + (i + l)) + s == a + (i + (l + s));
  }

  lemma RegroupedAfter(t: bytes, f: bytes, i: bytes, l: bytes, s: bytes)
    ensures t + (f + (i + s)) == (t + f) + (i + s)
    ensures t + (f + ((i + l) + s)) == (t + f) + (i + (l + s))
  {
    assert (i + l) + s == i + (l + s);
  }

  lemma DirectoryParts(u: Utf8, r: Record)
    requires r.DirectoryRecord?
    ensures EncodeRecord(u, r) ==
      [TagOf(r)] + (EncodeFields(FieldsOf(r))
                    + ((EncodeAllocation(r.allocatedSize) + (EncodeIdentity(r.objectId) + EncodeLink(r.linkCount))) + EncodeString(u, r.name)))
  {
    hide FieldsOf, EncodeFields, EncodeAllocation, EncodeIdentity, EncodeLink, EncodeString;
  }

  /** Allocation and evidence behind two parts of which the second one is the fixed fields. */
  lemma DirectoryPieces(u: Utf8, t: bytes, f: bytes, alloc: Option<u64>, oid: Option<ObjectIdentity>, link: ValueKnowledge, name: string)
    requires |t| == 1 && |f| == 40 && StringFits(u, name)
    ensures var b, n := t + (f + ((EncodeAllocation(alloc) + (EncodeIdentity(oid) + EncodeLink(link))) + EncodeString(u, name))), IdentitySize(oid);
      && AllocationLaid(b, 41, alloc) && IdentityLaid(b, 50, oid) && LinkLaid(b, 50 + n, link) && StringLaid(u, b, 55 + n, name)
      && |b| == 57 + n + |u.encode(name)|
  {
    assert |EncodeAllocation(alloc)| == 9;
    hide AllocationLaid, IdentityLaid, LinkLaid, StringLaid, IdentitySize, EncodeAllocation, EncodeIdentity, EncodeLink, EncodeString, StringFits;
    var a, i, l, s := EncodeAllocation(alloc), EncodeIdentity(oid), EncodeLink(link), EncodeString(u, name);
    Regrouped(t, f, a, i, l, s);
    AllocationIsLaid(t + f, alloc, i + (l + s));
    EvidenceIsLaid(u, t + f + a, oid, link, name);
  }

  lemma DirectoryTail(u: Utf8, r: Record)
    requires r.DirectoryRecord? && Writable(u, r)
    ensures var b := EncodeRecord(u, r);
      && AllocationLaid(b, 41, r.allocatedSize) && IdentityLaid(b, 50, r.objectId) && LinkLaid(b, 50 + IdentitySize(r.objectId), r.linkCount)
      && StringLaid(u, b, 55 + IdentitySize(r.objectId), r.name) && |b| == 57 + IdentitySize(r.objectId) + |u.encode(r.name)|
  {
    EntryOffsets();
    assert Widths(FieldsOf(r)) == DIRECTORY_WIDTHS;
    assert StringFits(u, r.name);
    hide EncodeRecord, FieldsOf, AllocationLaid, IdentityLaid, LinkLaid, StringLaid, IdentitySize, EncodeFields, EncodeAllocation, EncodeIdentity, EncodeLink, EncodeString, Size, Widths, Offset, StringFits;
    DirectoryParts(u, r);
    DirectoryPieces(u, [TagOf(r)], EncodeFields(FieldsOf(r)), r.allocatedSize, r.objectId, r.linkCount, r.name);
  }

  lemma DirectoryLayout(u: Utf8, r: Record)
    requires r.DirectoryRecord? && Writable(u, r)
    ensures RecordLaid(u, EncodeRecord(u, r), r)
  {
    FixedIsLaid(u, r);
    DirectoryNumbers(EncodeRecord(u, r), r);
    DirectoryTail(u, r);
    hide EncodeRecord, FieldsOf, MetaLaid, AllocationLaid, IdentityLaid, LinkLaid, StringLaid, IdentitySize;
  }

  lemma FilePlaces(b: bytes, r: Record, fs: seq<Field>)
    requires FixedLaid(b, r) && fs == FieldsOf(r) && Widths(fs) == FILE_WIDTHS && |fs| == 10
    ensures Stands(b, 1, 4, fs[0].value) && Stands(b, 5, 4, fs[1].value) && Stands(b, 9, 8, fs[2].value) && Stands(b, 17, 1, fs[3].value)
    ensures Stands(b, 18, 8, fs[4].value) && Stands(b, 26, 4, fs[5].value) && Stands(b, 30, 4, fs[6].value) && Stands(b, 34, 8, fs[7].value)
    ensures Stands(b, 42, 8, fs[8].value) && Stands(b, 50, 8, fs[9].value)
  {
    FileOffsets();
    assert forall k :: 0 <= k < 10 ==> fs[k].width == FILE_WIDTHS[k];
    hide FixedLaid, Offset, Stands, FieldsOf;
    FixedAt(b, r, fs, 0, 1);
    FixedAt(b, r, fs, 1, 5);
    FixedAt(b, r, fs, 2, 9);
    FixedAt(b, r, fs, 3, 17);
    FixedAt(b, r, fs, 4, 18);
    FixedAt(b, r, fs, 5, 26);
    FixedAt(b, r, fs, 6, 30);
    FixedAt(b, r, fs, 7, 34);
    FixedAt(b, r, fs, 8, 42);
    FixedAt(b, r, fs, 9, 50);
  }

  lemma FileNumbers(b: bytes, r: Record)
    requires r.FileRecord? && FixedLaid(b, r)
    ensures Stands(b, 0, 1, 2) && Stands(b, 1, 4, r.entryId) && Stands(b, 5, 4, r.parentId) && Stands(b, 9, 8, r.logicalSize)
    ensures AllocationLaid(b, 17, r.allocatedSize) && MetaLaid(b, 26, r.meta)
  {
    hide FixedLaid, Stands, Widths, Offset;
    FileWidths(r);
    TagAt(b, r);
    FilePlaces(b, r, FieldsOf(r));
  }

  lemma FileWidths(r: Record)
    requires r.FileRecord?
    ensures Widths(FieldsOf(r)) == FILE_WIDTHS && |FieldsOf(r)| == 10
  {
  }

  lemma FileParts(u: Utf8, r: Record)
    requires r.FileRecord?
    ensures EncodeRecord(u, r) ==
      [TagOf(r)] + (EncodeFields(FieldsOf(r)) + ((EncodeIdentity(r.objectId) + EncodeLink(r.linkCount)) + EncodeString(u, r.name)))
  {
    hide FieldsOf, EncodeFields, EncodeIdentity, EncodeLink, EncodeString;
  }

  lemma FileTail(u: Utf8, r: Record)
    requires r.FileRecord? && Writable(u, r)
    ensures var b := EncodeRecord(u, r);
      && IdentityLaid(b, 58, r.objectId) && LinkLaid(b, 58 + IdentitySize(r.objectId), r.linkCount)
      && StringLaid(u, b, 63 + IdentitySize(r.objectId), r.name) && |b| == 65 + IdentitySize(r.objectId) + |u.encode(r.name)|
  {
    FileOffsets();
    assert Widths(FieldsOf(r)) == FILE_WIDTHS;
    hide EncodeRecord, FieldsOf, IdentityLaid, LinkLaid, StringLaid, IdentitySize, EncodeFields, EncodeIdentity, EncodeLink, EncodeString, Size, Widths, Offset, StringFits;
    var t, f := [TagOf(r)], EncodeFields(FieldsOf(r));
    var i, l, s := EncodeIdentity(r.objectId), EncodeLink(r.linkCount), EncodeString(u, r.name);
    FileParts(u, r);
    RegroupedAfter(t, f, i, l, s);
    EvidenceIsLaid(u, t + f, r.objectId, r.linkCount, r.name);
  }

  lemma FileLayout(u: Utf8, r: Record)
    requires r.FileRecord? && Writable(u, r)
    ensures RecordLaid(u, EncodeRecord(u, r), r)
  {
    FixedIsLaid(u, r);
    FileNumbers(EncodeRecord(u, r), r);
    FileTail(u, r);
    hide EncodeRecord, FieldsOf, MetaLaid, AllocationLaid, IdentityLaid, LinkLaid, StringLaid, IdentitySize;
  }

  /** Two parts and a string behind anything. */
  lemma NameBehind(u: Utf8, t: bytes, f: bytes, m: bytes, name: string)
    requires StringFits(u, name)
    ensures var b := t + (f + (m + EncodeString(u, name)));
      StringLaid(u, b, |t| + |f| + |m|, name) && |b| == |t| + |f| + |m| + 2 + |u.encode(name)|
  {
    assert |EncodeString(u, name)| == 2 + |u.encode(name)|;
    hide StringLaid, EncodeString, StringFits;
    StringIsLaid(u, t + f + m, name, []);
    assert t + (f + (m + EncodeString(u, name))) == (t + f + m) + (EncodeString(u, name) + []);
  }

  lemma SpecialLayout(u: Utf8, r: Record)
    requires r.SpecialRecord? && Writable(u, r)
    ensures RecordLaid(u, EncodeRecord(u, r), r)
  {
    FixedIsLaid(u, r);
    DirectoryNumbers(EncodeRecord(u, r), r);
    EntryOffsets();
    IdentitySizeOk(r.objectId);
    SpecialTail(u, r);
    hide EncodeRecord, FieldsOf, MetaLaid, IdentityLaid, StringLaid, IdentitySize, Stands, Offset, EncodeIdentity;
  }

  lemma SpecialTail(u: Utf8, r: Record)
    requires r.SpecialRecord? && Writable(u, r)
    ensures var b := EncodeRecord(u, r);
      && IdentityLaid(b, 41, r.objectId) && StringLaid(u, b, 41 + IdentitySize(r.objectId), r.name)
      && |b| == 43 + IdentitySize(r.objectId) + |u.encode(r.name)|
  {
    EntryOffsets();
    IdentitySizeOk(r.objectId);
    assert Widths(FieldsOf(r)) == DIRECTORY_WIDTHS;
    hide FieldsOf, IdentityLaid, StringLaid, IdentitySize, EncodeFields, EncodeIdentity, EncodeString, Size, Widths, Offset, StringFits;
    var t, f, i, s := [TagOf(r)], EncodeFields(FieldsOf(r)), EncodeIdentity(r.objectId), EncodeString(u, r.name);
    NameBehind(u, t, f, i, r.name);
    RegroupedAfter(t, f, i, [], s);
    IdentityIsLaid(t + f, r.objectId, s);
  }

  lemma GapLayout(u: Utf8, r: Record)
    requires r.GapRecord? && Writable(u, r)
    ensures RecordLaid(u, EncodeRecord(u, r), r)
  {
    FixedIsLaid(u, r);
    TagAt(EncodeRecord(u, r), r);
    assert Offset(Widths(FieldsOf(r)), 0) == 0 && |EncodeFields(FieldsOf(r))| == 4;
    FixedAt(EncodeRecord(u, r), r, FieldsOf(r), 0, 1);
    assert |EncodeString(u, r.gap.path)| == 2 + |u.encode(r.gap.path)|;
    hide FieldsOf, StringLaid, EncodeFields, EncodeString, Size, Widths, Offset, StringFits, FixedLaid, Stands;
    var t, f, p, s := [TagOf(r)], EncodeFields(FieldsOf(r)), EncodeString(u, r.gap.path), EncodeString(u, r.gap.errorMessage);
    NameBehind(u, t, f, p, r.gap.errorMessage);
    StringIsLaid(u, t + f, r.gap.path, s);
    RegroupedAfter(t, f, p, [], s);
  }

  lemma TerminalPlaces(b: bytes, r: Record, fs: seq<Field>)
    requires FixedLaid(b, r) && fs == FieldsOf(r) && Widths(fs) == TERMINAL_WIDTHS && |fs| == 7
    ensures Stands(b, 1, 1, fs[0].value) && Stands(b, 2, 8, fs[1].value) && Stands(b, 10, 8, fs[2].value) && Stands(b, 18, 8, fs[3].value)
    ensures Stands(b, 26, 8, fs[4].value) && Stands(b, 34, 4, fs[5].value) && Stands(b, 38, 8, fs[6].value)
  {
    TerminalOffsets();
    assert forall k :: 0 <= k < 7 ==> fs[k].width == TERMINAL_WIDTHS[k];
    hide FixedLaid, Offset, Stands, FieldsOf;
    FixedAt(b, r, fs, 0, 1);
    FixedAt(b, r, fs, 1, 2);
    FixedAt(b, r, fs, 2, 10);
    FixedAt(b, r, fs, 3, 18);
    FixedAt(b, r, fs, 4, 26);
    FixedAt(b, r, fs, 5, 34);
    FixedAt(b, r, fs, 6, 38);
  }

  lemma TerminalNumbers(b: bytes, r: Record)
    requires r.TerminalRecord? && FixedLaid(b, r)
    ensures var t := r.terminal;
      && Stands(b, 0, 1, 5) && Stands(b, 1, 1, if t.outcome == Finished then 0 else if t.outcome == Cancelled then 1 else 2)
      && Stands(b, 2, 8, t.totalDirectories) && Stands(b, 10, 8, t.totalFiles) && Stands(b, 18, 8, t.totalLogicalBytes)
      && Stands(b, 26, 8, t.totalAllocatedBytes) && Stands(b, 34, 4, t.coverageGapCount) && Stands(b, 38, 8, t.durationMs)
  {
    assert Widths(FieldsOf(r)) == TERMINAL_WIDTHS;
    TagAt(b, r);
    hide FixedLaid, Stands, Widths;
    TerminalPlaces(b, r, FieldsOf(r));
  }

  lemma TerminalSize(u: Utf8, r: Record)
    requires r.TerminalRecord?
    ensures |EncodeRecord(u, r)| == 46
  {
    TerminalOffsets();
    assert Widths(FieldsOf(r)) == TERMINAL_WIDTHS;
    assert |EncodeFields(FieldsOf(r))| == 45;
    hide FieldsOf, EncodeFields, Offset, Size;
  }

  lemma TerminalLayout(u: Utf8, r: Record)
    requires r.TerminalRecord?
    ensures RecordLaid(u, EncodeRecord(u, r), r)
  {
    hide EncodeRecord, FixedLaid, Stands;
    FixedIsLaid(u, r);
    TerminalNumbers(EncodeRecord(u, r), r);
    TerminalSize(u, r);
  }

  lemma StreamNumbers(b: bytes, r: Record)
    requires r.StreamRecord? && FixedLaid(b, r)
    ensures Stands(b, 0, 1, 6) && Stands(b, 1, 4, r.parentEntryId) && Stands(b, 5, 8, r.streamLogicalSize)
    ensures Stands(b, 13, 1, if r.streamAllocatedSize.Some? then 1 else 0)
  {
    StreamOffsets();
    var fs := FieldsOf(r);
    assert Widths(fs) == STREAM_WIDTHS;
    TagAt(b, r);
    hide FixedLaid, Offset, Stands, Widths;
    FixedAt(b, r, fs, 0, 1);
    FixedAt(b, r, fs, 1, 5);
    FixedAt(b, r, fs, 2, 13);
  }

  lemma StreamTail(u: Utf8, r: Record)
    requires r.StreamRecord? && Writable(u, r)
    ensures var b, n := EncodeRecord(u, r), if r.streamAllocatedSize.Some? then 22 else 14;
      && (r.streamAllocatedSize.Some? ==> Stands(b, 14, 8, r.streamAllocatedSize.value))
      && StringLaid(u, b, n, r.streamName) && |b| == n + 2 + |u.encode(r.streamName)|
  {
    StreamOffsets();
    WordSizes();
    assert Widths(FieldsOf(r)) == STREAM_WIDTHS;
    var t, f, m, s := [TagOf(r)], EncodeFields(FieldsOf(r)), MiddleOf(u, r), EncodeString(u, r.streamName);
    assert |f| == 13;
    hide FieldsOf, StringLaid, EncodeFields, EncodeString, Size, Widths, Offset, StringFits, LeBytes, Stands;
    NameBehind(u, t, f, m, r.streamName);
    if r.streamAllocatedSize.Some? {
      LeStands(t + f, r.streamAllocatedSize.value, 8, s);
      RegroupedAfter(t, f, m, [], s);
    }
  }

  lemma StreamLayout(u: Utf8, r: Record)
    requires r.StreamRecord? && Writable(u, r)
    ensures RecordLaid(u, EncodeRecord(u, r), r)
  {
    FixedIsLaid(u, r);
    StreamNumbers(EncodeRecord(u, r), r);
    StreamTail(u, r);
    hide EncodeRecord, FieldsOf, StringLaid, Stands;
  }

  /** Every record is written field by field at these places. */
  lemma RecordLayout(u: Utf8, r: Record)
    requires Writable(u, r)
    ensures RecordLaid(u, EncodeRecord(u, r), r)
  {
    hide RecordLaid, EncodeRecord, Writable;
    match r {
      case DirectoryRecord(_, _, _, _, _, _, _) => DirectoryLayout(u, r);
      case FileRecord(_, _, _, _, _, _, _, _) => FileLayout(u, r);
      case SpecialRecord(_, _, _, _, _) => SpecialLayout(u, r);
      case GapRecord(_) => GapLayout(u, r);
      case TerminalRecord(_) => TerminalLayout(u, r);
      case StreamRecord(_, _, _, _) => StreamLayout(u, r);
    }
  }

  /** A stream starts with the letters PTWO, version 2 and the target. */
  lemma HeaderLayout(u: Utf8, target: string)
    requires StringFits(u, target)
    ensures var b := EncodeHeader(u, target);
      && |b| >= 6 && b[..4] == [0x50, 0x54, 0x57, 0x4F] && Stands(b, 4, 2, 2)
      && StringLaid(u, b, 6, target) && |b| == 8 + |u.encode(target)|
  {
    WordSizes();
    var s := EncodeString(u, target);
    LeStands(WORKER_MAGIC, VERSION_2, 2, s);
    assert WORKER_MAGIC + (LeBytes(VERSION_2, 2) + ([] + s)) == EncodeHeader(u, target);
    NameBehind(u, WORKER_MAGIC, LeBytes(VERSION_2, 2), [], target);
    hide LeBytes, EncodeString, StringLaid, Stands;
  }

  // ---- What a reader refuses

  lemma FixedRead(widths: seq<nat>, input: bytes)
    requires (forall i :: 0 <= i < |widths| ==> widths[i] == 1 || widths[i] == 4 || widths[i] == 8) && |input| >= Size(widths)
    ensures ReadFixed(widths, input) == Got(DecodeFields(widths, input[..Size(widths)]), input[Size(widths)..])
  {
    hide DecodeFields, Largest, Size;
  }

  lemma FieldRead(widths: seq<nat>, input: bytes, k: nat)
    requires (forall i :: 0 <= i < |widths| ==> widths[i] == 1 || widths[i] == 4 || widths[i] == 8) && k < |widths| && |input| >= Size(widths)
    ensures Offset(widths, k) + widths[k] <= Size(widths)
    ensures ReadFixed(widths, input).Got? && ReadFixed(widths, input).value[k] == ValueAt(input, Offset(widths, k), widths[k])
    ensures ReadFixed(widths, input).rest == input[Size(widths)..]
  {
    var b := input[..Size(widths)];
    FixedRead(widths, input);
    hide Offset, DecodeFields, ReadFixed, ValueAt, Size;
    FieldAt(widths, b, k);
    ValueWithin([], b, input[Size(widths)..], Offset(widths, k), widths[k]);
    assert [] + (b + input[Size(widths)..]) == input;
  }

  /** The header is refused for its letters first, and then for a version other than 1 and 2. */
  lemma HeaderRefusals(u: Utf8, b: bytes)
    ensures |b| >= 4 && b[..4] != [0x50, 0x54, 0x57, 0x4F] ==> ReadHeader(u, b) == Bad(InvalidMagic)
    ensures |b| >= 6 && b[..4] == [0x50, 0x54, 0x57, 0x4F] && ValueAt(b, 4, 2) != 1 && ValueAt(b, 4, 2) != 2 ==>
      ReadHeader(u, b).Bad? && ReadHeader(u, b).error.UnsupportedVersion? && ReadHeader(u, b).error.version == ValueAt(b, 4, 2)
  {
    hide LeValue;
    if |b| >= 6 {
      assert b[4..][..2] == b[4..6];
    }
  }

  lemma FileRefused(u: Utf8, version: u16, c: bytes)
    requires |c| >= 57 && c[16] > 1
    ensures ReadFileRecord(u, version, c) == Bad(InvalidBooleanTag(c[16]))
  {
    hide DecodeFields, Offset, Size, Largest, ReadFileEvidence, ReadString;
    FileOffsets();
    FieldRead(FILE_WIDTHS, c, 3);
    BytesValue(c, 16);
  }

  lemma TerminalRefused(c: bytes)
    requires |c| >= 45 && c[0] > 2
    ensures ReadTerminal(c) == Bad(InvalidOutcome(c[0]))
  {
    hide DecodeFields, Offset, Size, Largest;
    TerminalOffsets();
    FieldRead(TERMINAL_WIDTHS, c, 0);
    BytesValue(c, 0);
  }

  lemma StreamRefused(u: Utf8, c: bytes)
    requires |c| >= 13 && c[12] > 1
    ensures ReadStreamRecord(u, c) == Bad(InvalidBooleanTag(c[12]))
  {
    hide DecodeFields, Offset, Size, Largest, ReadString;
    StreamOffsets();
    FieldRead(STREAM_WIDTHS, c, 2);
    BytesValue(c, 12);
  }

  /** An unknown record type, outcome or flag is refused under its own name, at the place where it stands. */
  lemma FixedRefusals(u: Utf8, version: u16, b: bytes)
    requires b != []
    ensures b[0] == 0 || b[0] > 6 ==> ReadRecord(u, version, b) == Bad(InvalidRecordTag(b[0]))
    ensures b[0] == 2 && |b| >= 58 && b[17] > 1 ==> ReadRecord(u, version, b) == Bad(InvalidBooleanTag(b[17]))
    ensures b[0] == 5 && |b| >= 46 && b[1] > 2 ==> ReadRecord(u, version, b) == Bad(InvalidOutcome(b[1]))
    ensures b[0] == 6 && |b| >= 14 && b[13] > 1 ==> ReadRecord(u, version, b) == Bad(InvalidBooleanTag(b[13]))
  {
    hide ReadFileRecord, ReadTerminal, ReadStreamRecord, ReadDirectory, ReadSpecial, ReadGap;
    var c := b[1..];
    if b[0] == 2 && |b| >= 58 && b[17] > 1 {
      FileRefused(u, version, c);
    } else if b[0] == 5 && |b| >= 46 && b[1] > 2 {
      TerminalRefused(c);
    } else if b[0] == 6 && |b| >= 14 && b[13] > 1 {
      StreamRefused(u, c);
    }
  }

  /** The same for the flags and link counts of version 2 evidence. */
  lemma EvidenceRefusals(b: bytes)
    ensures |b| >= 9 && b[0] > 1 ==> ReadAllocation(b) == Bad(InvalidBooleanTag(b[0]))
    ensures |b| >= 1 && b[0] > 1 ==> ReadIdentity(b) == Bad(InvalidBooleanTag(b[0]))
    ensures |b| >= 5 && b[0] > 3 ==> ReadLink(b) == Bad(InvalidValueKnowledgeTag(b[0]))
  {
  }
}
