/** The batched enumeration buffer of one directory: a chain of variable-length records, each naming the
    distance to the next, parsed into facts or rejected as a whole. */
module Enumeration {
  import opened Words
  import opened Observation
  import opened Wire
  import opened Calendar
  import opened FileSystem

  const OFF_CREATION := 8
  const OFF_LAST_ACCESS := 16
  const OFF_LAST_WRITE := 24
  const OFF_EOF := 40
  const OFF_ALLOC := 48
  const OFF_ATTRS := 56
  const OFF_NAME_LEN := 60
  const OFF_REPARSE_TAG := 68
  const OFF_FILE_ID := 72
  const OFF_NAME := 88
  const MIN_RECORD := 88

  /** 100-nanosecond intervals from 1601-01-01 to 1970-01-01. */
  const EPOCH_DIFFERENCE: int := 116_444_736_000_000_000
  const TWO_63: int := 0x8000_0000_0000_0000

  type i64 = x: int | -TWO_63 <= x < TWO_63

  /** The identity evidence and hard-link capability of the scanned volume. */
  datatype Volume = Volume(guid: Option<Guid>, hardlinkCapable: bool) {
    function Identity(fileId: u128): Option<ObjectIdentity> {
      if guid.Some? then Some(ObjectIdentity(guid.value, fileId)) else None
    }

    function LinkKnowledge(): ValueKnowledge {
      if hardlinkCapable then NotObserved else NotApplicable
    }
  }

  // ---- Reading fields

  function U32At(buf: bytes, off: nat): u32
    requires off + 4 <= |buf|
  {
    WordSizes();
    ValueAt(buf, off, 4)
  }

  /** `u64 as i64`. */
  function Signed(v: u64): i64 {
    if v < TWO_63 then v else v - TWO_64
  }

  function I64At(buf: bytes, off: nat): i64
    requires off + 8 <= |buf|
  {
    WordSizes();
    Signed(ValueAt(buf, off, 8))
  }

  function U128At(buf: bytes, off: nat): u128
    requires off + 16 <= |buf|
  {
    WordSizes();
    ValueAt(buf, off, 16)
  }

  function Units(b: bytes): (r: seq<u16>)
    requires |b| % 2 == 0
    ensures 2 * |r| == |b|
  {
    if b == [] then []
    else
      WordSizes();
      [LeValue(b[..2])] + Units(b[2..])
  }

  function UnixMs(ft: i64): u64 {
    if ft > EPOCH_DIFFERENCE then (ft - EPOCH_DIFFERENCE) / 10_000 else 0
  }

  /** The days of the years from `from` until `until`. */
  function DaysBetween(from: int, until: int): nat
    decreases until - from
  {
    if until <= from then 0 else DaysBetween(from, until - 1) + (if IsLeap(until - 1) then 366 else 365)
  }

  lemma {:induction false} DaysFormula(until: int)
    requires until >= 1601
    ensures DaysBetween(1601, until) == 365 * (until - 1601) + ((until - 1) / 4 - (until - 1) / 100 + (until - 1) / 400) - 388
    decreases until
  {
    if until > 1601 {
      DaysFormula(until - 1);
      FullSteps(until - 1);
      hide IsLeap;
      assert DaysBetween(1601, until) == DaysBetween(1601, until - 1) + (if IsLeap(until - 1) then 366 else 365);
    }
  }

  /** The full multiples up to a year grow exactly at the multiples. */
  lemma FullSteps(y: int)
    ensures y / 4 - y / 100 + y / 400 == (y - 1) / 4 - (y - 1) / 100 + (y - 1) / 400 + if IsLeap(y) then 1 else 0
  {
    Multiple(y, 4);
    Multiple(y, 100);
    Multiple(y, 400);
  }

  lemma Multiple(y: int, k: int)
    requires k == 4 || k == 100 || k == 400
    ensures y / k == (y - 1) / k + if y % k == 0 then 1 else 0
  {
  }

  /** A file time counts intervals of 100 nanoseconds from 1601; it becomes the whole milliseconds since 1970, or zero before. */
  lemma UnixMsMeaning(ft: i64)
    ensures var epoch := DaysBetween(1601, 1970) * 86_400 * 10_000_000;
      if ft <= epoch then UnixMs(ft) == 0 else epoch + 10_000 * UnixMs(ft) <= ft < epoch + 10_000 * (UnixMs(ft) + 1)
  {
    EpochDays();
    hide DaysBetween;
  }

  lemma EpochDays()
    ensures DaysBetween(1601, 1970) == 134_774
  {
    DaysFormula(1970);
  }

  // ---- One record

  /** The distance to the next record. */
  function NextOf(buf: bytes, off: nat): u32
    requires off + MIN_RECORD <= |buf|
  {
    U32At(buf, off)
  }

  function NameLength(buf: bytes, off: nat): u32
    requires off + MIN_RECORD <= |buf|
  {
    U32At(buf, off + OFF_NAME_LEN)
  }

  function NameEnd(buf: bytes, off: nat): nat
    requires off + MIN_RECORD <= |buf|
  {
    off + OFF_NAME + NameLength(buf, off)
  }

  /** The record at `off` ends where the next one starts, or at the end of the buffer. */
  function RecordEnd(buf: bytes, off: nat): nat
    requires off + MIN_RECORD <= |buf|
  {
    if NextOf(buf, off) != 0 then off + NextOf(buf, off) else |buf|
  }

  /** A record whose successor is aligned and inside the buffer, and whose name lies inside the record. */
  predicate RecordOk(buf: bytes, off: nat) {
    && off + MIN_RECORD <= |buf|
    && (NextOf(buf, off) != 0 ==> NextOf(buf, off) >= MIN_RECORD && NextOf(buf, off) % 8 == 0 && RecordEnd(buf, off) <= |buf|)
    && NameLength(buf, off) != 0 && NameLength(buf, off) % 2 == 0
    && NameEnd(buf, off) <= RecordEnd(buf, off)
  }

  /** What a record has to meet, read off the bytes: the distance to the next record at 0 and the name length at 60. */
  lemma RecordOkMeaning(buf: bytes, off: nat)
    requires off + 88 <= |buf|
    ensures var next := FourBytes(buf[off], buf[off + 1], buf[off + 2], buf[off + 3]);
      var name := FourBytes(buf[off + 60], buf[off + 61], buf[off + 62], buf[off + 63]);
      var end := if next == 0 then |buf| else off + next;
      RecordOk(buf, off) <==>
        (next == 0 || (88 <= next && next % 8 == 0)) && end <= |buf| && name != 0 && name % 2 == 0 && off + 88 + name <= end
  {
    FourBytesValue(buf, off);
    FourBytesValue(buf, off + 60);
    hide ValueAt;
  }

  function FactAt(utf16: seq<u16> -> string, volume: Volume, buf: bytes, off: nat): Fact
    requires RecordOk(buf, off)
  {
    var attrs, alloc := U32At(buf, off + OFF_ATTRS), I64At(buf, off + OFF_ALLOC);
    var reparse := if HasBit(attrs, FILE_ATTRIBUTE_REPARSE_POINT) then U32At(buf, off + OFF_REPARSE_TAG) else 0;
    Fact(
      utf16(Units(buf[off + OFF_NAME..NameEnd(buf, off)])),
      Meta(attrs, reparse, UnixMs(I64At(buf, off + OFF_CREATION)), UnixMs(I64At(buf, off + OFF_LAST_WRITE)),
           UnixMs(I64At(buf, off + OFF_LAST_ACCESS))),
      volume.Identity(U128At(buf, off + OFF_FILE_ID)),
      if alloc >= 0 then Some(alloc) else None,
      volume.LinkKnowledge(),
      if I64At(buf, off + OFF_EOF) >= 0 then I64At(buf, off + OFF_EOF) else 0)
  }

  // ---- The chain

  /** The record at `a` is followed by one at `b`. */
  predicate FollowedBy(buf: bytes, a: nat, b: nat)
    requires a + MIN_RECORD <= |buf|
  {
    NextOf(buf, a) != 0 && b == RecordEnd(buf, a)
  }

  /** `offs` are the record offsets of a complete chain from `start`. */
  ghost predicate Chain(buf: bytes, start: nat, offs: seq<nat>) {
    && offs != [] && offs[0] == start
    && (forall i :: 0 <= i < |offs| ==> RecordOk(buf, offs[i]))
    && (forall i, j :: 0 <= i && j == i + 1 && j < |offs| ==> FollowedBy(buf, offs[i], offs[j]))
    && NextOf(buf, offs[|offs| - 1]) == 0
  }

  /** The offsets met by following the distances from `off`, if nothing is malformed. */
  ghost function Follow(buf: bytes, off: nat): Option<seq<nat>>
    decreases |buf| - off
  {
    if !RecordOk(buf, off) then None
    else if NextOf(buf, off) == 0 then Some([off])
    else
      var rest := Follow(buf, RecordEnd(buf, off));
      if rest.None? then None else Some([off] + rest.value)
  }

  lemma ChainTail(buf: bytes, off: nat, offs: seq<nat>)
    requires Chain(buf, off, offs)
    ensures RecordOk(buf, off)
    ensures if NextOf(buf, off) == 0 then offs == [off] else Chain(buf, RecordEnd(buf, off), offs[1..]) && offs == [off] + offs[1..]
  {
    hide NextOf, RecordEnd;
    if |offs| > 1 {
      assert FollowedBy(buf, offs[0], offs[1]);
      var rest := offs[1..];
      forall i, j | 0 <= i && j == i + 1 && j < |rest|
        ensures FollowedBy(buf, rest[i], rest[j])
      {
        assert FollowedBy(buf, offs[i + 1], offs[j + 1]);
      }
    }
  }

  lemma ChainCons(buf: bytes, off: nat, rest: seq<nat>)
    requires RecordOk(buf, off) && NextOf(buf, off) != 0 && Chain(buf, RecordEnd(buf, off), rest)
    ensures Chain(buf, off, [off] + rest)
  {
    hide NextOf, RecordEnd;
    var offs := [off] + rest;
    forall i, j | 0 <= i && j == i + 1 && j < |offs|
      ensures FollowedBy(buf, offs[i], offs[j])
    {
      if i > 0 {
        assert FollowedBy(buf, rest[i - 1], rest[j - 1]);
      }
    }
  }

  /** Following succeeds exactly on complete chains, and there is only one. */
  lemma {:induction false} FollowIsChain(buf: bytes, off: nat, offs: seq<nat>)
    ensures Follow(buf, off) == Some(offs) <==> Chain(buf, off, offs)
    decreases |buf| - off
  {
    if Chain(buf, off, offs) {
      ChainTail(buf, off, offs);
      if NextOf(buf, off) != 0 {
        NextAdvances(buf, off);
        FollowIsChain(buf, RecordEnd(buf, off), offs[1..]);
      }
    }
    if Follow(buf, off) == Some(offs) && NextOf(buf, off) != 0 {
      NextAdvances(buf, off);
      var rest := Follow(buf, RecordEnd(buf, off)).value;
      FollowIsChain(buf, RecordEnd(buf, off), rest);
      ChainCons(buf, off, rest);
    }
  }

  lemma NextAdvances(buf: bytes, off: nat)
    requires RecordOk(buf, off)
    ensures NextOf(buf, off) != 0 ==> off + MIN_RECORD <= RecordEnd(buf, off) <= |buf|
  {
  }

  /** The records of a chain are disjoint, in order and inside the buffer, each name inside its own record. */
  lemma {:induction false} RecordsDisjoint(buf: bytes, start: nat, offs: seq<nat>, i: nat, j: nat)
    requires Chain(buf, start, offs) && i < j < |offs|
    ensures NameEnd(buf, offs[i]) <= RecordEnd(buf, offs[i]) <= offs[j] < NameEnd(buf, offs[j]) <= |buf|
    decreases j - i
  {
    if i + 1 < j {
      RecordsDisjoint(buf, start, offs, i + 1, j);
    }
  }

  ghost function FactsAt(utf16: seq<u16> -> string, volume: Volume, buf: bytes, offs: seq<nat>): (r: seq<Fact>)
    requires forall i :: 0 <= i < |offs| ==> RecordOk(buf, offs[i])
    ensures |r| == |offs| && forall i :: 0 <= i < |r| ==> r[i] == FactAt(utf16, volume, buf, offs[i])
  {
    seq(|offs|, i requires 0 <= i < |offs| => FactAt(utf16, volume, buf, offs[i]))
  }

  /** What a buffer says: nothing if it cannot hold a record, else the facts of its one complete chain. */
  ghost predicate Listing(utf16: seq<u16> -> string, volume: Volume, buf: bytes, r: Option<seq<Fact>>) {
    if |buf| < MIN_RECORD then r == Some([])
    else
      (r.Some? <==> exists offs :: Chain(buf, 0, offs))
      && forall offs :: Chain(buf, 0, offs) ==> r == Some(FactsAt(utf16, volume, buf, offs))
  }

  lemma ListingFollows(utf16: seq<u16> -> string, volume: Volume, buf: bytes)
    ensures |buf| < MIN_RECORD ==> Listing(utf16, volume, buf, Some([]))
    ensures |buf| >= MIN_RECORD && Follow(buf, 0).None? ==> Listing(utf16, volume, buf, None)
    ensures |buf| >= MIN_RECORD && Follow(buf, 0).Some? ==>
      Chain(buf, 0, Follow(buf, 0).value) && Listing(utf16, volume, buf, Some(FactsAt(utf16, volume, buf, Follow(buf, 0).value)))
  {
    forall offs
      ensures Follow(buf, 0) == Some(offs) <==> Chain(buf, 0, offs)
    {
      FollowIsChain(buf, 0, offs);
    }
  }

  ghost function After(done: seq<nat>, rest: Option<seq<nat>>): Option<seq<nat>> {
    if rest.None? then None else Some(done + rest.value)
  }

  /** The records at `done` have been turned into `facts`, and the chain goes on at `off`. */
  ghost predicate Progress(utf16: seq<u16> -> string, volume: Volume, buf: bytes, done: seq<nat>, facts: seq<Fact>, off: nat) {
    && (off == 0 ==> done == []) && (off > 0 ==> |buf| >= MIN_RECORD)
    && (forall i :: 0 <= i < |done| ==> RecordOk(buf, done[i]))
    && facts == FactsAt(utf16, volume, buf, done)
    && Follow(buf, 0) == After(done, Follow(buf, off))
  }

  lemma Start(utf16: seq<u16> -> string, volume: Volume, buf: bytes)
    ensures Progress(utf16, volume, buf, [], [], 0)
  {
    assert Follow(buf, 0).Some? ==> [] + Follow(buf, 0).value == Follow(buf, 0).value;
  }

  lemma Advance(utf16: seq<u16> -> string, volume: Volume, buf: bytes, done: seq<nat>, facts: seq<Fact>, off: nat)
    requires Progress(utf16, volume, buf, done, facts, off) && RecordOk(buf, off) && NextOf(buf, off) != 0
    ensures Progress(utf16, volume, buf, done + [off], facts + [FactAt(utf16, volume, buf, off)], RecordEnd(buf, off))
  {
    hide FactAt;
    var rest := Follow(buf, RecordEnd(buf, off));
    assert rest.Some? ==> done + ([off] + rest.value) == done + [off] + rest.value;
    assert facts + [FactAt(utf16, volume, buf, off)] == FactsAt(utf16, volume, buf, done + [off]);
  }

  lemma Complete(utf16: seq<u16> -> string, volume: Volume, buf: bytes, done: seq<nat>, facts: seq<Fact>, off: nat)
    requires Progress(utf16, volume, buf, done, facts, off) && RecordOk(buf, off) && NextOf(buf, off) == 0
    ensures Listing(utf16, volume, buf, Some(facts + [FactAt(utf16, volume, buf, off)]))
  {
    ListingFollows(utf16, volume, buf);
    hide FactAt, Listing, Chain;
    assert facts + [FactAt(utf16, volume, buf, off)] == FactsAt(utf16, volume, buf, done + [off]);
  }

  lemma Malformed(utf16: seq<u16> -> string, volume: Volume, buf: bytes, done: seq<nat>, facts: seq<Fact>, off: nat)
    requires Progress(utf16, volume, buf, done, facts, off) && !RecordOk(buf, off)
    ensures Listing(utf16, volume, buf, if off == 0 && off + MIN_RECORD > |buf| then Some([]) else None)
  {
    ListingFollows(utf16, volume, buf);
  }

  method ParseExtdEntries(utf16: seq<u16> -> string, volume: Volume, buf: bytes) returns (r: Option<seq<Fact>>)
    ensures Listing(utf16, volume, buf, r)
  {
    var facts: seq<Fact>, off := [], 0;
    ghost var done: seq<nat> := [];
    Start(utf16, volume, buf);
    hide Progress, Listing, FactAt;
    while true
      invariant off == 0 ==> facts == []
      invariant Progress(utf16, volume, buf, done, facts, off)
      decreases |buf| - off
    {
      if !RecordOk(buf, off) {
        Malformed(utf16, volume, buf, done, facts, off);
      }
      if off + MIN_RECORD > |buf| {
        return if off == 0 then Some(facts) else None;
      }
      var next := NextOf(buf, off);
      if next != 0 && (next < MIN_RECORD || next % 8 != 0 || off + next > |buf|) {
        return None;
      }
      var recordEnd := if next != 0 then off + next else |buf|;
      var nameLen := NameLength(buf, off);
      if nameLen == 0 || nameLen % 2 != 0 || off + OFF_NAME + nameLen > recordEnd {
        return None;
      }
      if next == 0 {
        Complete(utf16, volume, buf, done, facts, off);
      } else {
        Advance(utf16, volume, buf, done, facts, off);
      }
      facts := facts + [FactAt(utf16, volume, buf, off)];
      if next == 0 {
        return Some(facts);
      }
      off, done := recordEnd, done + [off];
    }
  }

  // ---- Truncated buffers

  lemma PrefixValue(buf: bytes, n: nat, off: nat, width: nat)
    requires n <= |buf| && off + width <= n
    ensures ValueAt(buf[..n], off, width) == ValueAt(buf, off, width)
  {
    assert buf[..n][off..off + width] == buf[off..off + width];
  }

  lemma PrefixFields(buf: bytes, n: nat, off: nat)
    requires n <= |buf| && off + MIN_RECORD <= n
    ensures NextOf(buf[..n], off) == NextOf(buf, off) && NameLength(buf[..n], off) == NameLength(buf, off)
  {
    PrefixValue(buf, n, off, 4);
    PrefixValue(buf, n, off + OFF_NAME_LEN, 4);
  }

  lemma PrefixNumbers(buf: bytes, n: nat, off: nat)
    requires n <= |buf| && off + MIN_RECORD <= n
    ensures I64At(buf[..n], off + OFF_CREATION) == I64At(buf, off + OFF_CREATION)
    ensures I64At(buf[..n], off + OFF_LAST_ACCESS) == I64At(buf, off + OFF_LAST_ACCESS)
    ensures I64At(buf[..n], off + OFF_LAST_WRITE) == I64At(buf, off + OFF_LAST_WRITE)
    ensures I64At(buf[..n], off + OFF_EOF) == I64At(buf, off + OFF_EOF)
    ensures I64At(buf[..n], off + OFF_ALLOC) == I64At(buf, off + OFF_ALLOC)
    ensures U32At(buf[..n], off + OFF_ATTRS) == U32At(buf, off + OFF_ATTRS)
    ensures U32At(buf[..n], off + OFF_REPARSE_TAG) == U32At(buf, off + OFF_REPARSE_TAG)
    ensures U128At(buf[..n], off + OFF_FILE_ID) == U128At(buf, off + OFF_FILE_ID)
  {
    hide ValueAt, Signed;
    PrefixValue(buf, n, off + OFF_CREATION, 8);
    PrefixValue(buf, n, off + OFF_LAST_ACCESS, 8);
    PrefixValue(buf, n, off + OFF_LAST_WRITE, 8);
    PrefixValue(buf, n, off + OFF_EOF, 8);
    PrefixValue(buf, n, off + OFF_ALLOC, 8);
    PrefixValue(buf, n, off + OFF_ATTRS, 4);
    PrefixValue(buf, n, off + OFF_REPARSE_TAG, 4);
    PrefixValue(buf, n, off + OFF_FILE_ID, 16);
  }

  lemma PrefixFact(utf16: seq<u16> -> string, volume: Volume, buf: bytes, n: nat, off: nat)
    requires n <= |buf| && RecordOk(buf, off) && RecordOk(buf[..n], off)
    ensures FactAt(utf16, volume, buf[..n], off) == FactAt(utf16, volume, buf, off)
  {
    hide U32At, I64At, U128At, Units, HasBit, UnixMs;
    PrefixFields(buf, n, off);
    PrefixNumbers(buf, n, off);
    assert buf[..n][off + OFF_NAME..NameEnd(buf, off)] == buf[off + OFF_NAME..NameEnd(buf, off)];
  }

  /** The chain of a buffer cut after `n` bytes: unchanged if the last name is still there, malformed otherwise. */
  lemma {:induction false} FollowPrefix(buf: bytes, n: nat, off: nat, offs: seq<nat>)
    requires n <= |buf| && Chain(buf, off, offs)
    ensures Follow(buf[..n], off) == if n < NameEnd(buf, offs[|offs| - 1]) then None else Some(offs)
    decreases |offs|
  {
    ChainTail(buf, off, offs);
    if |offs| > 1 {
      RecordsDisjoint(buf, off, offs, 0, |offs| - 1);
    }
    if off + MIN_RECORD <= n {
      PrefixFields(buf, n, off);
      if NextOf(buf, off) != 0 {
        FollowPrefix(buf, n, RecordEnd(buf, off), offs[1..]);
      }
    }
  }

  lemma PrefixFacts(utf16: seq<u16> -> string, volume: Volume, buf: bytes, n: nat, offs: seq<nat>)
    requires n <= |buf| && Chain(buf, 0, offs) && Chain(buf[..n], 0, offs)
    ensures FactsAt(utf16, volume, buf[..n], offs) == FactsAt(utf16, volume, buf, offs)
  {
    forall i | 0 <= i < |offs|
      ensures FactAt(utf16, volume, buf[..n], offs[i]) == FactAt(utf16, volume, buf, offs[i])
    {
      PrefixFact(utf16, volume, buf, n, offs[i]);
    }
  }

  lemma ListingOf(utf16: seq<u16> -> string, volume: Volume, buf: bytes, r: Option<seq<Fact>>)
    requires Listing(utf16, volume, buf, r) && |buf| >= MIN_RECORD
    ensures Follow(buf, 0).None? ==> r == None
    ensures Follow(buf, 0).Some? ==> Chain(buf, 0, Follow(buf, 0).value) && r == Some(FactsAt(utf16, volume, buf, Follow(buf, 0).value))
  {
    ListingFollows(utf16, volume, buf);
  }

  /** A truncated listing is never mistaken for a complete one, except that a buffer too short for any record
      reads as an empty directory. */
  lemma TruncatedListing(utf16: seq<u16> -> string, volume: Volume, buf: bytes, n: nat, offs: seq<nat>,
                         whole: Option<seq<Fact>>, cut: Option<seq<Fact>>)
    requires n <= |buf| && Chain(buf, 0, offs)
    requires Listing(utf16, volume, buf, whole) && Listing(utf16, volume, buf[..n], cut)
    ensures cut == if n < MIN_RECORD then Some([]) else if n < NameEnd(buf, offs[|offs| - 1]) then None else whole
  {
    if n >= MIN_RECORD {
      FollowIsChain(buf, 0, offs);
      FollowPrefix(buf, n, 0, offs);
      ListingOf(utf16, volume, buf, whole);
      ListingOf(utf16, volume, buf[..n], cut);
      if n >= NameEnd(buf, offs[|offs| - 1]) {
        PrefixFacts(utf16, volume, buf, n, offs);
      }
      hide *;
    }
  }

  // ---- Well-formed listings

  /** One entry as the file system lays it out; some fields are not used by the scan. */
  datatype RawEntry = RawEntry(
    fileIndex: u32, creation: i64, lastAccess: i64, lastWrite: i64, changeTime: i64, endOfFile: i64, allocation: i64,
    attributes: u32, eaSize: u32, reparseTag: u32, fileId: u128, name: seq<u16>)
  {
    function NameBytes(): nat { 2 * |name| }

    /** The record length: records start at multiples of 8. */
    function Length(): nat { (MIN_RECORD + NameBytes() + 7) / 8 * 8 }

    predicate Valid() { name != [] && Length() <= U32_MAX }
  }

  /** `i64 as u64`. */
  function Unsigned(x: i64): u64 {
    if x >= 0 then x else x + TWO_64
  }

  const HEADER_WIDTHS: seq<nat> := [4, 4, 8, 8, 8, 8, 8, 8, 4, 4, 4, 4, 16]

  function HeaderFields(e: RawEntry, next: u32): seq<Field>
    requires e.Valid()
  {
    [Field(next, 4), Field(e.fileIndex, 4), Field(Unsigned(e.creation), 8), Field(Unsigned(e.lastAccess), 8),
     Field(Unsigned(e.lastWrite), 8), Field(Unsigned(e.changeTime), 8), Field(Unsigned(e.endOfFile), 8),
     Field(Unsigned(e.allocation), 8), Field(e.attributes, 4), Field(e.NameBytes(), 4), Field(e.eaSize, 4),
     Field(e.reparseTag, 4), Field(e.fileId, 16)]
  }

  function UnitBytes(units: seq<u16>): (r: bytes)
    ensures |r| == 2 * |units|
  {
    if units == [] then [] else LeBytes(units[0], 2) + UnitBytes(units[1..])
  }

  lemma {:induction false} UnitsRoundTrip(units: seq<u16>)
    ensures Units(UnitBytes(units)) == units
    decreases |units|
  {
    if units != [] {
      UnitsRoundTrip(units[1..]);
      WordSizes();
      LeRoundTrip(units[0], 2);
      assert UnitBytes(units)[..2] == LeBytes(units[0], 2) && UnitBytes(units)[2..] == UnitBytes(units[1..]);
    }
  }

  function EncodeRecord(e: RawEntry, next: u32): bytes
    requires e.Valid()
  {
    EncodeFields(HeaderFields(e, next)) + UnitBytes(e.name)
  }

  /** The bytes up to the next record. */
  function Padding(e: RawEntry): (r: bytes)
    ensures |r| == e.Length() - MIN_RECORD - e.NameBytes()
  {
    seq(e.Length() - MIN_RECORD - e.NameBytes(), _ => 0)
  }

  /** The records of a directory, the last one followed by whatever the buffer held before. */
  function EncodeListing(es: seq<RawEntry>, slack: bytes): bytes
    requires es != [] && forall i :: 0 <= i < |es| ==> es[i].Valid()
  {
    if |es| == 1 then EncodeRecord(es[0], 0) + slack
    else
      var e := es[0];
      assert e.Valid();
      EncodeRecord(e, e.Length()) + Padding(e) + EncodeListing(es[1..], slack)
  }

  /** What a scan must learn about an entry: its name, attributes and times; the tag of a reparse point; its identity if the volume
      has one; sizes that are not negative; and that its link count was not asked for, or does not apply to the volume. */
  ghost predicate Learned(utf16: seq<u16> -> string, volume: Volume, e: RawEntry, f: Fact) {
    && f.name == utf16(e.name) && f.meta.fileAttributes == e.attributes
    && f.meta.reparseTag == (if AttributeSet(e.attributes, 0x400) then e.reparseTag else 0)
    && f.meta.creationTimeUtcMs == UnixMs(e.creation) && f.meta.lastWriteTimeUtcMs == UnixMs(e.lastWrite)
    && f.meta.lastAccessTimeUtcMs == UnixMs(e.lastAccess)
    && f.objectId == (if volume.guid.Some? then Some(ObjectIdentity(volume.guid.value, e.fileId)) else None)
    && f.allocatedSize == (if e.allocation >= 0 then Some(e.allocation) else None)
    && f.linkCount == (if volume.hardlinkCapable then NotObserved else NotApplicable)
    && f.logicalSize == (if e.endOfFile >= 0 then e.endOfFile else 0)
  }

  lemma HeaderOffsets()
    ensures Offset(HEADER_WIDTHS, 0) == 0 && Offset(HEADER_WIDTHS, 2) == OFF_CREATION && Offset(HEADER_WIDTHS, 3) == OFF_LAST_ACCESS
    ensures Offset(HEADER_WIDTHS, 4) == OFF_LAST_WRITE && Offset(HEADER_WIDTHS, 6) == OFF_EOF && Offset(HEADER_WIDTHS, 7) == OFF_ALLOC
    ensures Offset(HEADER_WIDTHS, 8) == OFF_ATTRS && Offset(HEADER_WIDTHS, 9) == OFF_NAME_LEN
    ensures Offset(HEADER_WIDTHS, 11) == OFF_REPARSE_TAG && Offset(HEADER_WIDTHS, 12) == OFF_FILE_ID
    ensures Offset(HEADER_WIDTHS, 13) == MIN_RECORD
  {
    assert Offset(HEADER_WIDTHS, 1) == 4;
    assert Offset(HEADER_WIDTHS, 2) == 8;
    assert Offset(HEADER_WIDTHS, 3) == 16;
    assert Offset(HEADER_WIDTHS, 4) == 24;
    assert Offset(HEADER_WIDTHS, 5) == 32;
    assert Offset(HEADER_WIDTHS, 6) == 40;
    assert Offset(HEADER_WIDTHS, 7) == 48;
    assert Offset(HEADER_WIDTHS, 8) == 56;
    assert Offset(HEADER_WIDTHS, 9) == 60;
    assert Offset(HEADER_WIDTHS, 10) == 64;
    assert Offset(HEADER_WIDTHS, 11) == 68;
    assert Offset(HEADER_WIDTHS, 12) == 72;
  }

  lemma HeaderAt(e: RawEntry, next: u32, k: nat)
    requires e.Valid() && k < |HEADER_WIDTHS|
    ensures |EncodeFields(HeaderFields(e, next))| == MIN_RECORD && Offset(HEADER_WIDTHS, k) + HEADER_WIDTHS[k] <= MIN_RECORD
    ensures ValueAt(EncodeFields(HeaderFields(e, next)), Offset(HEADER_WIDTHS, k), HEADER_WIDTHS[k]) == HeaderFields(e, next)[k].value
  {
    var fs := HeaderFields(e, next);
    WordSizes();
    assert Widths(fs) == HEADER_WIDTHS;
    FieldsRoundTrip(fs);
    SizeIsOffset(HEADER_WIDTHS);
    HeaderOffsets();
    FieldAt(HEADER_WIDTHS, EncodeFields(fs), k);
  }

  lemma HeaderNumbers(e: RawEntry, next: u32, header: bytes)
    requires e.Valid() && header == EncodeFields(HeaderFields(e, next))
    ensures |header| == MIN_RECORD
    ensures ValueAt(header, 0, 4) == next && ValueAt(header, OFF_NAME_LEN, 4) == e.NameBytes()
    ensures ValueAt(header, OFF_CREATION, 8) == Unsigned(e.creation) && ValueAt(header, OFF_LAST_ACCESS, 8) == Unsigned(e.lastAccess)
    ensures ValueAt(header, OFF_LAST_WRITE, 8) == Unsigned(e.lastWrite) && ValueAt(header, OFF_EOF, 8) == Unsigned(e.endOfFile)
    ensures ValueAt(header, OFF_ALLOC, 8) == Unsigned(e.allocation) && ValueAt(header, OFF_ATTRS, 4) == e.attributes
    ensures ValueAt(header, OFF_REPARSE_TAG, 4) == e.reparseTag && ValueAt(header, OFF_FILE_ID, 16) == e.fileId
  {
    hide EncodeFields, ValueAt;
    HeaderOffsets();
    hide Offset;
    HeaderAt(e, next, 0);
    HeaderAt(e, next, 2);
    HeaderAt(e, next, 3);
    HeaderAt(e, next, 4);
    HeaderAt(e, next, 6);
    HeaderAt(e, next, 7);
    HeaderAt(e, next, 8);
    HeaderAt(e, next, 9);
    HeaderAt(e, next, 11);
    HeaderAt(e, next, 12);
  }

  lemma ValueInside(pre: bytes, mid: bytes, post: bytes, off: nat, width: nat)
    requires off + width <= |mid|
    ensures ValueAt(pre + mid + post, |pre| + off, width) == ValueAt(mid, off, width)
  {
    assert (pre + mid + post)[|pre| + off..|pre| + off + width] == mid[off..off + width];
  }

  lemma RecordInside(pre: bytes, header: bytes, name: bytes, post: bytes, off: nat, width: nat)
    requires off + width <= |header|
    ensures ValueAt(pre + (header + name) + post, |pre| + off, width) == ValueAt(header, off, width)
  {
    ValueInside(pre, header, name + post, off, width);
    assert pre + (header + name) + post == pre + header + (name + post);
  }

  lemma LengthBounds(e: RawEntry)
    ensures MIN_RECORD + e.NameBytes() <= e.Length() && e.Length() % 8 == 0
  {
  }

  /** The record at the end of `pre` is the one laid out there. */
  ghost predicate Shows(buf: bytes, off: nat, e: RawEntry, next: u32) {
    && off + MIN_RECORD + e.NameBytes() <= |buf|
    && NextOf(buf, off) == next && NameLength(buf, off) == e.NameBytes()
    && I64At(buf, off + OFF_CREATION) == e.creation && I64At(buf, off + OFF_LAST_ACCESS) == e.lastAccess
    && I64At(buf, off + OFF_LAST_WRITE) == e.lastWrite && I64At(buf, off + OFF_EOF) == e.endOfFile
    && I64At(buf, off + OFF_ALLOC) == e.allocation && U32At(buf, off + OFF_ATTRS) == e.attributes
    && U32At(buf, off + OFF_REPARSE_TAG) == e.reparseTag && U128At(buf, off + OFF_FILE_ID) == e.fileId
    && Units(buf[off + OFF_NAME..off + OFF_NAME + e.NameBytes()]) == e.name
  }

  lemma RecordShown(pre: bytes, e: RawEntry, next: u32, post: bytes)
    requires e.Valid()
    ensures Shows(pre + EncodeRecord(e, next) + post, |pre|, e, next)
  {
    var header, name := EncodeFields(HeaderFields(e, next)), UnitBytes(e.name);
    assert EncodeRecord(e, next) == header + name;
    HeaderNumbers(e, next, header);
    NameShown(pre, e, next, post);
    hide ValueAt, EncodeRecord, Units, EncodeFields, HeaderFields, UnitBytes;
    RecordInside(pre, header, name, post, 0, 4);
    RecordInside(pre, header, name, post, OFF_CREATION, 8);
    RecordInside(pre, header, name, post, OFF_LAST_ACCESS, 8);
    RecordInside(pre, header, name, post, OFF_LAST_WRITE, 8);
    RecordInside(pre, header, name, post, OFF_EOF, 8);
    RecordInside(pre, header, name, post, OFF_ALLOC, 8);
    RecordInside(pre, header, name, post, OFF_ATTRS, 4);
    RecordInside(pre, header, name, post, OFF_NAME_LEN, 4);
    RecordInside(pre, header, name, post, OFF_REPARSE_TAG, 4);
    RecordInside(pre, header, name, post, OFF_FILE_ID, 16);
  }

  lemma NameShown(pre: bytes, e: RawEntry, next: u32, post: bytes)
    requires e.Valid()
    ensures |pre| + MIN_RECORD + e.NameBytes() + |post| == |pre + EncodeRecord(e, next) + post|
    ensures Units((pre + EncodeRecord(e, next) + post)[|pre| + OFF_NAME..|pre| + OFF_NAME + e.NameBytes()]) == e.name
  {
    HeaderAt(e, next, 0);
    var header := EncodeFields(HeaderFields(e, next));
    hide HeaderFields, EncodeFields, Units, UnitBytes;
    assert (pre + (header + UnitBytes(e.name)) + post)[|pre| + OFF_NAME..|pre| + OFF_NAME + e.NameBytes()] == UnitBytes(e.name);
    UnitsRoundTrip(e.name);
  }

  lemma ShownOk(buf: bytes, off: nat, e: RawEntry, next: u32)
    requires e.Valid() && Shows(buf, off, e, next)
    requires next == 0 || (next == e.Length() && off + next <= |buf|)
    ensures RecordOk(buf, off) && NextOf(buf, off) == next
  {
    hide U32At, I64At, U128At, Units;
    LengthBounds(e);
  }

  lemma ShownFact(utf16: seq<u16> -> string, volume: Volume, buf: bytes, off: nat, e: RawEntry, next: u32)
    requires Shows(buf, off, e, next) && RecordOk(buf, off)
    ensures Learned(utf16, volume, e, FactAt(utf16, volume, buf, off))
  {
    hide U32At, I64At, U128At, Units, HasBit, UnixMs, RecordEnd, NextOf, RecordOk, AttributeSet;
    BitTests(e.attributes);
  }

  ghost function Starts(es: seq<RawEntry>, off: nat): seq<nat> {
    if es == [] then [] else [off] + Starts(es[1..], off + es[0].Length())
  }

  /** The entries `es` are found at `offs`. */
  ghost predicate Understood(utf16: seq<u16> -> string, volume: Volume, buf: bytes, offs: seq<nat>, es: seq<RawEntry>) {
    && |offs| == |es|
    && forall i :: 0 <= i < |es| ==> RecordOk(buf, offs[i]) && Learned(utf16, volume, es[i], FactAt(utf16, volume, buf, offs[i]))
  }

  lemma UnderstoodCons(utf16: seq<u16> -> string, volume: Volume, buf: bytes, off: nat, offs: seq<nat>, e: RawEntry, es: seq<RawEntry>)
    requires RecordOk(buf, off) && Learned(utf16, volume, e, FactAt(utf16, volume, buf, off))
    requires Understood(utf16, volume, buf, offs, es)
    ensures Understood(utf16, volume, buf, [off] + offs, [e] + es)
  {
    hide RecordOk, FactAt, Learned;
  }

  lemma FollowNext(buf: bytes, off: nat, next: u32)
    requires RecordOk(buf, off) && NextOf(buf, off) == next
    ensures Follow(buf, off) == if next == 0 then Some([off]) else After([off], Follow(buf, off + next))
  {
  }

  lemma ShownInside(buf: bytes, off: nat, e: RawEntry, next: u32, post: bytes)
    requires e.Valid() && off <= |buf| && buf[off..] == EncodeRecord(e, next) + post
    ensures Shows(buf, off, e, next)
  {
    RecordShown(buf[..off], e, next, post);
    assert buf == buf[..off] + EncodeRecord(e, next) + post;
  }

  /** The first record of a listing, and the listing of the others behind it. */
  lemma ListingSplits(buf: bytes, off: nat, es: seq<RawEntry>, slack: bytes)
    requires |es| > 1 && es[0].Valid() && forall i :: 0 <= i < |es| ==> es[i].Valid()
    requires off <= |buf| && buf[off..] == EncodeListing(es, slack)
    ensures Shows(buf, off, es[0], es[0].Length())
    ensures off + es[0].Length() <= |buf| && buf[off + es[0].Length()..] == EncodeListing(es[1..], slack)
  {
    var e := es[0];
    RecordSize(e, e.Length());
    LengthBounds(e);
    hide Shows, EncodeRecord, RawEntry.Length;
    Regroup(buf, off, EncodeRecord(e, e.Length()), Padding(e), EncodeListing(es[1..], slack));
    hide EncodeListing;
    ShownInside(buf, off, e, e.Length(), Padding(e) + EncodeListing(es[1..], slack));
  }

  lemma Regroup(buf: bytes, off: nat, a: bytes, b: bytes, c: bytes)
    requires off <= |buf| && buf[off..] == a + b + c
    ensures buf[off..] == a + (b + c)
    ensures off + |a| + |b| <= |buf| && buf[off + |a| + |b|..] == c
  {
    assert a + b + c == a + (b + c);
    assert buf[off + |a| + |b|..] == buf[off..][|a| + |b|..];
  }

  lemma RecordSize(e: RawEntry, next: u32)
    requires e.Valid()
    ensures |EncodeRecord(e, next)| == MIN_RECORD + e.NameBytes()
  {
    HeaderNumbers(e, next, EncodeFields(HeaderFields(e, next)));
  }

  /** The entries `es` are the records of the chain that starts at `off`. */
  ghost predicate Laid(utf16: seq<u16> -> string, volume: Volume, buf: bytes, off: nat, es: seq<RawEntry>) {
    Follow(buf, off) == Some(Starts(es, off)) && Understood(utf16, volume, buf, Starts(es, off), es)
  }

  lemma LaidLast(utf16: seq<u16> -> string, volume: Volume, buf: bytes, off: nat, e: RawEntry)
    requires e.Valid() && Shows(buf, off, e, 0)
    ensures Laid(utf16, volume, buf, off, [e])
  {
    hide FactAt, Learned, RecordOk, NextOf, Shows, RawEntry.Length;
    ShownOk(buf, off, e, 0);
    ShownFact(utf16, volume, buf, off, e, 0);
    FollowNext(buf, off, 0);
    assert Starts([e], off) == [off] + Starts([], off + e.Length()) == [off];
  }

  lemma LaidMore(utf16: seq<u16> -> string, volume: Volume, buf: bytes, off: nat, e: RawEntry, es: seq<RawEntry>)
    requires e.Valid() && off + e.Length() <= |buf| && Shows(buf, off, e, e.Length())
    requires Laid(utf16, volume, buf, off + e.Length(), es)
    ensures Laid(utf16, volume, buf, off, [e] + es)
  {
    hide RawEntry.Length, FactAt, Learned, RecordOk, NextOf, Shows, Follow, Understood;
    LengthBounds(e);
    var next := e.Length();
    ShownOk(buf, off, e, next);
    ShownFact(utf16, volume, buf, off, e, next);
    FollowNext(buf, off, next);
    UnderstoodCons(utf16, volume, buf, off, Starts(es, off + next), e, es);
    assert ([e] + es)[1..] == es;
  }

  lemma {:induction false} ListingLaid(utf16: seq<u16> -> string, volume: Volume, buf: bytes, off: nat, es: seq<RawEntry>, slack: bytes)
    requires es != [] && es[0].Valid() && forall i :: 0 <= i < |es| ==> es[i].Valid()
    requires off <= |buf| && buf[off..] == EncodeListing(es, slack)
    ensures Laid(utf16, volume, buf, off, es)
    decreases |es|
  {
    hide Laid, Shows, EncodeRecord, RawEntry.Length, RawEntry.Valid;
    var e := es[0];
    if |es| == 1 {
      ShownInside(buf, off, e, 0, slack);
      LaidLast(utf16, volume, buf, off, e);
      assert es == [e];
    } else {
      ListingSplits(buf, off, es, slack);
      hide EncodeListing;
      ListingLaid(utf16, volume, buf, off + e.Length(), es[1..], slack);
      LaidMore(utf16, volume, buf, off, e, es[1..]);
      assert [e] + es[1..] == es;
    }
  }

  /** Every well-formed listing is understood in full: one fact per entry, in order. */
  lemma ListingRoundTrip(utf16: seq<u16> -> string, volume: Volume, es: seq<RawEntry>, slack: bytes, r: Option<seq<Fact>>)
    requires es != [] && forall i :: 0 <= i < |es| ==> es[i].Valid()
    requires Listing(utf16, volume, EncodeListing(es, slack), r)
    ensures r.Some? && |r.value| == |es| && forall i :: 0 <= i < |es| ==> Learned(utf16, volume, es[i], r.value[i])
  {
    var buf := EncodeListing(es, slack);
    ListingLaid(utf16, volume, buf, 0, es, slack);
    ListingOf(utf16, volume, buf, r);
    hide FactAt, Learned, EncodeListing, Starts;
  }
}
