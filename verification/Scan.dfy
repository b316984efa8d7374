/** The abstract builder: the accepted part of an observation stream, and the verdict on the next record. */
module Scan {
  import opened Words
  import opened Observation
  import opened Graph
  import opened Objects
  import opened Accounting
  import opened Ingest

  /** What has been accepted so far, in arrival order. */
  datatype Scan = Scan(nodes: seq<Record>, gaps: seq<Gap>, streams: seq<Record>, terminal: Option<Terminal>)

  const EMPTY_SCAN := Scan([], [], [], None)

  ghost predicate WellTyped(s: Scan) {
    && (forall i :: 0 <= i < |s.nodes| ==> s.nodes[i].IsEntry())
    && (forall i :: 0 <= i < |s.streams| ==> s.streams[i].StreamRecord?)
  }

  function KindOf(r: Record): EntryKind
    requires r.IsEntry()
  {
    if r.DirectoryRecord? then EntryKind.Directory else if r.FileRecord? then EntryKind.File else EntryKind.Special
  }

  /** The compact entry a record is stored as. */
  function EntryOf(r: Record): CompactEntry
    requires r.IsEntry()
  {
    match r
    case DirectoryRecord(id, parentId, name, meta, _, alloc, _) =>
      CompactEntry(id, parentId, name, EntryKind.Directory, true, None, alloc, alloc.GetOr(0), alloc.GetOr(0), alloc.GetOr(0),
                   NO_OBJECT, 0, 0, meta)
    case FileRecord(id, parentId, name, meta, _, alloc, _, logical) =>
      CompactEntry(id, parentId, name, EntryKind.File, alloc.Some?, Some(logical), alloc, alloc.GetOr(0), alloc.GetOr(0), alloc.GetOr(0),
                   NO_OBJECT, 0, 0, meta)
    case SpecialRecord(id, parentId, name, meta, _) =>
      CompactEntry(id, parentId, name, EntryKind.Special, false, None, None, 0, 0, 0, NO_OBJECT, 0, 0, meta)
  }

  function BreakdownOf(r: Record): StreamBreakdown
    requires r.StreamRecord?
  {
    StreamBreakdown(r.streamName, r.streamLogicalSize, r.streamAllocatedSize)
  }

  function SelfOf(r: Record): u64 {
    if r.DirectoryRecord? then r.allocatedSize.GetOr(0) else 0
  }

  ghost predicate AllEntries(nodes: seq<Record>) {
    forall i :: 0 <= i < |nodes| ==> nodes[i].IsEntry()
  }

  function EntriesOf(nodes: seq<Record>): (r: seq<CompactEntry>)
    requires forall i :: 0 <= i < |nodes| ==> nodes[i].IsEntry()
    ensures |r| == |nodes| && forall i :: 0 <= i < |nodes| ==> r[i] == EntryOf(nodes[i])
  {
    seq(|nodes|, i requires 0 <= i < |nodes| => EntryOf(nodes[i]))
  }

  function SelfsOf(nodes: seq<Record>): (r: seq<u64>)
    ensures |r| == |nodes| && forall i :: 0 <= i < |nodes| ==> r[i] == SelfOf(nodes[i])
  {
    seq(|nodes|, i requires 0 <= i < |nodes| => SelfOf(nodes[i]))
  }

  function IdOf(r: Record): u32
    requires r.IsEntry()
  {
    r.entryId
  }

  function NodeIds(nodes: seq<Record>): (r: seq<u32>)
    requires forall i :: 0 <= i < |nodes| ==> nodes[i].IsEntry()
    ensures |r| == |nodes| && forall i :: 0 <= i < |nodes| ==> r[i] == IdOf(nodes[i])
  {
    seq(|nodes|, i requires 0 <= i < |nodes| => IdOf(nodes[i]))
  }

  ghost function FactsOf(nodes: seq<Record>): (f: Facts)
    ensures |f.ident| == |f.link| == |f.dirIdent| == |nodes|
    ensures forall i :: 0 <= i < |nodes| ==>
      && f.ident[i] == (if nodes[i].FileRecord? then nodes[i].objectId else None)
      && f.link[i] == (if nodes[i].FileRecord? then nodes[i].linkCount else NotObserved)
      && f.dirIdent[i] == (if nodes[i].DirectoryRecord? then nodes[i].objectId else None)
  {
    Facts(
      seq(|nodes|, i requires 0 <= i < |nodes| => if nodes[i].FileRecord? then nodes[i].objectId else None),
      seq(|nodes|, i requires 0 <= i < |nodes| => if nodes[i].FileRecord? then nodes[i].linkCount else NotObserved),
      seq(|nodes|, i requires 0 <= i < |nodes| => if nodes[i].DirectoryRecord? then nodes[i].objectId else None))
  }

  // ---- Aggregates of the stream

  function IsDir(r: Record): nat { if r.DirectoryRecord? then 1 else 0 }

  function IsFile(r: Record): nat { if r.FileRecord? then 1 else 0 }

  function LogicalBytes(r: Record): nat { if r.FileRecord? then r.logicalSize else 0 }

  function AllocatedBytes(r: Record): nat {
    if r.DirectoryRecord? || r.FileRecord? then r.allocatedSize.GetOr(0) else 0
  }

  /** The sum of a quantity over the records. */
  function Total(nodes: seq<Record>, q: Record -> nat): nat {
    if nodes == [] then 0 else Total(nodes[..|nodes| - 1], q) + q(nodes[|nodes| - 1])
  }

  lemma TotalAppend(nodes: seq<Record>, r: Record, q: Record -> nat)
    ensures Total(nodes + [r], q) == Total(nodes, q) + q(r)
  {
    assert (nodes + [r])[..|nodes|] == nodes;
  }

  lemma {:induction false} CountBound(nodes: seq<Record>)
    ensures Total(nodes, IsDir) + Total(nodes, IsFile) <= |nodes|
    decreases |nodes|
  {
    if nodes != [] {
      CountBound(nodes[..|nodes| - 1]);
    }
  }

  /** The first disagreement between a terminal record and the given totals. */
  function CompareTotals(t: Terminal, dirs: u64, files: u64, logical: u64, alloc: u64, gaps: nat): Option<BuildError> {
    if t.totalDirectories != dirs then Some(AggregateMismatch("total_directories", t.totalDirectories, dirs))
    else if t.totalFiles != files then Some(AggregateMismatch("total_files", t.totalFiles, files))
    else if t.totalLogicalBytes != logical then Some(AggregateMismatch("total_logical_bytes", t.totalLogicalBytes, logical))
    else if t.totalAllocatedBytes != alloc then Some(AggregateMismatch("total_allocated_bytes", t.totalAllocatedBytes, alloc))
    else if t.coverageGapCount != gaps % (U32_MAX + 1) then
      Some(AggregateMismatch("coverage_gap_count", t.coverageGapCount, gaps % TWO_64))
    else None
  }

  /** The declared and the counted totals, in the order in which they are compared. */
  function TotalsCompared(t: Terminal, dirs: u64, files: u64, logical: u64, alloc: u64, gaps: nat): seq<(string, nat, nat)> {
    [("total_directories", t.totalDirectories, dirs), ("total_files", t.totalFiles, files),
     ("total_logical_bytes", t.totalLogicalBytes, logical), ("total_allocated_bytes", t.totalAllocatedBytes, alloc),
     ("coverage_gap_count", t.coverageGapCount, gaps % (U32_MAX + 1))]
  }

  /** No error if all totals agree; otherwise the error names the first one that does not. */
  ghost predicate FirstDisagreement(totals: seq<(string, nat, nat)>, err: Option<BuildError>) {
    && (err.None? <==> forall i :: 0 <= i < |totals| ==> totals[i].1 == totals[i].2)
    && (err.Some? ==> exists i :: 0 <= i < |totals| && NamedFirst(totals, i, err.value))
  }

  ghost predicate NamedFirst(totals: seq<(string, nat, nat)>, i: nat, err: BuildError)
    requires i < |totals|
  {
    && totals[i].1 != totals[i].2 && (forall j :: 0 <= j < i ==> totals[j].1 == totals[j].2)
    && err.AggregateMismatch? && err.field == totals[i].0 && err.expected == totals[i].1
  }

  lemma ComparisonMeaning(t: Terminal, dirs: u64, files: u64, logical: u64, alloc: u64, gaps: nat)
    ensures FirstDisagreement(TotalsCompared(t, dirs, files, logical, alloc, gaps), CompareTotals(t, dirs, files, logical, alloc, gaps))
  {
    var totals, err := TotalsCompared(t, dirs, files, logical, alloc, gaps), CompareTotals(t, dirs, files, logical, alloc, gaps);
    if totals[0].1 != totals[0].2 {
      assert NamedFirst(totals, 0, err.value);
    } else if totals[1].1 != totals[1].2 {
      assert NamedFirst(totals, 1, err.value);
    } else if totals[2].1 != totals[2].2 {
      assert NamedFirst(totals, 2, err.value);
    } else if totals[3].1 != totals[3].2 {
      assert NamedFirst(totals, 3, err.value);
    } else if totals[4].1 != totals[4].2 {
      assert NamedFirst(totals, 4, err.value);
    }
  }

  function CheckTerminal(s: Scan, t: Terminal): Option<BuildError>
    requires |s.nodes| <= U32_MAX
  {
    CountBound(s.nodes);
    CompareTotals(t, Total(s.nodes, IsDir), Total(s.nodes, IsFile),
                  Min(Total(s.nodes, LogicalBytes), U64_MAX), Min(Total(s.nodes, AllocatedBytes), U64_MAX), |s.gaps|)
  }

  /** The next state and the error, if any: a rejected record changes nothing. */
  function Step(s: Scan, r: Record): (Scan, Option<BuildError>)
    requires WellTyped(s) && |s.nodes| <= U32_MAX
  {
    if s.terminal.Some? then (s, Some(RecordAfterTerminal))
    else if r.IsEntry() then
      var err := CheckEntry(NodeIds(s.nodes), EntriesOf(s.nodes), r.entryId, r.parentId, KindOf(r));
      if err.Some? then (s, err) else (s.(nodes := s.nodes + [r]), None)
    else match r
      case StreamRecord(parentEntryId, _, _, _) =>
        if IndexOf(NodeIds(s.nodes), parentEntryId) < 0 then (s, Some(UnknownStreamParent(parentEntryId)))
        else (s.(streams := s.streams + [r]), None)
      case GapRecord(gap) => (s.(gaps := s.gaps + [gap]), None)
      case TerminalRecord(t) =>
        var err := CheckTerminal(s, t);
        if err.Some? then (s, err) else (s.(terminal := Some(t)), None)
  }

  lemma StepKeepsTypes(s: Scan, r: Record)
    requires WellTyped(s) && |s.nodes| <= U32_MAX
    ensures WellTyped(Step(s, r).0) && (Step(s, r).0.nodes == s.nodes || (r.IsEntry() && Step(s, r).0.nodes == s.nodes + [r]))
    ensures r.IsEntry() && Step(s, r).1.None? ==> Step(s, r).0.nodes == s.nodes + [r]
  {
  }

  /** The state after a sequence of records, and the first error, which ends the run. */
  ghost function Run(records: seq<Record>): (r: (Scan, Option<BuildError>))
    requires |records| <= U32_MAX
    ensures WellTyped(r.0) && |r.0.nodes| <= |records|
  {
    if records == [] then (EMPTY_SCAN, None)
    else
      var (s, err) := Run(records[..|records| - 1]);
      if err.Some? then (s, err)
      else
        StepKeepsTypes(s, records[|records| - 1]);
        Step(s, records[|records| - 1])
  }

  ghost predicate Accepted(records: seq<Record>)
    requires |records| <= U32_MAX
  {
    Run(records).1.None?
  }

  lemma RunStep(records: seq<Record>, r: Record)
    requires |records| < U32_MAX && Accepted(records)
    ensures Run(records + [r]) == Step(Run(records).0, r)
  {
    assert (records + [r])[..|records|] == records;
  }

  /** An error, once met, is the outcome whatever follows. */
  lemma {:induction false} RunStuck(records: seq<Record>, more: seq<Record>)
    requires |records + more| <= U32_MAX && !Accepted(records)
    ensures Run(records + more) == Run(records)
    decreases |more|
  {
    if more == [] {
      assert records + more == records;
    } else {
      var rest := more[..|more| - 1];
      assert (records + more)[..|records + more| - 1] == records + rest;
      RunStuck(records, rest);
    }
  }

  /** Every entry arrives with the id that follows the accepted ones. */
  ghost predicate InSequence(records: seq<Record>)
    requires |records| <= U32_MAX
  {
    forall i :: 0 <= i < |records| && records[i].IsEntry() ==> IdOf(records[i]) == |Run(records[..i]).0.nodes| + 1
  }

  /** A progress event: its sequence number and the counters at that point. */
  datatype Pulse = Pulse(
    sequenceNumber: nat,
    directories: u64,
    files: u64,
    logicalBytes: u64,
    allocatedBytes: u64,
    gaps: u32)

  ghost function PulseOf(s: Scan, sequenceNumber: nat): Pulse
    requires |s.nodes| <= U32_MAX
  {
    CountBound(s.nodes);
    Pulse(sequenceNumber, Total(s.nodes, IsDir), Total(s.nodes, IsFile),
          Min(Total(s.nodes, LogicalBytes), U64_MAX), Min(Total(s.nodes, AllocatedBytes), U64_MAX), |s.gaps| % (U32_MAX + 1))
  }

  lemma IngestedEntries(nodes: seq<Record>)
    requires AllEntries(nodes)
    ensures FactsOk(EntriesOf(nodes), FactsOf(nodes)) && AllIngested(EntriesOf(nodes))
  {
  }
}
