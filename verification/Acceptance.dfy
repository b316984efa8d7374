/** Which observation streams the builder accepts, what it keeps of them, and what each error says, in terms of the records
    alone. */
module Acceptance {
  import opened Words
  import opened Observation
  import opened Graph
  import opened Ingest
  import opened Scan
  import opened Contents

  // ---- What is kept

  function EntriesIn(records: seq<Record>): (r: seq<Record>)
    ensures forall x :: 0 <= x < |r| ==> r[x].IsEntry()
  {
    if records == [] then []
    else
      var last := records[|records| - 1];
      EntriesIn(records[..|records| - 1]) + if last.IsEntry() then [last] else []
  }

  function StreamsIn(records: seq<Record>): seq<Record> {
    if records == [] then []
    else
      var last := records[|records| - 1];
      StreamsIn(records[..|records| - 1]) + if last.StreamRecord? then [last] else []
  }

  function GapsIn(records: seq<Record>): seq<Gap> {
    if records == [] then []
    else
      var last := records[|records| - 1];
      GapsIn(records[..|records| - 1]) + if last.GapRecord? then [last.gap] else []
  }

  /** An entry with the id occurs. */
  ghost predicate HasEntry(records: seq<Record>, id: u32) {
    exists i :: 0 <= i < |records| && records[i].IsEntry() && records[i].entryId == id
  }

  /** A directory with the id occurs. */
  ghost predicate HasDirectory(records: seq<Record>, id: u32) {
    exists i :: 0 <= i < |records| && records[i].DirectoryRecord? && records[i].entryId == id
  }

  ghost predicate HasTerminal(records: seq<Record>) {
    exists i :: 0 <= i < |records| && records[i].TerminalRecord?
  }

  // ---- What is accepted

  /** An entry fits behind `before`: the first one is the root directory, with id 1 and parent 0; every other one has a new id,
      is not its own parent and names an earlier directory, not 0, as its parent. */
  ghost predicate EntryFits(before: seq<Record>, r: Record)
    requires r.IsEntry()
  {
    if EntriesIn(before) == [] then r.DirectoryRecord? && r.entryId == 1 && r.parentId == 0
    else r.entryId != r.parentId && r.entryId != 1 && r.parentId != 0 && !HasEntry(before, r.entryId) && HasDirectory(before, r.parentId)
  }

  /** The totals of a terminal record are those of the records before it: exact counts of directories and files, byte sums cut
      off at the largest 64-bit number, and the number of gaps in 32 bits. */
  ghost predicate TotalsFit(before: seq<Record>, t: Terminal) {
    var nodes := EntriesIn(before);
    && t.totalDirectories == Total(nodes, IsDir) && t.totalFiles == Total(nodes, IsFile)
    && t.totalLogicalBytes == Min(Total(nodes, LogicalBytes), U64_MAX)
    && t.totalAllocatedBytes == Min(Total(nodes, AllocatedBytes), U64_MAX)
    && t.coverageGapCount == |GapsIn(before)| % 0x1_0000_0000
  }

  ghost predicate RecordFits(before: seq<Record>, r: Record) {
    && !HasTerminal(before)
    && match r
       case StreamRecord(parentEntryId, _, _, _) => HasEntry(before, parentEntryId)
       case GapRecord(_) => true
       case TerminalRecord(t) => TotalsFit(before, t)
       case _ => EntryFits(before, r)
  }

  // ---- The state of an accepted stream

  /** `s` holds what is kept of `records`. */
  ghost predicate Kept(records: seq<Record>, s: Scan) {
    && s.nodes == EntriesIn(records) && s.streams == StreamsIn(records) && s.gaps == GapsIn(records)
    && (s.terminal.Some? <==> HasTerminal(records))
    && (s.terminal.Some? ==> records != [] && records[|records| - 1] == TerminalRecord(s.terminal.value))
    && NoRepeats(NodeIds(s.nodes)) && (s.nodes != [] ==> s.nodes[0].entryId == 1)
  }

  ghost predicate DirectoryAmong(nodes: seq<Record>, id: u32) {
    exists x :: 0 <= x < |nodes| && nodes[x].DirectoryRecord? && nodes[x].entryId == id
  }

  lemma {:induction false} EntryAmong(records: seq<Record>, id: u32)
    ensures HasEntry(records, id) <==> id in NodeIds(EntriesIn(records))
    ensures HasDirectory(records, id) <==> DirectoryAmong(EntriesIn(records), id)
    decreases |records|
  {
    hide HasEntry, HasDirectory, DirectoryAmong;
    if records == [] {
      NoneAmong(id);
    } else {
      var n := |records| - 1;
      EntryAmong(records[..n], id);
      EntryOrLast(records, id);
      var before := EntriesIn(records[..n]);
      if records[n].IsEntry() {
        AmongOrLast(before, records[n], id);
      } else {
        assert before + [] == before;
      }
    }
  }

  lemma NoneAmong(id: u32)
    ensures !HasEntry([], id) && !HasDirectory([], id) && !DirectoryAmong([], id)
  {
  }

  lemma AmongOrLast(before: seq<Record>, last: Record, id: u32)
    requires AllEntries(before) && last.IsEntry()
    ensures id in NodeIds(before + [last]) <==> id in NodeIds(before) || last.entryId == id
    ensures DirectoryAmong(before + [last], id) <==> DirectoryAmong(before, id) || (last.DirectoryRecord? && last.entryId == id)
  {
    var nodes := before + [last];
    assert NodeIds(nodes) == NodeIds(before) + [last.entryId];
    assert forall x :: 0 <= x < |before| ==> nodes[x] == before[x];
    assert nodes[|before|] == last;
  }

  lemma EntryOrLast(records: seq<Record>, id: u32)
    requires records != []
    ensures var n := |records| - 1; var last := records[n];
      && (HasEntry(records, id) <==> HasEntry(records[..n], id) || (last.IsEntry() && last.entryId == id))
      && (HasDirectory(records, id) <==> HasDirectory(records[..n], id) || (last.DirectoryRecord? && last.entryId == id))
      && (HasTerminal(records) <==> HasTerminal(records[..n]) || last.TerminalRecord?)
  {
    var n := |records| - 1;
    assert forall i :: 0 <= i < n ==> records[..n][i] == records[i];
  }

  /** The parent found by the builder is the one entry with the id, so it is a directory exactly if some directory has the id. */
  lemma ParentKind(nodes: seq<Record>, id: u32)
    requires AllEntries(nodes) && NoRepeats(NodeIds(nodes)) && id in NodeIds(nodes)
    ensures IndexOf(NodeIds(nodes), id) >= 0
    ensures nodes[IndexOf(NodeIds(nodes), id)].DirectoryRecord? <==> DirectoryAmong(nodes, id)
  {
    var ids := NodeIds(nodes);
    var i := IndexOf(ids, id);
    forall x | 0 <= x < |nodes| && nodes[x].entryId == id
      ensures x == i
    {
      assert ids[x] == id && ids[i] == id;
    }
  }

  lemma EntryVerdict(before: seq<Record>, s: Scan, r: Record)
    requires Kept(before, s) && AllEntries(s.nodes) && r.IsEntry()
    ensures CheckEntry(NodeIds(s.nodes), EntriesOf(s.nodes), r.entryId, r.parentId, KindOf(r)).None? <==> EntryFits(before, r)
  {
    hide EntriesIn, StreamsIn, GapsIn, HasEntry, HasDirectory, HasTerminal;
    EntryAmong(before, r.entryId);
    EntryAmong(before, r.parentId);
    if r.parentId in NodeIds(s.nodes) {
      ParentKind(s.nodes, r.parentId);
    }
    if s.nodes != [] {
      assert NodeIds(s.nodes)[0] == 1;
    }
  }

  lemma TotalsVerdict(before: seq<Record>, s: Scan, t: Terminal)
    requires Kept(before, s) && |s.nodes| <= U32_MAX
    ensures CheckTerminal(s, t).None? <==> TotalsFit(before, t)
  {
    hide EntriesIn, StreamsIn, GapsIn, HasTerminal, Total;
  }

  /** The next record is accepted exactly if it fits. */
  lemma Verdict(before: seq<Record>, s: Scan, r: Record)
    requires Kept(before, s) && WellTyped(s) && |s.nodes| <= U32_MAX
    ensures Step(s, r).1.None? <==> RecordFits(before, r)
  {
    hide EntriesIn, StreamsIn, GapsIn, HasEntry, EntryFits, TotalsFit, HasTerminal, CheckEntry, CheckTerminal;
    if r.IsEntry() {
      EntryVerdict(before, s, r);
    } else if r.StreamRecord? {
      EntryAmong(before, r.parentEntryId);
    } else if r.TerminalRecord? {
      TotalsVerdict(before, s, r.terminal);
    }
  }

  lemma KeptNext(before: seq<Record>, s: Scan, r: Record)
    requires Kept(before, s) && WellTyped(s) && |s.nodes| <= U32_MAX && Step(s, r).1.None?
    ensures Kept(before + [r], Step(s, r).0)
  {
    var more := before + [r];
    assert more[..|before|] == before && more[|before|] == r;
    EntryOrLast(more, 0);
    assert EntriesIn(before) + [] == EntriesIn(before) && StreamsIn(before) + [] == StreamsIn(before) && GapsIn(before) + [] == GapsIn(before);
    hide HasTerminal;
    if r.IsEntry() {
      NewId(s, r);
    }
  }

  lemma NewId(s: Scan, r: Record)
    requires AllEntries(s.nodes) && r.IsEntry() && NoRepeats(NodeIds(s.nodes)) && (s.nodes != [] ==> s.nodes[0].entryId == 1)
    requires CheckEntry(NodeIds(s.nodes), EntriesOf(s.nodes), r.entryId, r.parentId, KindOf(r)).None?
    ensures AllEntries(s.nodes + [r]) && NoRepeats(NodeIds(s.nodes + [r])) && (s.nodes + [r])[0].entryId == 1
  {
    assert NodeIds(s.nodes + [r]) == NodeIds(s.nodes) + [r.entryId];
  }

  /** Everything before the first `n` records fits. */
  ghost predicate AllFit(records: seq<Record>, n: nat) {
    n <= |records| && forall i :: 0 <= i < n ==> RecordFits(records[..i], records[i])
  }

  lemma {:induction false} FitUpTo(records: seq<Record>, n: nat)
    requires n <= |records| <= U32_MAX
    ensures Accepted(records[..n]) <==> AllFit(records, n)
    ensures Accepted(records[..n]) ==> Kept(records[..n], Run(records[..n]).0)
    decreases n
  {
    hide RecordFits, Kept, Step;
    if n == 0 {
      KeptNothing();
    } else {
      var m := n - 1;
      FitUpTo(records, m);
      assert records[..n] == records[..m] + [records[m]];
      if Accepted(records[..m]) {
        RunStep(records[..m], records[m]);
        Verdict(records[..m], Run(records[..m]).0, records[m]);
        if Accepted(records[..n]) {
          KeptNext(records[..m], Run(records[..m]).0, records[m]);
        }
      } else {
        RunStuck(records[..m], [records[m]]);
      }
    }
  }

  lemma KeptNothing()
    ensures Kept([], EMPTY_SCAN)
  {
  }

  /** A stream is accepted exactly if every record fits behind those before it; and then the builder has kept all its entries,
      streams and gaps, in order, and its terminal record. */
  lemma AcceptedMeaning(records: seq<Record>)
    requires |records| <= U32_MAX
    ensures Accepted(records) <==> forall i :: 0 <= i < |records| ==> RecordFits(records[..i], records[i])
    ensures Accepted(records) ==> Kept(records, Run(records).0)
  {
    hide RecordFits, Kept, Run;
    FitUpTo(records, |records|);
    assert records[..|records|] == records;
  }

  // ---- What is rejected

  /** What an error about an entry says. */
  ghost predicate EntryErrorSays(before: seq<Record>, r: Record, err: BuildError)
    requires r.IsEntry()
  {
    var none := EntriesIn(before) == [];
    if r.entryId == r.parentId then err == SelfParent(r.entryId)
    else if none || r.parentId == 0 || r.entryId == 1 then err == InvalidRoot(r.entryId, r.parentId)
    else if HasEntry(before, r.entryId) then err == DuplicateEntryId(r.entryId)
    else if !HasEntry(before, r.parentId) then err == MissingParent(r.entryId, r.parentId)
    else err == ParentNotDirectory(r.entryId, r.parentId) && !HasDirectory(before, r.parentId)
  }

  /** Total `field` was declared as `expected` and counted as `actual`, and this is what the error says. */
  ghost predicate MismatchSays(err: BuildError, field: string, expected: nat, actual: nat) {
    err.AggregateMismatch? && err.field == field && err.expected == expected && err.actual == actual && expected != actual
  }

  /** What an error about the totals says: it names the first one that is wrong, with both numbers. */
  ghost predicate TotalsErrorSays(before: seq<Record>, t: Terminal, err: BuildError) {
    var nodes, gaps := EntriesIn(before), |GapsIn(before)|;
    var dirs, files := Total(nodes, IsDir), Total(nodes, IsFile);
    var logical, alloc := Min(Total(nodes, LogicalBytes), U64_MAX), Min(Total(nodes, AllocatedBytes), U64_MAX);
    if t.totalDirectories != dirs then MismatchSays(err, "total_directories", t.totalDirectories, dirs)
    else if t.totalFiles != files then MismatchSays(err, "total_files", t.totalFiles, files)
    else if t.totalLogicalBytes != logical then MismatchSays(err, "total_logical_bytes", t.totalLogicalBytes, logical)
    else if t.totalAllocatedBytes != alloc then MismatchSays(err, "total_allocated_bytes", t.totalAllocatedBytes, alloc)
    else
      && t.coverageGapCount != gaps % 0x1_0000_0000 && err.AggregateMismatch? && err.field == "coverage_gap_count"
      && err.expected == t.coverageGapCount && err.actual == gaps % TWO_64
  }

  /** What the error about a record that does not fit says. */
  ghost predicate ErrorSays(before: seq<Record>, r: Record, err: BuildError) {
    if HasTerminal(before) then err == RecordAfterTerminal
    else if r.IsEntry() then EntryErrorSays(before, r, err)
    else if r.StreamRecord? then err == UnknownStreamParent(r.parentEntryId)
    else r.TerminalRecord? && TotalsErrorSays(before, r.terminal, err)
  }

  lemma EntryError(before: seq<Record>, s: Scan, r: Record)
    requires Kept(before, s) && AllEntries(s.nodes) && r.IsEntry()
    requires CheckEntry(NodeIds(s.nodes), EntriesOf(s.nodes), r.entryId, r.parentId, KindOf(r)).Some?
    ensures EntryErrorSays(before, r, CheckEntry(NodeIds(s.nodes), EntriesOf(s.nodes), r.entryId, r.parentId, KindOf(r)).value)
  {
    hide EntriesIn, StreamsIn, GapsIn, HasEntry, HasDirectory, HasTerminal, DirectoryAmong;
    EntryAmong(before, r.entryId);
    EntryAmong(before, r.parentId);
    if r.parentId in NodeIds(s.nodes) {
      ParentKind(s.nodes, r.parentId);
    }
  }

  lemma TotalsError(before: seq<Record>, s: Scan, t: Terminal)
    requires Kept(before, s) && |s.nodes| <= U32_MAX && CheckTerminal(s, t).Some?
    ensures TotalsErrorSays(before, t, CheckTerminal(s, t).value)
  {
    hide EntriesIn, StreamsIn, GapsIn, HasTerminal, Total;
  }

  lemma ErrorOfStep(before: seq<Record>, s: Scan, r: Record)
    requires Kept(before, s) && WellTyped(s) && |s.nodes| <= U32_MAX && Step(s, r).1.Some?
    ensures Step(s, r).0 == s && ErrorSays(before, r, Step(s, r).1.value)
  {
    hide EntriesIn, StreamsIn, GapsIn, EntryErrorSays, TotalsErrorSays, HasTerminal, CheckEntry, CheckTerminal;
    if s.terminal.None? {
      if r.IsEntry() {
        EntryError(before, s, r);
      } else if r.TerminalRecord? {
        TotalsError(before, s, r.terminal);
      }
    }
  }

  /** The first record that does not fit ends the run with the error about it; what came before it is kept. */
  lemma RejectedMeaning(records: seq<Record>, n: nat)
    requires n < |records| <= U32_MAX && AllFit(records, n) && !RecordFits(records[..n], records[n])
    ensures Run(records).1.Some? && ErrorSays(records[..n], records[n], Run(records).1.value)
    ensures Kept(records[..n], Run(records).0)
  {
    hide RecordFits, Kept, Step, ErrorSays;
    FitUpTo(records, n);
    assert records[..n + 1] == records[..n] + [records[n]];
    assert records == records[..n + 1] + records[n + 1..];
    RunStep(records[..n], records[n]);
    Verdict(records[..n], Run(records[..n]).0, records[n]);
    ErrorOfStep(records[..n], Run(records[..n]).0, records[n]);
    RunStuck(records[..n + 1], records[n + 1..]);
  }

  /** In an accepted stream every stream record names an entry. */
  lemma {:induction false} AcceptedStreamsPlaced(records: seq<Record>)
    requires |records| <= U32_MAX && Accepted(records)
    ensures StreamsPlaced(Run(records).0)
    decreases |records|
  {
    if records != [] {
      var before, r := records[..|records| - 1], records[|records| - 1];
      AcceptedStreamsPlaced(before);
      hide Run;
      PlacedStep(Run(before).0, r);
    }
  }

  lemma PlacedStep(s: Scan, r: Record)
    requires WellTyped(s) && |s.nodes| <= U32_MAX && StreamsPlaced(s) && Step(s, r).1.None?
    ensures WellTyped(Step(s, r).0) && StreamsPlaced(Step(s, r).0)
  {
    hide CheckEntry, CheckTerminal;
    var s' := Step(s, r).0;
    StepKeepsTypes(s, r);
    assert forall x :: 0 <= x < |s.nodes| ==> s'.nodes[x] == s.nodes[x];
    if r.StreamRecord? {
      assert s.nodes[IndexOf(NodeIds(s.nodes), r.parentEntryId)].entryId == r.parentEntryId;
    }
  }
}
