/** From the file system to the graph: worker, stream and builder together. */
module Pipeline {
  import opened Words
  import opened Observation
  import opened Forest
  import opened Wire
  import opened Codec
  import opened Stream
  import opened Ingest
  import opened Scan
  import opened Outcome
  import opened Build
  import opened FileSystem
  import opened Worker
  import opened Guarantees
  import opened Inventory

  // ---- Truncated streams

  lemma {:induction false} NoTerminalYet(records: seq<Record>)
    requires |records| <= U32_MAX && forall i :: 0 <= i < |records| ==> !records[i].TerminalRecord?
    ensures Run(records).0.terminal.None?
    decreases |records|
  {
    if records != [] {
      NoTerminalYet(records[..|records| - 1]);
    }
  }

  /** No strict prefix of a complete stream is built into a graph: it has no header, ends inside a record, is
      rejected, or lacks its terminal record. */
  lemma TruncationNeverBuilt(u: Utf8, target: string, records: seq<Record>, n: nat, lower: string -> string, r: BuildResult)
    requires Lawful(u) && StringFits(u, target) && (forall i :: 0 <= i < |records| ==> Writable(u, records[i]))
    requires |records| <= U32_MAX && forall i :: 0 <= i < |records| - 1 ==> !records[i].TerminalRecord?
    requires n < |EncodeHeader(u, target) + EncodeAll(u, records)|
    ensures var read := ReadStream(u, (EncodeHeader(u, target) + EncodeAll(u, records))[..n]);
      && (read.Unopened? ==> read.error == PrematureEof)
      && (read.Opened? ==> |read.records| < |records|)
      && (read.Opened? && BuildOutcome(lower, read.target, read.records, read.end.Some?, r) ==>
            r == match Run(read.records).1
                 case Some(err) => Rejected(err)
                 case None => if read.end.Some? then Unreadable else Rejected(MissingTerminal))
  {
    StreamCut(u, target, records, n);
    var read := ReadStream(u, (EncodeHeader(u, target) + EncodeAll(u, records))[..n]);
    if read.Opened? {
      NoTerminalYet(read.records);
    }
  }

  // ---- Complete streams

  lemma {:induction false} NodesGrow(records: seq<Record>, i: nat)
    requires |records| <= U32_MAX && i <= |records| && Accepted(records)
    ensures Accepted(records[..i]) && Run(records[..i]).0.nodes <= Run(records).0.nodes
    decreases |records|
  {
    if i == |records| {
      assert records[..i] == records;
    } else {
      var before := records[..|records| - 1];
      assert before[..i] == records[..i];
      NodesGrow(before, i);
      StepKeepsTypes(Run(before).0, records[|records| - 1]);
    }
  }

  lemma EntryAppended(records: seq<Record>, i: nat)
    requires |records| <= U32_MAX && i < |records| && Accepted(records) && records[i].IsEntry()
    ensures var k := |Run(records[..i]).0.nodes|; k < |Run(records).0.nodes| && Run(records).0.nodes[k] == records[i]
  {
    hide Run, Step;
    NodesGrow(records, i);
    NodesGrow(records, i + 1);
    assert records[..i + 1] == records[..i] + [records[i]];
    RunStep(records[..i], records[i]);
    StepKeepsTypes(Run(records[..i]).0, records[i]);
  }

  /** The worker's ids are in sequence, so the builder never leaves its dense scheme. */
  lemma DeliveredInSequence(records: seq<Record>, term: Terminal, s: Scan)
    requires Delivered(records, term, s)
    ensures InSequence(records)
  {
    var body := records[..|records| - 1];
    forall i | 0 <= i < |records| && records[i].IsEntry()
      ensures IdOf(records[i]) == |Run(records[..i]).0.nodes| + 1
    {
      assert records[..i] == body[..i] && body[i] == records[i];
      EntryAppended(body, i);
    }
  }

  /** A delivered stream is rejected only where the byte counters of worker and builder disagree. */
  lemma DeliveredOutcome(records: seq<Record>, term: Terminal, s: Scan, lower: string -> string, target: string, r: BuildResult)
    requires Delivered(records, term, s) && BuildOutcome(lower, target, records, false, r)
    requires term.outcome == Finished ==> s.nodes != []
    ensures CountersAgree(Total(s.nodes, LogicalBytes)) && CountersAgree(Total(s.nodes, AllocatedBytes)) <==> !r.Rejected?
    ensures Accepted(records) <==> !r.Rejected?
    ensures !r.Rejected? ==> OutcomeOf(lower, target, s.(terminal := Some(term)), r)
    ensures r.Rejected? ==> r.err.AggregateMismatch?
    ensures r != Unreadable
  {
    if !Accepted(records) {
      RejectedForBytes(records, term, s);
    }
    hide Total, Dense, CountersAgree;
  }

  /** A delivered stream that is rejected is rejected for one of its byte totals. */
  lemma RejectedForBytes(records: seq<Record>, term: Terminal, s: Scan)
    requires Delivered(records, term, s) && !Accepted(records)
    ensures Run(records).1 == Some(AggregateMismatch("total_logical_bytes", term.totalLogicalBytes, Min(Total(s.nodes, LogicalBytes), U64_MAX)))
         || Run(records).1 == Some(AggregateMismatch("total_allocated_bytes", term.totalAllocatedBytes, Min(Total(s.nodes, AllocatedBytes), U64_MAX)))
    ensures !CountersAgree(Total(s.nodes, LogicalBytes)) ==>
      Run(records).1 == Some(AggregateMismatch("total_logical_bytes", term.totalLogicalBytes, Min(Total(s.nodes, LogicalBytes), U64_MAX)))
  {
    hide Total;
    var body := records[..|records| - 1];
    assert records == body + [TerminalRecord(term)];
    NoTerminalYet(body);
    RunStep(body, TerminalRecord(term));
  }

  /** What the writer has put out when it stops before `records[stopped]`, or before the end of the header. */
  ghost predicate Stopped(u: Utf8, target: string, records: seq<Record>, stopped: nat, output: bytes) {
    if !StringFits(u, target) then output == EncodeStart()
    else
      && stopped < |records| && !Writable(u, records[stopped]) && (forall i :: 0 <= i < stopped ==> Writable(u, records[i]))
      && output == EncodeHeader(u, target) + (EncodeAll(u, records[..stopped]) + EncodeHead(u, records[stopped]))
  }

  /** Write all records; stops at the first one with a string too long for its 16-bit length. */
  method WriteStream(u: Utf8, target: string, records: seq<Record>) returns (ok: bool, output: bytes, ghost stopped: nat)
    ensures ok <==> StringFits(u, target) && forall i :: 0 <= i < |records| ==> Writable(u, records[i])
    ensures ok ==> output == EncodeHeader(u, target) + EncodeAll(u, records)
    ensures !ok ==> Stopped(u, target, records, stopped, output)
  {
    hide EncodeRecord, EncodeHead, EncodeString, Writable, StringFits;
    stopped := 0;
    var writer := new ObservationWriter(u);
    writer.Put(WORKER_MAGIC);
    writer.Put(LeBytes(VERSION_2, 2));
    ok := writer.WriteString(target);
    output := writer.output;
    if !ok {
      return;
    }
    ghost var header := EncodeHeader(u, target);
    assert writer.output == header + EncodeAll(u, records[..0]);
    for i := 0 to |records|
      invariant fresh(writer) && writer.utf8 == u
      invariant writer.output == header + EncodeAll(u, records[..i])
      invariant forall j :: 0 <= j < i ==> Writable(u, records[j])
    {
      ok := writer.WriteRecord(records[i]);
      if !ok {
        output, stopped := writer.output, i;
        return;
      }
      EncodeAppend(u, records[..i], records[i]);
      assert records[..i + 1] == records[..i] + [records[i]];
    }
    assert records[..|records|] == records;
    output := writer.output;
    ok := true;
  }

  /** A stream that stopped reads as the records before the offending one, with a premature end, if it opens at all. */
  lemma StoppedRead(u: Utf8, target: string, records: seq<Record>, stopped: nat, output: bytes)
    requires Lawful(u) && Stopped(u, target, records, stopped, output)
    ensures StringFits(u, target) ==> stopped < |records|
    ensures ReadStream(u, output) ==
      if !StringFits(u, target) then Unopened(PrematureEof)
      else Opened(target, VERSION_2, records[..stopped], Some(PrematureEof))
  {
    hide EncodeStart, EncodeHeader, EncodeAll, EncodeHead, ReadStream, Writable, StringFits;
    if StringFits(u, target) {
      StreamStops(u, target, records[..stopped], records[stopped]);
    } else {
      StartIsPremature(u);
    }
  }

  /** A worker's stream can only stop before its terminal record, so everything read of it is accepted. */
  lemma StoppedAccepted(u: Utf8, target: string, records: seq<Record>, stopped: nat, output: bytes, term: Terminal, s: Scan)
    requires Delivered(records, term, s) && Stopped(u, target, records, stopped, output) && StringFits(u, target)
    ensures stopped < |records| - 1 && Accepted(records[..stopped])
  {
    hide Accepted, Run, Dense, Total, EncodeAll, EncodeHead, EncodeHeader, StringFits;
    var body := records[..|records| - 1];
    assert records[..stopped] == body[..stopped];
    NodesGrow(body, stopped);
  }

  /** Whether the writer can write a string. */
  function TextFits(u: Utf8): string -> bool {
    s => StringFits(u, s)
  }

  ghost predicate AllWritable(u: Utf8, records: seq<Record>) {
    forall i :: 0 <= i < |records| ==> Writable(u, records[i])
  }

  /** The strings of a scan's state can be written. */
  ghost predicate StateWritable(u: Utf8, s: Scan)
    requires WellTyped(s)
  {
    EntriesFit(TextFits(u), s.nodes) && GapsFit(TextFits(u), s.gaps) && AllWritable(u, s.streams)
  }

  lemma AppendWritable(u: Utf8, records: seq<Record>, r: Record)
    ensures AllWritable(u, records + [r]) <==> AllWritable(u, records) && Writable(u, r)
  {
    hide Writable;
    assert forall i :: 0 <= i < |records| ==> (records + [r])[i] == records[i];
    assert (records + [r])[|records|] == r;
  }

  lemma AppendEntry(u: Utf8, nodes: seq<Record>, r: Record)
    requires AllEntries(nodes) && r.IsEntry()
    ensures AllEntries(nodes + [r]) && (EntriesFit(TextFits(u), nodes + [r]) <==> EntriesFit(TextFits(u), nodes) && Writable(u, r))
  {
    hide StringFits;
    assert forall i :: 0 <= i < |nodes| ==> (nodes + [r])[i] == nodes[i];
    assert (nodes + [r])[|nodes|] == r && NameOf(r) == Some(r.name);
  }

  lemma AppendGap(u: Utf8, gaps: seq<Gap>, gap: Gap)
    ensures GapsFit(TextFits(u), gaps + [gap]) <==> GapsFit(TextFits(u), gaps) && Writable(u, GapRecord(gap))
  {
    hide StringFits;
    assert forall i :: 0 <= i < |gaps| ==> (gaps + [gap])[i] == gaps[i];
    assert (gaps + [gap])[|gaps|] == gap;
  }

  lemma StepWritable(u: Utf8, s: Scan, r: Record)
    requires WellTyped(s) && |s.nodes| <= U32_MAX && Step(s, r).1.None?
    ensures WellTyped(Step(s, r).0) && (StateWritable(u, Step(s, r).0) <==> StateWritable(u, s) && Writable(u, r))
  {
    if r.IsEntry() {
      AppendEntry(u, s.nodes, r);
    } else if r.GapRecord? {
      AppendGap(u, s.gaps, r.gap);
    } else if r.StreamRecord? {
      AppendWritable(u, s.streams, r);
    }
    hide CheckEntry, CheckTerminal, StringFits, IndexOf, EntriesFit, GapsFit, AllWritable;
  }

  /** An accepted stream can be written exactly if the strings of the state it leads to can. */
  lemma {:induction false} RunWritable(u: Utf8, records: seq<Record>)
    requires |records| <= U32_MAX && Accepted(records)
    ensures AllWritable(u, records) <==> StateWritable(u, Run(records).0)
    decreases |records|
  {
    hide Step, StateWritable, AllWritable;
    if records == [] {
      NothingToWrite(u);
    } else {
      var before, r := records[..|records| - 1], records[|records| - 1];
      RunWritable(u, before);
      StepWritable(u, Run(before).0, r);
      AppendWritable(u, before, r);
      assert records == before + [r];
    }
  }

  lemma NothingToWrite(u: Utf8)
    ensures AllWritable(u, []) && StateWritable(u, EMPTY_SCAN)
  {
  }

  /** A worker's stream can be written exactly if its entry names and gap texts can. */
  lemma DeliveredWritable(u: Utf8, records: seq<Record>, term: Terminal, s: Scan)
    requires Delivered(records, term, s)
    ensures AllEntries(s.nodes) && (AllWritable(u, records) <==> EntriesFit(TextFits(u), s.nodes) && GapsFit(TextFits(u), s.gaps))
  {
    var body := records[..|records| - 1];
    RunWritable(u, body);
    AppendWritable(u, body, TerminalRecord(term));
    assert records == body + [TerminalRecord(term)];
    hide Run, Accepted, Total, EntriesFit, GapsFit;
  }

  /** It can be written if the strings of the file system fit, and, unless the scan was cancelled, only then. */
  lemma StringsDecide(u: Utf8, target: string, root: RootEvidence, tree: Dir, message: u32 -> string, term: Terminal, s: Scan)
    requires AllEntries(s.nodes) && (s.nodes == [] || Traversable(root))
    requires s.nodes != [] ==> root.RootFound? && Sized(RootRecord(target, root), tree, s, term.outcome == Finished)
    requires s.gaps <= ScanGaps(target, root, tree, message)
    requires term.outcome != Cancelled ==> s.gaps == ScanGaps(target, root, tree, message)
    requires term.outcome != Cancelled ==> if term.outcome == Finished then s.nodes != [] else !Traversable(root)
    ensures var fits := TextFits(u);
      && (StringsFit(fits, target, root, tree, message) ==> StringFits(u, target) && EntriesFit(fits, s.nodes) && GapsFit(fits, s.gaps))
      && (term.outcome != Cancelled && StringFits(u, target) && EntriesFit(fits, s.nodes) && GapsFit(fits, s.gaps) ==>
            StringsFit(fits, target, root, tree, message))
  {
    hide StringFits, NamesFit, ScanGaps, Traversable;
    if s.nodes != [] {
      NamesDecide(TextFits(u), RootRecord(target, root), tree, s, term.outcome == Finished);
    }
    hide Sized;
  }

  /** The graph is built, and all unique bytes are exact. */
  ghost predicate BuiltExactly(s: Scan, r: BuildResult) {
    && r.Built? && HasTree(s) && |r.graph.entries| == |s.nodes|
    && forall d :: 0 <= d < |s.nodes| && s.nodes[d].DirectoryRecord? ==> r.graph.entries[d].unique == UniqueIn(s, d)
  }

  lemma FittingIsExact(lower: string -> string, target: string, root: RootEvidence, tree: Dir, s: Scan, term: Terminal, r: BuildResult)
    requires OutcomeOf(lower, target, s.(terminal := Some(term)), r) && s.nodes != []
    requires Total(s.nodes, AllocatedBytes) <= AllocatedTotal(root, tree) && SizesFit(root, tree)
    ensures BuiltExactly(s.(terminal := Some(term)), r)
  {
    hide Total, AllocatedTotal, OutcomeOf, HasTree, UniqueIn;
    ExactUniques(lower, target, s.(terminal := Some(term)), r);
  }

  /** The engine's end: decode what was written, and build. */
  method Receive(u: Utf8, output: bytes, lower: string -> string, due: nat -> bool) returns (r: BuildResult)
    requires ReadStream(u, output).Opened? ==> |ReadStream(u, output).records| < NONE
    ensures match ReadStream(u, output)
      case Unopened(_) => r == Unreadable
      case Opened(target, _, records, end) =>
        BuildOutcome(lower, target, records, end.Some?, r) && (InSequence(records) && r.Built? ==> r.graph.isDense)
  {
    hide BuildOutcome, ReadStream, InSequence;
    var read := Decode(u, output);
    if read.Unopened? {
      return Unreadable;
    }
    var pulses;
    ghost var taken;
    r, pulses, taken := BuildFromReader(read.target, lower, read.records, read.end.Some?, due);
  }

  /** One scan from end to end. If the strings of the file system fit 16-bit lengths, the stream is written, and only then
      if the scan is not cancelled; otherwise nothing is built. A written stream of a finished scan is rejected exactly if
      the file system's byte sums disagree; if they fit 64 bits, a graph is built of exactly what the worker saw, and all
      its unique bytes are exact. */
  method ScanToGraph(u: Utf8, target: string, root: RootEvidence, tree: Dir, message: u32 -> string,
                     cancelled: nat -> bool, duration: u64, lower: string -> string, due: nat -> bool)
    returns (written: bool, r: BuildResult, term: Terminal, ghost s: Scan)
    requires Lawful(u) && Records(tree) < NONE - 3
    ensures StringsFit(TextFits(u), target, root, tree, message) ==> written
    ensures term.outcome != Cancelled ==> (written <==> StringsFit(TextFits(u), target, root, tree, message))
    ensures written ==> StringFits(u, target)
    ensures r == Unreadable <==> !written
    ensures term.outcome == Finished ==>
      (r.Rejected? <==> StringsFit(TextFits(u), target, root, tree, message) && !SizesAgree(root, tree))
    ensures StringsFit(TextFits(u), target, root, tree, message) && SizesFit(root, tree) ==>
      (r.Built? || r.Panicked?) && (s.nodes != [] ==> BuiltExactly(s.(terminal := Some(term)), r))
    ensures written && SizesFit(root, tree) ==> !r.Rejected? && (s.nodes != [] ==> BuiltExactly(s.(terminal := Some(term)), r))
    ensures written ==>
      && (!r.Rejected? <==> CountersAgree(Total(s.nodes, LogicalBytes)) && CountersAgree(Total(s.nodes, AllocatedBytes)))
      && (!r.Rejected? ==> OutcomeOf(lower, target, s.(terminal := Some(term)), r))
      && (r.Rejected? ==> r.err.AggregateMismatch?)
      && (r.Built? ==> r.graph.isDense)
    ensures s.nodes != [] <==> !cancelled(0) && root.RootFound? && AttributeSet(root.meta.fileAttributes, 0x10)
    ensures s.nodes != [] ==> root.RootFound? && s.nodes[0] == DirectoryRecord(1, 0, target, root.meta, root.objectId, root.allocatedSize, NotApplicable)
    ensures s.nodes != [] ==> Tallied(s.nodes[0], tree, s, term.outcome == Finished)
    ensures term.outcome == Finished && r.Built? ==>
      r.graph.entries != [] && r.graph.entries[0].unique == UniqueOfTarget(root, tree) % TWO_64
    ensures term.outcome == Finished && r.Built? && SizesFit(root, tree) ==> r.graph.entries[0].unique == UniqueOfTarget(root, tree)
    ensures s.nodes != [] ==> ShowsTree(RootRecord(target, root), tree, s, term.outcome == Finished)
    ensures s.gaps <= ScanGaps(target, root, tree, message)
    ensures term.outcome != Cancelled ==> s.gaps == ScanGaps(target, root, tree, message)
    ensures term.outcome == Finished ==> forall gap :: gap in s.gaps <==> Leaves(tree, target, message, gap)
    ensures (forall k :: !cancelled(k)) && Traversable(root) && Measure(tree, Stops, NoFact) == 0 ==> term.outcome == Finished
  {
    hide Measure, Records, ShowsTree, BuildOutcome, InSequence, OutcomeOf, ReadStream, EncodeAll, EncodeHeader, Stopped, Delivered;
    hide SizesAgree, SizesFit, Total, BuiltExactly, Accepted, StringsFit, ScanGaps, Sized, EntriesFit, GapsFit, Writable, StringFits;
    hide UniqueOfTarget, AllocatedTotal, Tallied, Leaves, Traversable, AttributeSet;
    TraversedGaps(target, root, tree, message);
    var records;
    records, term, s := ScanDirectory(target, root, tree, message, cancelled, duration);
    var output;
    ghost var stopped;
    written, output, stopped := WriteStream(u, target, records);
    if s.nodes != [] {
      EntriesTallied(RootRecord(target, root), tree, s, term.outcome == Finished);
    }
    DeliveredLength(records, term, s);
    DeliveredWritable(u, records, term, s);
    StringsDecide(u, target, root, tree, message, term, s);
    if written {
      StreamRoundTrip(u, target, records);
    } else {
      StoppedRead(u, target, records, stopped, output);
    }
    r := Receive(u, output, lower, due);
    if written {
      DeliveredInSequence(records, term, s);
      DeliveredOutcome(records, term, s, lower, target, r);
      if r.Built? && term.outcome == Finished {
        TargetReported(lower, target, root, tree, s, term, r);
        TargetFits(root, tree, s);
      }
      if s.nodes != [] && SizesFit(root, tree) {
        FittingIsExact(lower, target, root, tree, s, term, r);
      }
    } else if StringFits(u, target) {
      StoppedAccepted(u, target, records, stopped, output, term, s);
      PrefixUnreadable(lower, target, records[..stopped], r);
    }
  }

  lemma TargetFits(root: RootEvidence, tree: Dir, s: Scan)
    requires Total(s.nodes, AllocatedBytes) <= AllocatedTotal(root, tree) && UniqueOfTarget(root, tree) <= Total(s.nodes, AllocatedBytes)
    ensures SizesFit(root, tree) ==> UniqueOfTarget(root, tree) % TWO_64 == UniqueOfTarget(root, tree)
  {
  }

  lemma DeliveredLength(records: seq<Record>, term: Terminal, s: Scan)
    requires Delivered(records, term, s)
    ensures 0 < |records| < NONE
  {
  }

  lemma PrefixUnreadable(lower: string -> string, target: string, records: seq<Record>, r: BuildResult)
    requires |records| < NONE && Accepted(records) && BuildOutcome(lower, target, records, true, r)
    ensures r == Unreadable
  {
  }
}
