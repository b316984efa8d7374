/** `build_from_reader_with_progress`: a whole observation stream, from the first record to the graph. */
module Build {
  import opened Words
  import opened Observation
  import opened Forest
  import opened Ingest
  import opened Scan
  import opened Outcome
  import opened Builder

  /** The first record and every coverage gap are reported at once, other records when the timer says so. */
  predicate Reported(records: seq<Record>, due: nat -> bool, i: nat)
    requires i < |records|
  {
    i == 0 || records[i].GapRecord? || due(i)
  }

  /** The events for an accepted stream. */
  ghost function Pulses(records: seq<Record>, due: nat -> bool): seq<Pulse>
    requires |records| <= U32_MAX
  {
    if records == [] then []
    else
      var n := |records| - 1;
      var before := Pulses(records[..n], due);
      if Reported(records, due, n) then before + [PulseOf(Run(records).0, |before| + 1)] else before
  }

  lemma StepGrows(s: Scan, r: Record, k: nat)
    requires WellTyped(s) && |s.nodes| < U32_MAX
    ensures var s' := Step(s, r).0; WellTyped(s') && |s'.nodes| <= U32_MAX && NoFewer(PulseOf(s, k), PulseOf(s', k))
  {
    hide Step, WellTyped;
    StepKeepsTypes(s, r);
    var s' := Step(s, r).0;
    if s'.nodes != s.nodes {
      TotalAppend(s.nodes, r, IsDir);
      TotalAppend(s.nodes, r, IsFile);
      TotalAppend(s.nodes, r, LogicalBytes);
      TotalAppend(s.nodes, r, AllocatedBytes);
    }
  }

  /** No counter of `b` is below that of `a`; the gap counter is a 32-bit truncation and left aside. */
  predicate NoFewer(a: Pulse, b: Pulse) {
    a.directories <= b.directories && a.files <= b.files && a.logicalBytes <= b.logicalBytes && a.allocatedBytes <= b.allocatedBytes
  }

  /** Events are numbered from 1 without holes, and their counters never go back. */
  lemma {:induction false} PulsesAdvance(records: seq<Record>, due: nat -> bool)
    requires |records| < U32_MAX
    ensures var p := Pulses(records, due);
      && (forall i :: 0 <= i < |p| ==> p[i].sequenceNumber == i + 1)
      && (forall i, j :: 0 <= i <= j < |p| ==> NoFewer(p[i], p[j]))
      && (forall i :: 0 <= i < |p| ==> NoFewer(p[i], PulseOf(Run(records).0, 0)))
    ensures records != [] ==> Pulses(records, due) != []
    decreases |records|
  {
    if records != [] {
      var n := |records| - 1;
      PulsesAdvance(records[..n], due);
      if Accepted(records[..n]) {
        StepGrows(Run(records[..n]).0, records[n], 0);
      }
    }
  }

  lemma PulsesStep(records: seq<Record>, r: Record, due: nat -> bool)
    requires |records| < U32_MAX
    ensures Pulses(records + [r], due) ==
      if records == [] || r.GapRecord? || due(|records|) then
        Pulses(records, due) + [PulseOf(Run(records + [r]).0, |Pulses(records, due)| + 1)]
      else Pulses(records, due)
  {
    hide Run, PulseOf;
    var all := records + [r];
    assert all[..|records|] == records && all[|records|] == r;
    assert Reported(all, due, |records|) <==> records == [] || r.GapRecord? || due(|records|);
  }

  /** What pulse number `k + 1` says: the counts and saturated sums of the records it has seen. */
  ghost predicate Counts(p: Pulse, k: nat, s: Scan) {
    && p.sequenceNumber == k + 1
    && p.directories == Total(s.nodes, IsDir) && p.files == Total(s.nodes, IsFile)
    && p.logicalBytes == (if Total(s.nodes, LogicalBytes) <= U64_MAX then Total(s.nodes, LogicalBytes) else U64_MAX)
    && p.allocatedBytes == (if Total(s.nodes, AllocatedBytes) <= U64_MAX then Total(s.nodes, AllocatedBytes) else U64_MAX)
    && p.gaps == |s.gaps| % 0x1_0000_0000
  }

  /** The first record, every coverage gap and every record at which the timer has run out has its pulse, in order; and there are no
      other pulses: `at` names the record of each. */
  ghost predicate PulsesPlaced(records: seq<Record>, due: nat -> bool, m: nat, pulses: seq<Pulse>, at: seq<nat>) {
    && m <= |records| <= U32_MAX && |at| == |pulses|
    && (forall k :: 0 <= k < |at| ==> at[k] < m) && (forall i, j :: 0 <= i < j < |at| ==> at[i] < at[j])
    && (forall i :: 0 <= i < m ==> (i in at <==> i == 0 || records[i].GapRecord? || due(i)))
    && forall k :: 0 <= k < |at| ==> Counts(pulses[k], k, Run(records[..at[k] + 1]).0)
  }

  lemma PlacedNext(records: seq<Record>, due: nat -> bool, m: nat, pulses: seq<Pulse>, at: seq<nat>, p: Pulse)
    requires m < |records| && PulsesPlaced(records, due, m, pulses, at)
    ensures !(m == 0 || records[m].GapRecord? || due(m)) ==> PulsesPlaced(records, due, m + 1, pulses, at)
    ensures (m == 0 || records[m].GapRecord? || due(m)) && Counts(p, |pulses|, Run(records[..m + 1]).0) ==>
      PulsesPlaced(records, due, m + 1, pulses + [p], at + [m])
  {
    hide Counts, Run;
  }

  lemma {:induction false} PulsePlaces(records: seq<Record>, due: nat -> bool, m: nat) returns (at: seq<nat>)
    requires m <= |records| <= U32_MAX
    ensures PulsesPlaced(records, due, m, Pulses(records[..m], due), at)
    decreases m
  {
    if m == 0 {
      at := [];
    } else {
      hide Counts, Run, PulseOf, PulsesPlaced, Pulses;
      var n := m - 1;
      var before := PulsePlaces(records, due, n);
      assert records[..m] == records[..n] + [records[n]];
      PulsesStep(records[..n], records[n], due);
      var k := |Pulses(records[..n], due)|;
      PlacedNext(records, due, n, Pulses(records[..n], due), before, PulseOf(Run(records[..m]).0, k + 1));
      PulseCounts(Run(records[..m]).0, k);
      at := if n == 0 || records[n].GapRecord? || due(n) then before + [n] else before;
    }
  }

  lemma PulseCounts(s: Scan, k: nat)
    requires |s.nodes| <= U32_MAX
    ensures Counts(PulseOf(s, k + 1), k, s)
  {
    hide Total;
  }

  /** A pulse for the terminal record carries the totals that record declares. */
  lemma TerminalPulse(records: seq<Record>, t: Terminal, k: nat, p: Pulse)
    requires |records| < U32_MAX && Accepted(records + [TerminalRecord(t)])
    requires Counts(p, k, Run(records + [TerminalRecord(t)]).0)
    ensures p.directories == t.totalDirectories && p.files == t.totalFiles && p.logicalBytes == t.totalLogicalBytes
    ensures p.allocatedBytes == t.totalAllocatedBytes && p.gaps == t.coverageGapCount
  {
    assert (records + [TerminalRecord(t)])[..|records|] == records;
    var s := Run(records).0;
    hide Run;
    TerminalCounts(s, t, k, p);
  }

  lemma TerminalCounts(s: Scan, t: Terminal, k: nat, p: Pulse)
    requires WellTyped(s) && |s.nodes| <= U32_MAX && Step(s, TerminalRecord(t)).1.None? && Counts(p, k, Step(s, TerminalRecord(t)).0)
    ensures p.directories == t.totalDirectories && p.files == t.totalFiles && p.logicalBytes == t.totalLogicalBytes
    ensures p.allocatedBytes == t.totalAllocatedBytes && p.gaps == t.coverageGapCount
  {
    hide Total, CheckEntry, IndexOf, EntriesOf, NodeIds;
  }

  /** The loop state after `i` records. */
  ghost predicate Reading(records: seq<Record>, due: nat -> bool, i: nat, s: Scan, pulses: seq<Pulse>) {
    && i <= |records| < NONE && Accepted(records[..i]) && s == Run(records[..i]).0
    && pulses == Pulses(records[..i], due) && (i == 0 <==> pulses == [])
  }

  lemma ReadRecord(records: seq<Record>, due: nat -> bool, i: nat, s: Scan, pulses: seq<Pulse>)
    requires Reading(records, due, i, s, pulses) && i < |records|
    ensures WellTyped(s) && |s.nodes| <= i
    ensures var (s', err) := Step(s, records[i]);
      && (err.Some? ==> Run(records) == (s', err) && !Accepted(records[..i + 1]))
      && (err.None? ==> |s'.nodes| <= U32_MAX && Reading(records, due, i + 1, s',
            if Reported(records, due, i) then pulses + [PulseOf(s', |pulses| + 1)] else pulses))
  {
    hide Step, WellTyped, Pulses, Run;
    assert records[..i + 1] == records[..i] + [records[i]];
    RunStep(records[..i], records[i]);
    if Step(s, records[i]).1.Some? {
      RunStuck(records[..i + 1], records[i + 1..]);
      assert records == records[..i + 1] + records[i + 1..];
    } else {
      PulsesStep(records[..i], records[i], due);
      assert |Run(records[..i + 1]).0.nodes| <= i + 1;
    }
  }

  /** The first rejected record decides; then a read error; otherwise the accepted stream is finished. */
  ghost predicate BuildOutcome(lower: string -> string, rootTarget: string, records: seq<Record>, readError: bool, r: BuildResult)
    requires |records| <= U32_MAX
  {
    match Run(records).1
    case Some(err) => r == Rejected(err)
    case None => if readError then r == Unreadable else OutcomeOf(lower, rootTarget, Run(records).0, r)
  }

  /** The records a reader yields, and how it ends. */
  method BuildFromReader(rootTarget: string, lower: string -> string, records: seq<Record>, readError: bool, due: nat -> bool)
    returns (r: BuildResult, pulses: seq<Pulse>, ghost taken: nat)
    requires |records| < NONE
    ensures BuildOutcome(lower, rootTarget, records, readError, r)
    ensures taken <= |records| && Accepted(records[..taken]) && (taken == |records| || !Accepted(records[..taken + 1]))
    ensures pulses == Pulses(records[..taken], due)
    ensures InSequence(records) && r.Built? ==> r.graph.isDense
  {
    hide Step, WellTyped, OutcomeOf, Represents, IndexOk, Pulses, Accepted;
    var builder := new GraphBuilder(rootTarget, lower);
    pulses, taken := [], 0;
    var isFirst := true;
    ReadNothing(records, due);
    for i := 0 to |records|
      invariant fresh(builder) && builder.Valid() && builder.rootTarget == rootTarget && builder.lower == lower
      invariant taken == i && Reading(records, due, i, builder.scan, pulses) && isFirst == (i == 0)
      invariant InSequence(records) ==> builder.isDense
    {
      ReadRecord(records, due, i, builder.scan, pulses);
      assert InSequence(records) && records[i].IsEntry() ==> IdOf(records[i]) == |Run(records[..i]).0.nodes| + 1;
      var err := builder.IngestRecord(records[i]);
      if err.Some? {
        return Rejected(err.value), pulses, i;
      }
      if isFirst || records[i].GapRecord? || due(i) {
        var pulse := builder.Report(|pulses| + 1);
        pulses := pulses + [pulse];
        isFirst := false;
      }
      taken := i + 1;
    }
    ReadEverything(records, due, builder.scan, pulses);
    if readError {
      return Unreadable, pulses, taken;
    }
    r := builder.Finish();
  }

  lemma ReadNothing(records: seq<Record>, due: nat -> bool)
    requires |records| < NONE
    ensures Reading(records, due, 0, EMPTY_SCAN, [])
  {
  }

  lemma ReadEverything(records: seq<Record>, due: nat -> bool, s: Scan, pulses: seq<Pulse>)
    requires Reading(records, due, |records|, s, pulses)
    ensures Run(records) == (s, None) && Accepted(records[..|records|]) && pulses == Pulses(records[..|records|], due)
  {
    assert records[..|records|] == records;
  }
}
