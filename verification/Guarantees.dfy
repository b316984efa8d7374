/** What every accepted observation stream and its graph guarantee. */
module Guarantees {
  import opened Words
  import opened Observation
  import opened Graph
  import opened Accounting
  import opened Aggregates
  import opened Settlement
  import opened Scan
  import opened Outcome
  import opened Build
  import Session

  /** The referenced bytes of a stream do not saturate if its terminal record reports less than the largest number. */
  lemma BelowSaturation(records: seq<Record>)
    requires |records| <= U32_MAX && Accepted(records) && Run(records).0.terminal.Some?
    requires Run(records).0.terminal.value.totalAllocatedBytes < U64_MAX
    ensures Total(Run(records).0.nodes, AllocatedBytes) < U64_MAX
  {
    RunSealed(records);
    hide *;
    SealedTotals(Run(records).0);
  }

  /** Bytes are conserved from the terminal record to the root of the graph, even where sums saturate. */
  lemma Conservation(lower: string -> string, target: string, records: seq<Record>, r: BuildResult)
    requires |records| <= U32_MAX && Accepted(records) && BuildOutcome(lower, target, records, false, r)
    requires r.Built? && Run(records).0.nodes != []
    ensures r.graph.entries != []
    ensures r.graph.entries[0].referenced == r.graph.entries[0].knownSubtotal == r.graph.terminal.totalAllocatedBytes
    ensures r.graph.entries[0].logicalSize == Some(r.graph.terminal.totalLogicalBytes)
  {
    var s := Run(records).0;
    RunSealed(records);
    hide Run, Sealed, GraphOf, HasTree, Settles, UniqueIn, UniqueExact, Total;
    GraphTerminal(lower, target, s, r.graph);
    SealedTotals(s);
    RootReports(lower, target, s, r.graph);
  }

  lemma GraphTerminal(lower: string -> string, target: string, s: Scan, g: DirectoryGraph)
    requires HasTree(s) && GraphOf(lower, target, s, g)
    ensures s.terminal == Some(g.terminal)
  {
  }

  /** The root reports the saturated totals of the stream. */
  lemma RootReports(lower: string -> string, target: string, s: Scan, g: DirectoryGraph)
    requires HasTree(s) && GraphOf(lower, target, s, g)
    ensures g.entries != [] && g.entries[0].referenced == g.entries[0].knownSubtotal == Min(Total(s.nodes, AllocatedBytes), U64_MAX)
    ensures g.entries[0].logicalSize == Some(Min(Total(s.nodes, LogicalBytes), U64_MAX))
  {
    RootTotals(s);
    hide Total;
    assert SettledEntry(ParentsOf(s.nodes), EntriesOf(s.nodes), FactsOf(s.nodes), SelfsOf(s.nodes), 0, g.entries[0]);
  }

  /** A stream whose referenced bytes fit 64 bits is built, and the unique bytes of every directory are exact. */
  lemma UnsaturatedIsExact(lower: string -> string, target: string, records: seq<Record>, r: BuildResult)
    requires |records| <= U32_MAX && Accepted(records) && BuildOutcome(lower, target, records, false, r)
    requires Run(records).0.nodes != [] && Run(records).0.terminal.Some?
    requires Total(Run(records).0.nodes, AllocatedBytes) <= U64_MAX
    ensures r.Built? && HasTree(Run(records).0) && |r.graph.entries| == |Run(records).0.nodes|
    ensures forall d :: 0 <= d < |r.graph.entries| && Run(records).0.nodes[d].DirectoryRecord? ==>
      r.graph.entries[d].unique == UniqueIn(Run(records).0, d)
  {
    var s := Run(records).0;
    hide Run;
    ExactUniques(lower, target, s, r);
  }

  lemma ExactUniques(lower: string -> string, target: string, s: Scan, r: BuildResult)
    requires OutcomeOf(lower, target, s, r) && s.nodes != [] && s.terminal.Some?
    requires Total(s.nodes, AllocatedBytes) <= U64_MAX
    ensures r.Built? && HasTree(s) && |r.graph.entries| == |s.nodes|
    ensures forall d :: 0 <= d < |s.nodes| && s.nodes[d].DirectoryRecord? ==> r.graph.entries[d].unique == UniqueIn(s, d)
  {
    var par, entries, f, self := ParentsOf(s.nodes), EntriesOf(s.nodes), FactsOf(s.nodes), SelfsOf(s.nodes);
    RootTotals(s);
    UniqueCovered(par, entries, f, self);
    forall d | 0 <= d < |s.nodes| && s.nodes[d].DirectoryRecord?
      ensures r.graph.entries[d].unique == UniqueIn(s, d)
    {
      assert entries[d].kind == EntryKind.Directory;
    }
  }

  /** In every accepted stream: a panic exactly if some directory is overdrawn, and otherwise unique bytes that are right
      up to a cut-off at 64 bits. */
  lemma CutOffUniques(lower: string -> string, target: string, records: seq<Record>, r: BuildResult)
    requires |records| <= U32_MAX && Accepted(records) && BuildOutcome(lower, target, records, false, r)
    requires Run(records).0.nodes != [] && Run(records).0.terminal.Some?
    ensures HasTree(Run(records).0) && (r.Built? || r.Panicked?) && (r.Panicked? <==> !Settles(Run(records).0))
    ensures r.Built? ==> |r.graph.entries| == |Run(records).0.nodes|
    ensures r.Built? ==> forall d :: 0 <= d < |r.graph.entries| && Run(records).0.nodes[d].DirectoryRecord? ==>
      r.graph.entries[d].unique == UniqueIn(Run(records).0, d) % TWO_64
  {
    var s := Run(records).0;
    hide Run;
    if r.Built? {
      CutOffIn(lower, target, s, r.graph);
    }
    hide UniqueIn, Settles, GraphOf, HasTree;
  }

  lemma CutOffIn(lower: string -> string, target: string, s: Scan, g: DirectoryGraph)
    requires HasTree(s) && GraphOf(lower, target, s, g)
    ensures |g.entries| == |s.nodes|
    ensures forall d :: 0 <= d < |s.nodes| && s.nodes[d].DirectoryRecord? ==> g.entries[d].unique == UniqueIn(s, d) % TWO_64
  {
    forall d | 0 <= d < |s.nodes| && s.nodes[d].DirectoryRecord?
      ensures g.entries[d].unique == UniqueIn(s, d) % TWO_64
    {
      assert SettledEntry(ParentsOf(s.nodes), EntriesOf(s.nodes), FactsOf(s.nodes), SelfsOf(s.nodes), d, g.entries[d]);
    }
  }

  /** Every object met below entry `d` whose size some alias reports is also reported by an alias below `d`. */
  ghost predicate ReportedBelow(s: Scan, d: nat)
    requires HasTree(s)
  {
    ReportedWithin(ParentsOf(s.nodes), EntriesOf(s.nodes), FactsOf(s.nodes), d)
  }

  lemma BoundedScope(s: Scan, d: nat)
    requires HasTree(s) && d < |s.nodes| && (d == 0 || ReportedBelow(s, d))
    ensures UniqueIn(s, d) <= ReferencedOf(ParentsOf(s.nodes), EntriesOf(s.nodes), SelfsOf(s.nodes), d)
  {
    var par, entries, f, self := ParentsOf(s.nodes), EntriesOf(s.nodes), FactsOf(s.nodes), SelfsOf(s.nodes);
    if d == 0 {
      UniqueCovered(par, entries, f, self);
    } else {
      UniqueWithinReferenced(par, entries, f, self, d);
    }
  }

  lemma ReferencedIn(lower: string -> string, target: string, s: Scan, g: DirectoryGraph, d: nat)
    requires HasTree(s) && GraphOf(lower, target, s, g) && d < |s.nodes| && s.nodes[d].DirectoryRecord?
    ensures d < |g.entries| && 0 <= ReferencedOf(ParentsOf(s.nodes), EntriesOf(s.nodes), SelfsOf(s.nodes), d)
    ensures g.entries[d].referenced == Clamp(ReferencedOf(ParentsOf(s.nodes), EntriesOf(s.nodes), SelfsOf(s.nodes), d))
  {
    assert SettledEntry(ParentsOf(s.nodes), EntriesOf(s.nodes), FactsOf(s.nodes), SelfsOf(s.nodes), d, g.entries[d]);
  }

  /** In such a graph a directory with its objects' sizes reported below it has no more unique than referenced
      bytes; the root always keeps that bound. */
  lemma UnsaturatedIsBounded(lower: string -> string, target: string, records: seq<Record>, r: BuildResult, d: nat)
    requires |records| <= U32_MAX && Accepted(records) && BuildOutcome(lower, target, records, false, r)
    requires Run(records).0.terminal.Some? && Total(Run(records).0.nodes, AllocatedBytes) <= U64_MAX
    requires d < |Run(records).0.nodes| && Run(records).0.nodes[d].DirectoryRecord?
    requires HasTree(Run(records).0) && (d == 0 || ReportedBelow(Run(records).0, d))
    ensures r.Built? && d < |r.graph.entries| && r.graph.entries[d].unique <= r.graph.entries[d].referenced
  {
    var s := Run(records).0;
    hide Run;
    ExactUniques(lower, target, s, r);
    BoundedScope(s, d);
    ReferencedIn(lower, target, s, r.graph, d);
    hide UniqueIn, ReferencedOf, GraphOf, ReportedBelow, HasTree, Total;
  }

  // ---- Progress from the builder to the client

  /** The events behind the sequence numbers a client has seen. */
  ghost function EventsSeen(events: seq<Pulse>, seen: seq<nat>): (r: seq<Pulse>)
    requires forall i :: 0 <= i < |seen| ==> 1 <= seen[i] <= |events|
    ensures |r| == |seen| && forall i :: 0 <= i < |r| ==> r[i] == events[seen[i] - 1]
  {
    seq(|seen|, i requires 0 <= i < |seen| => events[seen[i] - 1])
  }

  /** In every interleaving the client sees a strictly increasing subsequence of the builder's events, with counters that
      never go back; once the scan is settled, and its runner has passed on all events, it has seen the last one. */
  lemma ProgressReachesClient(records: seq<Record>, due: nat -> bool, op: string, cancelId: string, steps: seq<Session.Step>, s: Session.State)
    requires |records| < U32_MAX && Session.Reaches(Session.Start(op, cancelId), steps, s)
    requires s.produced <= |Pulses(records, due)|
    ensures Session.Increasing(s.seen) && forall i :: 0 <= i < |s.seen| ==> 1 <= s.seen[i] <= |Pulses(records, due)|
    ensures var e := EventsSeen(Pulses(records, due), s.seen);
      && (forall i :: 0 <= i < |e| ==> e[i].sequenceNumber == s.seen[i])
      && (forall i, j :: 0 <= i < j < |e| ==> NoFewer(e[i], e[j]))
    ensures records != [] && Session.ClientSettled(s.client) && s.produced == |Pulses(records, due)| ==>
      var e := EventsSeen(Pulses(records, due), s.seen);
      e != [] && Pulses(records, due) != [] && e[|e| - 1] == Pulses(records, due)[|Pulses(records, due)| - 1]
  {
    hide Session.Reaches, Pulses, NoFewer, Run;
    Session.ClientSafety(op, cancelId, steps, s);
    PulsesAdvance(records, due);
  }
}
