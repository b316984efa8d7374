/** The graph a finished scan is turned into, and what it owes to the accepted stream. */
module Outcome {
  import opened Words
  import opened Observation
  import opened Graph
  import opened Forest
  import opened Objects
  import opened Accounting
  import opened Aggregates
  import opened ChildOrder
  import opened Settlement
  import opened Ingest
  import opened Scan

  datatype DirectoryGraph = DirectoryGraph(
    rootTarget: string,
    rootId: u32,
    entries: seq<CompactEntry>,
    isDense: bool,
    idToIdx: map<u32, u32>,
    allChildren: seq<u32>,
    objects: seq<ObjectRecord>,
    objectStreams: map<u32, seq<StreamBreakdown>>,
    gaps: seq<Gap>,
    terminal: Terminal,
    allocatedBytesKnown: bool,
    indeterminateObjects: nat)

  datatype BuildResult = Built(graph: DirectoryGraph) | Rejected(err: BuildError) | Unreadable | Panicked

  // ---- The tree of an accepted stream

  function Position(ids: seq<u32>, id: u32): nat {
    var i := IndexOf(ids, id);
    if i < 0 then 0 else i
  }

  function Positions(ids: seq<u32>, s: seq<u32>): (r: seq<nat>)
    ensures |r| == |s| && forall i :: 0 <= i < |s| ==> r[i] == Position(ids, s[i])
  {
    seq(|s|, i requires 0 <= i < |s| => Position(ids, s[i]))
  }

  /** The index of every entry's parent; the root is its own. */
  ghost function ParentsOf(nodes: seq<Record>): (r: seq<nat>)
    requires AllEntries(nodes)
    ensures |r| == |nodes|
    ensures forall x :: 0 <= x < |r| ==> r[x] == if x == 0 then 0 else Position(NodeIds(nodes), nodes[x].parentId)
  {
    seq(|nodes|, x requires 0 <= x < |nodes| => if x == 0 then 0 else Position(NodeIds(nodes), nodes[x].parentId))
  }

  lemma ParentsUnique(nodes: seq<Record>, par: seq<nat>)
    requires AllEntries(nodes) && NoRepeats(NodeIds(nodes)) && ParentsOk(EntriesOf(nodes), par)
    ensures nodes != [] ==> par == ParentsOf(nodes)
  {
    forall x | 0 < x < |nodes|
      ensures par[x] == ParentsOf(nodes)[x]
    {
      IndexOfUnique(NodeIds(nodes), par[x]);
    }
  }

  lemma PositionsInvert(ids: seq<u32>, order: seq<nat>, s: seq<u32>)
    requires NoRepeats(ids) && |s| == |order|
    requires forall i :: 0 <= i < |order| ==> order[i] < |ids| && s[i] == ids[order[i]]
    ensures Positions(ids, s) == order
  {
    forall i | 0 <= i < |order|
      ensures Positions(ids, s)[i] == order[i]
    {
      IndexOfUnique(ids, order[i]);
    }
  }

  // ---- Distinct identities

  ghost function Identities(f: Facts): set<ObjectIdentity> {
    set x | 0 <= x < |f.ident| && f.ident[x].Some? :: f.ident[x].value
  }

  lemma MapKeysAreIdentities(entries: seq<CompactEntry>, f: Facts, m: map<ObjectIdentity, seq<u32>>)
    requires FactsOk(entries, f) && FileMapOk(entries, f, m)
    ensures m.Keys == Identities(f)
  {
    forall oid | oid in m
      ensures oid in Identities(f)
    {
      assert AliasListOk(entries, f, oid, m[oid]);
      var s := Aliases(f.ident, oid, |entries|);
      AliasesMeaning(f.ident, oid, |entries|);
      assert s[0] in s;
      assert f.ident[s[0]] == Some(oid);
    }
  }

  lemma ContradictionMeaning(entries: seq<CompactEntry>, f: Facts)
    requires FactsOk(entries, f)
    ensures ContradictedAmong(entries, f, Identities(f)) != {} <==> exists x :: 0 <= x < |entries| && Contradicted(entries, f, x)
  {
    var c := ContradictedAmong(entries, f, Identities(f));
    if c != {} {
      var oid :| oid in c;
      var x :| 0 <= x < |f.ident| && f.ident[x].Some? && f.ident[x].value == oid;
      assert Contradicted(entries, f, x);
    }
    if x :| 0 <= x < |entries| && Contradicted(entries, f, x) {
      assert f.ident[x].value in c;
    }
  }

  // ---- Streams

  /** The pending streams of object `k` among the first `m`, in observation order. */
  ghost function StreamsFor(entries: seq<CompactEntry>, pending: seq<(nat, StreamBreakdown)>, k: u32, m: nat): seq<StreamBreakdown>
    requires m <= |pending| && forall i :: 0 <= i < |pending| ==> pending[i].0 < |entries|
  {
    if m == 0 then []
    else StreamsFor(entries, pending, k, m - 1)
         + (if entries[pending[m - 1].0].objectIndex == k then [pending[m - 1].1] else [])
  }

  ghost predicate StreamsAttributed(entries: seq<CompactEntry>, pending: seq<(nat, StreamBreakdown)>, m: nat, streams: map<u32, seq<StreamBreakdown>>)
    requires m <= |pending| && forall i :: 0 <= i < |pending| ==> pending[i].0 < |entries|
  {
    forall k: u32 ::
      && (k in streams <==> k != NO_OBJECT && StreamsFor(entries, pending, k, m) != [])
      && (k in streams ==> streams[k] == StreamsFor(entries, pending, k, m))
  }

  /** Streams go to the object of their entry; those of entries without object are dropped. */
  method AttributeStreams(entries: seq<CompactEntry>, pending: seq<(nat, StreamBreakdown)>) returns (streams: map<u32, seq<StreamBreakdown>>)
    requires forall i :: 0 <= i < |pending| ==> pending[i].0 < |entries|
    ensures StreamsAttributed(entries, pending, |pending|, streams)
  {
    streams := map[];
    for i := 0 to |pending|
      invariant StreamsAttributed(entries, pending, i, streams)
    {
      var objectIndex := entries[pending[i].0].objectIndex;
      if objectIndex != NO_OBJECT {
        streams := streams[objectIndex := (if objectIndex in streams then streams[objectIndex] else []) + [pending[i].1]];
      }
    }
  }

  /** The stream records of the scan, each at the entry it names. */
  ghost function PendingOf(s: Scan): (r: seq<(nat, StreamBreakdown)>)
    requires WellTyped(s)
    ensures |r| == |s.streams|
    ensures forall i :: 0 <= i < |r| ==> r[i] == (Position(NodeIds(s.nodes), s.streams[i].parentEntryId), BreakdownOf(s.streams[i]))
  {
    seq(|s.streams|, i requires 0 <= i < |s.streams| => (Position(NodeIds(s.nodes), s.streams[i].parentEntryId), BreakdownOf(s.streams[i])))
  }

  // ---- What is promised of a finished graph

  ghost predicate HasTree(s: Scan) {
    && WellTyped(s) && s.nodes != [] && |s.nodes| <= NONE && NoRepeats(NodeIds(s.nodes))
    && Settleable(ParentsOf(s.nodes), EntriesOf(s.nodes), FactsOf(s.nodes), SelfsOf(s.nodes))
    && EntriesOf(s.nodes)[0].kind == EntryKind.Directory && ParentsOk(EntriesOf(s.nodes), ParentsOf(s.nodes))
  }

  /** The unique bytes of the scope of entry `d`, from the records alone. */
  ghost function UniqueIn(s: Scan, d: nat): nat
    requires HasTree(s)
  {
    UniqueOf(ParentsOf(s.nodes), EntriesOf(s.nodes), FactsOf(s.nodes), SelfsOf(s.nodes), d)
  }

  ghost predicate AllocationsKnown(s: Scan)
    requires HasTree(s)
  {
    forall x :: 0 <= x < |s.nodes| && s.nodes[x].FileRecord? ==>
      s.nodes[x].allocatedSize.Some? && !Contradicted(EntriesOf(s.nodes), FactsOf(s.nodes), x)
  }

  /** Distinct objects whose external references cannot be decided, each counted once. */
  ghost function IndeterminateObjects(s: Scan): nat
    requires HasTree(s)
  {
    var entries, f := EntriesOf(s.nodes), FactsOf(s.nodes);
    |IndeterminateAmong(entries, f, Identities(f))| + IndeterminateLoose(entries, f, |entries|)
  }

  ghost predicate ChildrenSliced(lower: string -> string, s: Scan, g: DirectoryGraph)
    requires HasTree(s) && |g.entries| == |s.nodes|
  {
    var order := Positions(NodeIds(s.nodes), g.allChildren);
    && (forall i :: 0 <= i < |g.allChildren| ==> g.allChildren[i] in NodeIds(s.nodes))
    && SlicesOk(lower, ParentsOf(s.nodes), g.entries, order, |s.nodes|, g.entries)
  }

  /** Each stream record belongs to an entry, and its object lists it. */
  ghost predicate StreamsListed(s: Scan, g: DirectoryGraph)
    requires HasTree(s)
  {
    && (forall i :: 0 <= i < |s.streams| ==> PendingOf(s)[i].0 < |g.entries|)
    && StreamsAttributed(g.entries, PendingOf(s), |s.streams|, g.objectStreams)
  }

  ghost predicate GraphOf(lower: string -> string, rootTarget: string, s: Scan, g: DirectoryGraph)
    requires HasTree(s)
  {
    && g.rootTarget == rootTarget && g.rootId == 1 && g.gaps == s.gaps && s.terminal == Some(g.terminal)
    && |g.entries| == |s.nodes| && IdsOk(NodeIds(s.nodes), g.isDense, g.idToIdx)
    && SettledGraph(ParentsOf(s.nodes), EntriesOf(s.nodes), FactsOf(s.nodes), SelfsOf(s.nodes), g.entries, g.objects)
    && ObjectsShared(FactsOf(s.nodes), g.entries) && |g.objects| <= |s.nodes|
    && ChildrenSliced(lower, s, g)
    && StreamsListed(s, g)
    && (g.allocatedBytesKnown <==> AllocationsKnown(s))
    && g.indeterminateObjects == IndeterminateObjects(s)
  }

  function EmptyGraph(rootTarget: string, gaps: seq<Gap>, terminal: Terminal): DirectoryGraph {
    DirectoryGraph(rootTarget, 0, [], true, map[], [], [], map[], gaps, terminal, true, 0)
  }

  /** No directory of the scan loses more to the cut-off at 64 bits than it has. */
  ghost predicate Settles(s: Scan)
    requires HasTree(s)
  {
    NoneOverdrawn(ParentsOf(s.nodes), EntriesOf(s.nodes), FactsOf(s.nodes), SelfsOf(s.nodes))
  }

  /** The outcome `finish` owes to the accepted stream `s`: a panic precisely if some directory is overdrawn. The unique
      bytes of every directory are exact, and nothing panics, precisely if those of the whole target fit 64 bits. */
  ghost predicate OutcomeOf(lower: string -> string, rootTarget: string, s: Scan, r: BuildResult) {
    match s.terminal
    case None => r == Rejected(MissingTerminal)
    case Some(t) =>
      if s.nodes == [] then
        r == if t.outcome == Finished then Rejected(InvalidRoot(0, 0)) else Built(EmptyGraph(rootTarget, s.gaps, t))
      else
        && HasTree(s) && (r.Built? || r.Panicked?) && (r.Built? <==> Settles(s))
        && (r.Built? ==> GraphOf(lower, rootTarget, s, r.graph))
        && (UniqueIn(s, 0) <= U64_MAX <==>
              r.Built? && UniqueExact(ParentsOf(s.nodes), EntriesOf(s.nodes), FactsOf(s.nodes), SelfsOf(s.nodes), r.graph.entries))
  }

  // ---- Conservation

  /** The tree-ordered sum at the root is the stream-ordered total. */
  lemma {:induction false} RootSum(par: seq<nat>, f: seq<int>, nodes: seq<Record>, q: Record -> nat, m: nat)
    requires IsTree(par) && |f| == |par| == |nodes| && m <= |nodes|
    requires forall x :: 0 <= x < |nodes| ==> f[x] == q(nodes[x])
    ensures SumUnder(par, 0, f, m) == Total(nodes[..m], q)
    decreases m
  {
    if m > 0 {
      RootSum(par, f, nodes, q, m - 1);
      UnderRoot(par, m - 1);
      assert nodes[..m] == nodes[..m - 1] + [nodes[m - 1]];
      TotalAppend(nodes[..m - 1], nodes[m - 1], q);
    }
  }

  lemma RootTotals(s: Scan)
    requires HasTree(s)
    ensures ReferencedOf(ParentsOf(s.nodes), EntriesOf(s.nodes), SelfsOf(s.nodes), 0) == Total(s.nodes, AllocatedBytes)
    ensures LogicalSumOf(ParentsOf(s.nodes), EntriesOf(s.nodes), 0) == Total(s.nodes, LogicalBytes)
  {
    var par, entries, self := ParentsOf(s.nodes), EntriesOf(s.nodes), SelfsOf(s.nodes);
    assert s.nodes[..|s.nodes|] == s.nodes;
    RootSum(par, AllocSeq(entries, self), s.nodes, AllocatedBytes, |s.nodes|);
    RootSum(par, LogicalSeq(entries), s.nodes, LogicalBytes, |s.nodes|);
  }

  /** The terminal record of a sealed scan agrees with the records before it. */
  ghost predicate Sealed(s: Scan) {
    |s.nodes| <= U32_MAX && (s.terminal.Some? ==> CheckTerminal(s, s.terminal.value).None?)
  }

  lemma StepKeepsSealed(s: Scan, r: Record)
    requires WellTyped(s) && Sealed(s) && |s.nodes| < U32_MAX
    ensures Sealed(Step(s, r).0)
  {
  }

  /** Whatever the records, a terminal record among the accepted ones agrees with those before it. */
  lemma {:induction false} RunSealed(records: seq<Record>)
    requires |records| <= U32_MAX
    ensures Sealed(Run(records).0)
    decreases |records|
  {
    if records != [] {
      var before := records[..|records| - 1];
      RunSealed(before);
      StepKeepsSealed(Run(before).0, records[|records| - 1]);
    }
  }

  lemma SealedTotals(s: Scan)
    requires Sealed(s) && s.terminal.Some?
    ensures s.terminal.value.totalAllocatedBytes == Min(Total(s.nodes, AllocatedBytes), U64_MAX)
    ensures s.terminal.value.totalLogicalBytes == Min(Total(s.nodes, LogicalBytes), U64_MAX)
  {
    hide Total;
  }
}
