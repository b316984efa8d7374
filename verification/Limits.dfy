/** Inputs at which the conditional promises fail: each condition is needed. */
module Limits {
  import opened Words
  import opened Observation
  import opened Graph
  import opened Forest
  import opened Objects
  import opened Accounting
  import opened Aggregates
  import opened Settlement
  import opened Ingest
  import opened Scan
  import opened Outcome
  import opened Build
  import opened Guarantees
  import opened FileSystem
  import opened Codec
  import opened Worker
  import opened Pipeline

  const PLAIN: Meta := Meta(0, 0, 0, 0, 0)
  const TWO_63: u64 := 0x8000_0000_0000_0000

  function Folder(id: u32, parentId: u32): Record {
    DirectoryRecord(id, parentId, "d", PLAIN, None, None, NotApplicable)
  }

  function File(id: u32, parentId: u32, oid: Option<ObjectIdentity>, alloc: Option<u64>): Record {
    FileRecord(id, parentId, "f", PLAIN, oid, alloc, NotObserved, 0)
  }

  function Object(n: u128): ObjectIdentity {
    ObjectIdentity(seq(16, _ => 0), n)
  }

  // ---- Accepted streams

  lemma DensePrefix(nodes: seq<Record>, r: Record)
    requires Dense(nodes + [r])
    ensures Dense(nodes) && r.IsEntry() && IdOf(r) == |nodes| + 1
    ensures if nodes == [] then r.DirectoryRecord? && r.parentId == 0 else HasParent(nodes, r, |nodes|)
  {
    var all := nodes + [r];
    assert all[|nodes|] == r;
    forall i | 0 <= i < |nodes|
      ensures all[i] == nodes[i]
    {
    }
    forall i | 0 < i < |nodes|
      ensures HasParent(nodes, nodes[i], i)
    {
      assert HasParent(all, all[i], i);
    }
    assert nodes != [] ==> HasParent(all, all[|nodes|], |nodes|);
  }

  /** Entries in dense order are accepted one by one. */
  lemma {:induction false} EntriesAccepted(nodes: seq<Record>)
    requires Dense(nodes) && |nodes| < NONE
    ensures Run(nodes) == (EMPTY_SCAN.(nodes := nodes), None)
    decreases |nodes|
  {
    if nodes != [] {
      var before, r := nodes[..|nodes| - 1], nodes[|nodes| - 1];
      assert nodes == before + [r];
      DensePrefix(before, r);
      EntriesAccepted(before);
      NextAccepted(EMPTY_SCAN.(nodes := before), r);
      RunStep(before, r);
    }
  }

  /** So is a terminal record with the right totals after them. */
  lemma ClosedAccepted(nodes: seq<Record>, t: Terminal)
    requires Dense(nodes) && |nodes| < NONE - 1
    requires t.totalDirectories == Total(nodes, IsDir) && t.totalFiles == Total(nodes, IsFile)
    requires t.totalLogicalBytes == Min(Total(nodes, LogicalBytes), U64_MAX)
    requires t.totalAllocatedBytes == Min(Total(nodes, AllocatedBytes), U64_MAX) && t.coverageGapCount == 0
    ensures Run(nodes + [TerminalRecord(t)]) == (EMPTY_SCAN.(nodes := nodes, terminal := Some(t)), None)
  {
    EntriesAccepted(nodes);
    RunStep(nodes, TerminalRecord(t));
    hide Run, Dense;
    TerminalFits(EMPTY_SCAN.(nodes := nodes), t);
  }

  lemma TerminalFits(s: Scan, t: Terminal)
    requires WellTyped(s) && s.terminal.None? && |s.nodes| < NONE && s.gaps == []
    requires t.totalDirectories == Total(s.nodes, IsDir) && t.totalFiles == Total(s.nodes, IsFile)
    requires t.totalLogicalBytes == Min(Total(s.nodes, LogicalBytes), U64_MAX)
    requires t.totalAllocatedBytes == Min(Total(s.nodes, AllocatedBytes), U64_MAX) && t.coverageGapCount == 0
    ensures Step(s, TerminalRecord(t)) == (s.(terminal := Some(t)), None)
  {
    hide Total;
  }

  lemma TotalOfFour(a: Record, b: Record, c: Record, d: Record, q: Record -> nat)
    ensures Total([a, b, c, d], q) == q(a) + q(b) + q(c) + q(d)
  {
    assert [a, b, c, d] == [a, b, c] + [d] && [a, b, c] == [a, b] + [c] && [a, b] == [a] + [b] && [a] == [] + [a];
    TotalAppend([], a, q);
    TotalAppend([a], b, q);
    TotalAppend([a, b], c, q);
    TotalAppend([a, b, c], d, q);
  }

  // ---- The tree and the facts of a dense stream

  /** The vectors the promises are stated over, for a dense stream. */
  lemma DenseVectors(nodes: seq<Record>)
    requires Dense(nodes) && nodes != []
    ensures IsTree(ParentsOf(nodes)) && FactsOk(EntriesOf(nodes), FactsOf(nodes))
    ensures forall x :: 0 <= x < |nodes| ==> ParentsOf(nodes)[x] == if x == 0 then 0 else nodes[x].parentId - 1
  {
    DenseParents(nodes);
    IngestedEntries(nodes);
  }

  /** What entry `x` adds to the unique bytes of the scope `d`. */
  ghost function Part(par: seq<nat>, entries: seq<CompactEntry>, f: Facts, self: seq<u64>, d: nat, x: nat): nat
    requires IsTree(par) && FactsOk(entries, f) && |self| == |entries| == |par| && x < |par|
  {
    if Under(par, d, x) && !Accounting.Counted(par, f, d, x) then Bytes(entries, f, self, x) else 0
  }

  ghost function Parts(par: seq<nat>, entries: seq<CompactEntry>, f: Facts, self: seq<u64>, d: nat, a: nat, m: nat): nat
    requires IsTree(par) && FactsOk(entries, f) && |self| == |entries| == |par| && a <= m <= |par|
    decreases m
  {
    if m == a then 0 else Parts(par, entries, f, self, d, a, m - 1) + Part(par, entries, f, self, d, m - 1)
  }

  lemma {:induction false} UniqueParts(par: seq<nat>, entries: seq<CompactEntry>, f: Facts, self: seq<u64>, d: nat, m: nat)
    requires IsTree(par) && FactsOk(entries, f) && |self| == |entries| == |par| && m <= |par|
    ensures UniqueBytes(par, entries, f, self, d, m) == Parts(par, entries, f, self, d, 0, m)
    decreases m
  {
    if m > 0 {
      UniqueParts(par, entries, f, self, d, m - 1);
    }
  }

  // ---- Unique bytes beyond 64 bits: a wrong value

  /** One directory with three files of 2^63 allocated bytes. */
  const HEAVY: seq<Record> := [Folder(1, 0), File(2, 1, None, Some(TWO_63)), File(3, 1, None, Some(TWO_63)), File(4, 1, None, Some(TWO_63))]

  const HEAVY_END: Terminal := Terminal(Finished, 1, 3, 0, U64_MAX, 0, 0)

  lemma HeavyAccepted()
    ensures Run(HEAVY + [TerminalRecord(HEAVY_END)]) == (EMPTY_SCAN.(nodes := HEAVY, terminal := Some(HEAVY_END)), None)
    ensures Dense(HEAVY)
  {
    TotalOfFour(HEAVY[0], HEAVY[1], HEAVY[2], HEAVY[3], IsDir);
    TotalOfFour(HEAVY[0], HEAVY[1], HEAVY[2], HEAVY[3], IsFile);
    TotalOfFour(HEAVY[0], HEAVY[1], HEAVY[2], HEAVY[3], LogicalBytes);
    TotalOfFour(HEAVY[0], HEAVY[1], HEAVY[2], HEAVY[3], AllocatedBytes);
    hide Run, Total;
    ClosedAccepted(HEAVY, HEAVY_END);
  }

  lemma HeavyPart(d: nat, x: nat)
    requires d < 4 && x < 4
    ensures Dense(HEAVY) && IsTree(ParentsOf(HEAVY)) && FactsOk(EntriesOf(HEAVY), FactsOf(HEAVY))
    ensures Part(ParentsOf(HEAVY), EntriesOf(HEAVY), FactsOf(HEAVY), SelfsOf(HEAVY), d, x) == if x > 0 && (d == 0 || d == x) then TWO_63 else 0
  {
    HeavyAccepted();
    DenseVectors(HEAVY);
    var par := ParentsOf(HEAVY);
    assert par[x] == 0;
    UnderRoot(par, x);
    assert Under(par, d, x) <==> d == 0 || d == x;
  }

  lemma HeavyUnique(d: nat)
    requires d < 4
    ensures Dense(HEAVY) && IsTree(ParentsOf(HEAVY)) && FactsOk(EntriesOf(HEAVY), FactsOf(HEAVY))
    ensures UniqueOf(ParentsOf(HEAVY), EntriesOf(HEAVY), FactsOf(HEAVY), SelfsOf(HEAVY), d) == if d == 0 then 3 * TWO_63 else TWO_63
  {
    HeavyPart(d, 0);
    HeavyPart(d, 1);
    HeavyPart(d, 2);
    HeavyPart(d, 3);
    hide Part;
    UniqueParts(ParentsOf(HEAVY), EntriesOf(HEAVY), FactsOf(HEAVY), SelfsOf(HEAVY), d, 4);
    assert Parts(ParentsOf(HEAVY), EntriesOf(HEAVY), FactsOf(HEAVY), SelfsOf(HEAVY), d, 0, 0) == 0;
    assert Parts(ParentsOf(HEAVY), EntriesOf(HEAVY), FactsOf(HEAVY), SelfsOf(HEAVY), d, 0, 2) == if d <= 1 then TWO_63 else 0;
  }

  /** The stream is accepted and a graph is built, but the unique bytes of its root are those of one file, not of three. */
  lemma HeavyIsWrong(lower: string -> string, target: string, r: BuildResult)
    requires BuildOutcome(lower, target, HEAVY + [TerminalRecord(HEAVY_END)], false, r)
    ensures Accepted(HEAVY + [TerminalRecord(HEAVY_END)])
    ensures r.Built? && r.graph.entries != [] && r.graph.entries[0].unique == TWO_63
    ensures var s := Run(HEAVY + [TerminalRecord(HEAVY_END)]).0; HasTree(s) && UniqueIn(s, 0) == 3 * TWO_63
  {
    HeavyAccepted();
    HeavyUnique(0);
    var s := EMPTY_SCAN.(nodes := HEAVY, terminal := Some(HEAVY_END));
    HeavySettles(s);
    hide Run, Dense, NoneOverdrawn;
    CutOffUniques(lower, target, HEAVY + [TerminalRecord(HEAVY_END)], r);
  }

  lemma HeavySettles(s: Scan)
    requires HasTree(s) && s.nodes == HEAVY
    ensures Settles(s)
  {
    var u := Uniques(ParentsOf(HEAVY), EntriesOf(HEAVY), FactsOf(HEAVY), SelfsOf(HEAVY));
    forall d | 0 <= d < 4
      ensures u[d] == if d == 0 then 3 * TWO_63 else TWO_63
    {
      HeavyUnique(d);
    }
    HeavyPart(0, 0);
    DenseVectors(HEAVY);
    NothingLost(ParentsOf(HEAVY), u, 0, 4);
  }

  // ---- Unique bytes beyond 64 bits: a panic

  /** Two directories that share the same two objects of 2^63 bytes. */
  const SHARED: seq<Record> := [
    Folder(1, 0), Folder(2, 1), Folder(3, 1),
    File(4, 2, Some(Object(1)), Some(TWO_63)), File(5, 2, Some(Object(2)), Some(TWO_63)),
    File(6, 3, Some(Object(1)), Some(TWO_63)), File(7, 3, Some(Object(2)), Some(TWO_63))]

  const SHARED_END: Terminal := Terminal(Finished, 3, 4, 0, U64_MAX, 0, 0)

  lemma TotalOfSeven(nodes: seq<Record>, q: Record -> nat)
    requires |nodes| == 7
    ensures Total(nodes, q) == q(nodes[0]) + q(nodes[1]) + q(nodes[2]) + q(nodes[3]) + q(nodes[4]) + q(nodes[5]) + q(nodes[6])
  {
    TotalOfFour(nodes[0], nodes[1], nodes[2], nodes[3], q);
    assert nodes[..4] == [nodes[0], nodes[1], nodes[2], nodes[3]];
    assert nodes[..5] == nodes[..4] + [nodes[4]] && nodes[..6] == nodes[..5] + [nodes[5]] && nodes == nodes[..6] + [nodes[6]];
    TotalAppend(nodes[..4], nodes[4], q);
    TotalAppend(nodes[..5], nodes[5], q);
    TotalAppend(nodes[..6], nodes[6], q);
  }

  lemma SharedDense()
    ensures Dense(SHARED)
  {
    forall i | 0 < i < |SHARED|
      ensures HasParent(SHARED, SHARED[i], i)
    {
    }
  }

  lemma SharedAccepted()
    ensures Run(SHARED + [TerminalRecord(SHARED_END)]) == (EMPTY_SCAN.(nodes := SHARED, terminal := Some(SHARED_END)), None)
  {
    SharedDense();
    TotalOfSeven(SHARED, IsDir);
    TotalOfSeven(SHARED, IsFile);
    TotalOfSeven(SHARED, LogicalBytes);
    TotalOfSeven(SHARED, AllocatedBytes);
    hide Run, Total, Dense;
    ClosedAccepted(SHARED, SHARED_END);
  }

  lemma SharedVectors()
    ensures Dense(SHARED) && IsTree(ParentsOf(SHARED)) && FactsOk(EntriesOf(SHARED), FactsOf(SHARED))
    ensures ParentsOf(SHARED) == [0, 0, 0, 1, 1, 2, 2]
    ensures FactsOf(SHARED).ident == [None, None, None, Some(Object(1)), Some(Object(2)), Some(Object(1)), Some(Object(2))]
  {
    SharedDense();
    hide Dense;
    DenseVectors(SHARED);
  }

  /** Every alias weighs 2^63. */
  lemma SharedBytes(x: nat)
    requires 3 <= x < 7
    ensures Dense(SHARED) && IsTree(ParentsOf(SHARED)) && FactsOk(EntriesOf(SHARED), FactsOf(SHARED))
    ensures Bytes(EntriesOf(SHARED), FactsOf(SHARED), SelfsOf(SHARED), x) == TWO_63
  {
    SharedVectors();
    hide Dense, Weight;
    WeightIsLeast(EntriesOf(SHARED), FactsOf(SHARED), x);
    assert SameIdentity(FactsOf(SHARED), x, x);
  }

  lemma SharedUnder(d: nat, x: nat)
    requires d <= 2 && 3 <= x < 7
    ensures IsTree([0, 0, 0, 1, 1, 2, 2]) && (Under([0, 0, 0, 1, 1, 2, 2], d, x) <==> d == 0 || (d == 1 && x <= 4) || (d == 2 && x >= 5))
  {
    var par: seq<nat> := [0, 0, 0, 1, 1, 2, 2];
    assert Under(par, d, par[x]) <==> d == par[x] || Under(par, d, 0);
  }

  /** The second directory's aliases repeat those of the first, unless only the second is looked at. */
  lemma SharedCounted(d: nat, x: nat)
    requires d <= 2 && 3 <= x < 7
    ensures IsTree(ParentsOf(SHARED)) && |FactsOf(SHARED).ident| == |ParentsOf(SHARED)| == 7
    ensures Accounting.Counted(ParentsOf(SHARED), FactsOf(SHARED), d, x) <==> d <= 1 && x >= 5
  {
    SharedVectors();
    hide Dense, Under;
    var f := FactsOf(SHARED);
    if x >= 5 {
      SharedUnder(d, x - 2);
      assert SameIdentity(f, x - 2, x);
    }
    forall y | 0 <= y < x && SameIdentity(f, y, x)
      ensures x >= 5 && y == x - 2
    {
    }
  }

  /** In each scope two of the four aliases count. */
  lemma SharedPart(d: nat, x: nat)
    requires d <= 2 && x < 7
    ensures Dense(SHARED) && IsTree(ParentsOf(SHARED)) && FactsOk(EntriesOf(SHARED), FactsOf(SHARED))
    ensures Part(ParentsOf(SHARED), EntriesOf(SHARED), FactsOf(SHARED), SelfsOf(SHARED), d, x)
         == if (if d == 2 then 5 <= x else 3 <= x <= 4) then TWO_63 else 0
  {
    SharedVectors();
    hide Dense, Accounting.Counted;
    if x >= 3 {
      SharedUnder(d, x);
      SharedCounted(d, x);
      SharedBytes(x);
      hide Bytes;
    }
  }

  lemma SharedUnique(d: nat)
    requires d <= 2
    ensures Dense(SHARED) && IsTree(ParentsOf(SHARED)) && FactsOk(EntriesOf(SHARED), FactsOf(SHARED))
    ensures UniqueOf(ParentsOf(SHARED), EntriesOf(SHARED), FactsOf(SHARED), SelfsOf(SHARED), d) == TWO_64
  {
    SharedVectors();
    hide Dense, Part;
    var par, entries, f, self := ParentsOf(SHARED), EntriesOf(SHARED), FactsOf(SHARED), SelfsOf(SHARED);
    UniqueParts(par, entries, f, self, d, 7);
    forall x | 0 <= x < 7
      ensures Part(par, entries, f, self, d, x) == if (if d == 2 then 5 <= x else 3 <= x <= 4) then TWO_63 else 0
    {
      SharedPart(d, x);
    }
    assert Parts(par, entries, f, self, d, 0, 3) == 0;
    assert Parts(par, entries, f, self, d, 0, 5) == if d == 2 then 0 else TWO_64;
    assert Parts(par, entries, f, self, d, 0, 7) == TWO_64;
  }

  /** Both directories have 2^64 unique bytes and lose them; the root, with 2^64 unique bytes too, is overdrawn. */
  lemma SharedOverdrawn(s: Scan)
    requires HasTree(s) && s.nodes == SHARED
    ensures !Settles(s)
  {
    SharedVectors();
    hide Dense;
    var par := ParentsOf(SHARED);
    var u := Uniques(par, EntriesOf(SHARED), FactsOf(SHARED), SelfsOf(SHARED));
    SharedUnique(0);
    SharedUnique(1);
    SharedUnique(2);
    hide UniqueOf;
    TwoCarries(par, u);
    assert EntriesOf(SHARED)[0].kind == EntryKind.Directory;
    hide Covered;
  }

  lemma TwoCarries(par: seq<nat>, u: seq<int>)
    requires par == [0, 0, 0, 1, 1, 2, 2] && |u| == 7 && u[0] == u[1] == u[2] == TWO_64
    ensures IsTree(par) && !Covered(par, u, 0)
  {
    var carry := CarrySeq(u);
    assert carry[1] == 1 == carry[2];
    assert SumChildren(par, 0, carry, 3) == 2;
    SumChildrenSkip(par, 0, carry, 3, 7);
  }

  /** The stream is accepted and the engine panics on it. */
  lemma SharedPanics(lower: string -> string, target: string, r: BuildResult)
    requires BuildOutcome(lower, target, SHARED + [TerminalRecord(SHARED_END)], false, r)
    ensures Accepted(SHARED + [TerminalRecord(SHARED_END)]) && r.Panicked?
  {
    SharedAccepted();
    var s := EMPTY_SCAN.(nodes := SHARED, terminal := Some(SHARED_END));
    hide Run, Settles;
    CutOffUniques(lower, target, SHARED + [TerminalRecord(SHARED_END)], r);
    SharedOverdrawn(s);
  }

  // ---- More unique than referenced bytes

  /** An object with an alias of unknown size in one directory and one of five bytes in another. */
  const LOST: seq<Record> := [
    Folder(1, 0), Folder(2, 1), Folder(3, 1), File(4, 2, Some(Object(1)), None), File(5, 3, Some(Object(1)), Some(5))]

  const LOST_END: Terminal := Terminal(Finished, 3, 2, 0, 5, 0, 0)

  lemma TotalOfFive(nodes: seq<Record>, q: Record -> nat)
    requires |nodes| == 5
    ensures Total(nodes, q) == q(nodes[0]) + q(nodes[1]) + q(nodes[2]) + q(nodes[3]) + q(nodes[4])
  {
    TotalOfFour(nodes[0], nodes[1], nodes[2], nodes[3], q);
    assert nodes == [nodes[0], nodes[1], nodes[2], nodes[3]] + [nodes[4]];
    TotalAppend([nodes[0], nodes[1], nodes[2], nodes[3]], nodes[4], q);
  }

  lemma LostDense()
    ensures Dense(LOST)
  {
    forall i | 0 < i < |LOST|
      ensures HasParent(LOST, LOST[i], i)
    {
    }
  }

  lemma LostAccepted()
    ensures Dense(LOST) && Total(LOST, AllocatedBytes) == 5
    ensures Run(LOST + [TerminalRecord(LOST_END)]) == (EMPTY_SCAN.(nodes := LOST, terminal := Some(LOST_END)), None)
  {
    LostDense();
    TotalOfFive(LOST, IsDir);
    TotalOfFive(LOST, IsFile);
    TotalOfFive(LOST, LogicalBytes);
    TotalOfFive(LOST, AllocatedBytes);
    hide Run, Total, Dense;
    ClosedAccepted(LOST, LOST_END);
  }

  lemma LostVectors()
    ensures Dense(LOST) && IsTree(ParentsOf(LOST)) && FactsOk(EntriesOf(LOST), FactsOf(LOST))
    ensures ParentsOf(LOST) == [0, 0, 0, 1, 2]
    ensures FactsOf(LOST).ident == [None, None, None, Some(Object(1)), Some(Object(1))]
  {
    LostDense();
    hide Dense;
    DenseVectors(LOST);
  }

  lemma LostUnder(x: nat)
    requires x < 5
    ensures IsTree([0, 0, 0, 1, 2]) && (Under([0, 0, 0, 1, 2], 1, x) <==> x == 1 || x == 3)
  {
    var par: seq<nat> := [0, 0, 0, 1, 2];
    assert Under(par, 1, par[x]) <==> 1 == par[x] || Under(par, 1, 0);
  }

  /** The directory with the unknown size refers to nothing and has five unique bytes. */
  lemma LostScope()
    ensures Dense(LOST) && IsTree(ParentsOf(LOST)) && FactsOk(EntriesOf(LOST), FactsOf(LOST))
    ensures ReferencedOf(ParentsOf(LOST), EntriesOf(LOST), SelfsOf(LOST), 1) == 0
    ensures UniqueOf(ParentsOf(LOST), EntriesOf(LOST), FactsOf(LOST), SelfsOf(LOST), 1) >= 5
  {
    LostVectors();
    hide Dense;
    var par, entries, f, self := ParentsOf(LOST), EntriesOf(LOST), FactsOf(LOST), SelfsOf(LOST);
    forall x | 0 <= x < 5
      ensures !Under(par, 1, x) || AllocSeq(entries, self)[x] == 0
    {
      LostUnder(x);
    }
    SumUnderNothing(par, 1, AllocSeq(entries, self), 5);
    LostUnder(3);
    WeightIsLeast(entries, f, 3);
    assert SameIdentity(f, 4, 3);
    hide Weight;
    UniqueCountsFirst(par, entries, f, self, 1, 3, 5);
  }

  /** The stream is accepted and built, and that directory reports more unique than referenced bytes. */
  lemma LostExceeds(lower: string -> string, target: string, r: BuildResult)
    requires BuildOutcome(lower, target, LOST + [TerminalRecord(LOST_END)], false, r)
    ensures Accepted(LOST + [TerminalRecord(LOST_END)]) && r.Built? && |r.graph.entries| == 5
    ensures r.graph.entries[1].referenced == 0 && r.graph.entries[1].unique >= 5
  {
    LostAccepted();
    LostScope();
    var s := EMPTY_SCAN.(nodes := LOST, terminal := Some(LOST_END));
    hide Run, Dense, Total, ReferencedOf, UniqueOf, GraphOf, Settles;
    UnsaturatedIsExact(lower, target, LOST + [TerminalRecord(LOST_END)], r);
    ReferencedIn(lower, target, s, r.graph, 1);
  }

  // ---- A rejected scan

  /** A file of 2^63 - 1 logical bytes. */
  const BIG: Fact := Fact("f", PLAIN, None, None, NotObserved, TWO_63 - 1)

  const BIG_TREE: Dir := Success([Item(BIG, OpenFailed(2)), Item(BIG, OpenFailed(2)), Item(BIG, OpenFailed(2))])

  lemma MeasureOfThree(own: Dir -> nat, each: Fact -> nat)
    ensures Measure(BIG_TREE, own, each) == own(BIG_TREE) + 3 * each(BIG)
  {
    assert MeasureItems(BIG_TREE, 0, own, each) == 0;
    assert MeasureItems(BIG_TREE, 1, own, each) == each(BIG);
    assert MeasureItems(BIG_TREE, 2, own, each) == 2 * each(BIG);
    assert MeasureItems(BIG_TREE, 3, own, each) == 3 * each(BIG);
  }

  /** A scan of three such files runs to its end and is rejected: the worker's total wraps, the builder's saturates. */
  method BigScanRejected(duration: u64) returns (records: seq<Record>, term: Terminal)
    ensures term.outcome == Finished && |records| <= U32_MAX
    ensures Run(records).1 == Some(AggregateMismatch("total_logical_bytes", TWO_63 - 3, U64_MAX))
  {
    MeasureOfThree(GapHere, OneFact);
    MeasureOfThree(Stops, NoFact);
    MeasureOfThree(NoDir, LogicalOfFact);
    var root := RootFound(Meta(FILE_ATTRIBUTE_DIRECTORY, 0, 0, 0, 0), None, None);
    assert HasBit(FILE_ATTRIBUTE_DIRECTORY, FILE_ATTRIBUTE_DIRECTORY);
    hide Measure, MeasureItems, Run, Total, ShowsTree, Delivered, SizesAgree, AllocatedTotal, CountersAgree;
    ghost var s;
    records, term, s := ScanDirectory("r", root, BIG_TREE, _ => "", _ => false, duration);
    OverflowRejected(records, term, s);
  }

  lemma OverflowRejected(records: seq<Record>, term: Terminal, s: Scan)
    requires Delivered(records, term, s) && Total(s.nodes, LogicalBytes) == 3 * (TWO_63 - 1)
    ensures |records| <= U32_MAX
    ensures Run(records).1 == Some(AggregateMismatch("total_logical_bytes", TWO_63 - 3, U64_MAX))
  {
    BigWraps();
    hide Total, Run, Dense, CountersAgree, Accepted;
    NotAccepted(records, term, s);
    RejectedForBytes(records, term, s);
  }

  lemma NotAccepted(records: seq<Record>, term: Terminal, s: Scan)
    requires Delivered(records, term, s) && !CountersAgree(Total(s.nodes, LogicalBytes))
    ensures 0 < |records| < NONE && !Accepted(records) && term.totalLogicalBytes == Total(s.nodes, LogicalBytes) % TWO_64
  {
    hide Total, Dense, CountersAgree, Accepted;
  }

  lemma BigWraps()
    ensures 3 * (TWO_63 - 1) % TWO_64 == TWO_63 - 3 && !CountersAgree(3 * (TWO_63 - 1))
  {
  }

  // ---- A scan that cannot be written

  /** `n` times the same ASCII letter. */
  function Letters(n: nat): (r: string)
    ensures |r| == n && IsAscii(r) && forall i :: 0 <= i < n ==> r[i] == 'a'
  {
    seq(n, _ => 'a')
  }

  lemma AsciiSize(u: Utf8, t: string)
    requires Lawful(u) && IsAscii(t)
    ensures |u.encode(t)| == |t|
  {
  }

  /** A target of 65536 letters is one too long for its 16-bit length: whatever lies below it, no graph is built. */
  method LongTargetUnread(u: Utf8, root: RootEvidence, tree: Dir, message: u32 -> string, cancelled: nat -> bool,
                          duration: u64, lower: string -> string, due: nat -> bool) returns (r: BuildResult)
    requires Lawful(u) && Records(tree) < NONE - 3
    ensures r == Unreadable
  {
    AsciiSize(u, Letters(65536));
    var written, term;
    ghost var s;
    written, r, term, s := ScanToGraph(u, Letters(65536), root, tree, message, cancelled, duration, lower, due);
  }

  /** A directory with a name of 255 letters. */
  const NESTED: Fact := Fact(Letters(255), Meta(FILE_ATTRIBUTE_DIRECTORY, 0, 0, 0, 0), None, None, NotApplicable, 0)

  /** `n` such directories inside each other; the innermost one denies access. */
  function Deep(n: nat): Dir {
    if n == 0 then OpenFailed(5) else Success([Item(NESTED, Deep(n - 1))])
  }

  lemma NestedDescends()
    ensures Descends(NESTED) && !IsDots(NESTED.name)
  {
  }

  lemma {:induction false} DeepMeasure(n: nat, own: Dir -> nat, each: Fact -> nat, perDirectory: nat)
    requires forall k: nat :: 0 < k <= n ==> own(Deep(k)) == perDirectory
    ensures Measure(Deep(n), own, each) == own(Deep(0)) + n * (perDirectory + each(NESTED))
    decreases n
  {
    if n > 0 {
      NestedDescends();
      DeepMeasure(n - 1, own, each, perDirectory);
      var dir := Deep(n);
      assert MeasureItems(dir, 1, own, each) == MeasureItems(dir, 0, own, each) + each(NESTED) + Measure(Deep(n - 1), own, each);
    }
  }

  /** The one gap of such a file system carries the whole path. */
  lemma {:induction false} DeepGap(n: nat, path: string, message: u32 -> string)
    requires IsAscii(path) && path != "" && path[|path| - 1] != '\\'
    ensures var gaps := GapList(Deep(n), path, message);
      |gaps| == 1 && IsAscii(gaps[0].path) && |gaps[0].path| == |path| + 256 * n && gaps[0].errorMessage == message(5)
    decreases n
  {
    var dir := Deep(n);
    if n == 0 {
      assert GapsFrom(dir, path, 0, message) == [];
    } else {
      NestedDescends();
      DeepGap(n - 1, ChildPath(path, NESTED.name), message);
      assert GapsFrom(dir, path, 1, message) == [];
      assert GapList(dir, path, message) == [] + ([] + GapList(Deep(n - 1), ChildPath(path, NESTED.name), message));
    }
  }

  lemma {:induction false} DeepNamesFit(u: Utf8, n: nat)
    requires Lawful(u)
    ensures NamesFit(Deep(n), TextFits(u))
    decreases n
  {
    AsciiSize(u, NESTED.name);
    if n > 0 {
      DeepNamesFit(u, n - 1);
    }
  }

  /** The target, all names and the message are short, but the path of the one directory that denies access has 65537
      bytes: the scan runs to its end, the gap cannot be written, and no graph is built. */
  method DeepGapUnread(u: Utf8, duration: u64, lower: string -> string, due: nat -> bool) returns (r: BuildResult, term: Terminal)
    requires Lawful(u)
    ensures StringFits(u, "r") && NamesFit(Deep(256), TextFits(u)) && StringFits(u, "")
    ensures term.outcome == Finished && r == Unreadable
  {
    var message: u32 -> string := _ => "";
    var root := RootFound(Meta(FILE_ATTRIBUTE_DIRECTORY, 0, 0, 0, 0), None, None);
    assert Traversable(root);
    DeepMeasure(256, GapHere, OneFact, 0);
    DeepMeasure(256, Stops, NoFact, 0);
    DeepNamesFit(u, 256);
    AsciiSize(u, "r");
    EmptyText(u);
    hide Measure, NamesFit, Deep;
    DeepTooLong(u, root, message);
    var written;
    ghost var s;
    written, r, term, s := ScanToGraph(u, "r", root, Deep(256), message, _ => false, duration, lower, due);
  }

  lemma DeepTooLong(u: Utf8, root: RootEvidence, message: u32 -> string)
    requires Lawful(u) && Traversable(root)
    ensures !StringsFit(TextFits(u), "r", root, Deep(256), message)
  {
    DeepGap(256, "r", message);
    AsciiSize(u, GapList(Deep(256), "r", message)[0].path);
    hide GapList, Deep, NamesFit;
  }
}
