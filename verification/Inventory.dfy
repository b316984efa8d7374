/** The file system and the stream counted against each other: how often entries with given properties occur, which gaps there
    are, and what the unique bytes of the whole target are. */
module Inventory {
  import opened Words
  import opened Observation
  import Graph
  import opened Scan
  import opened Outcome
  import opened Accounting
  import opened Forest
  import opened Guarantees
  import opened FileSystem
  import opened Worker
  import opened Census
  import opened Contents

  // ---- Facts and records

  /** Neither a device nor a directory. */
  predicate IsFileFact(f: Fact) {
    !AttributeSet(f.meta.fileAttributes, 0x40) && !AttributeSet(f.meta.fileAttributes, 0x10)
  }

  /** A record shows a fact: devices as special objects with name, attributes and identity; directories also with their
      allocation; everything else as files with all evidence. */
  ghost predicate Describes(r: Record, f: Fact) {
    && r.IsEntry() && r.name == f.name && r.meta == f.meta && r.objectId == f.objectId
    && (r.SpecialRecord? <==> AttributeSet(f.meta.fileAttributes, 0x40))
    && (r.FileRecord? <==> IsFileFact(f))
    && (r.DirectoryRecord? ==> r.allocatedSize == f.allocatedSize && r.linkCount == NotApplicable)
    && (r.FileRecord? ==> r.allocatedSize == f.allocatedSize && r.linkCount == f.linkCount && r.logicalSize == f.logicalSize)
  }

  lemma RecordDescribes(f: Fact, id: u32, parentId: u32)
    ensures Describes(RecordOf(f, id, parentId), f)
  {
    hide HasBit, AttributeSet;
    BitTests(f.meta.fileAttributes);
  }

  /** A directory the scan enters. */
  predicate Entered(f: Fact) {
    AttributeSet(f.meta.fileAttributes, 0x10) && !AttributeSet(f.meta.fileAttributes, 0x40) && !AttributeSet(f.meta.fileAttributes, 0x400)
  }

  lemma EnteredDescends(f: Fact)
    ensures Entered(f) <==> Descends(f)
  {
    hide HasBit, AttributeSet;
    BitTests(f.meta.fileAttributes);
  }

  /** Everything a full scan of `dir` lists: its entries but the dot entries, each followed by what is below it if it is entered. */
  ghost function Listed(dir: Dir): seq<Fact>
    decreases dir, |Items(dir)| + 1
  {
    ListedUpTo(dir, |Items(dir)|)
  }

  ghost function ListedUpTo(dir: Dir, m: nat): seq<Fact>
    requires m <= |Items(dir)|
    decreases dir, m
  {
    if m == 0 then []
    else
      var item := Items(dir)[m - 1];
      ListedUpTo(dir, m - 1)
      + if item.fact.name == "." || item.fact.name == ".." then []
        else [item.fact] + (if Entered(item.fact) then Listed(item.below) else [])
  }

  ghost function SumOf(facts: seq<Fact>, each: Fact -> nat): nat {
    if facts == [] then 0 else SumOf(facts[..|facts| - 1], each) + each(facts[|facts| - 1])
  }

  lemma {:induction false} SumOfConcat(a: seq<Fact>, b: seq<Fact>, each: Fact -> nat)
    ensures SumOf(a + b, each) == SumOf(a, each) + SumOf(b, each)
    decreases |b|
  {
    if b == [] {
      assert a + b == a;
    } else {
      assert (a + b)[..|a + b| - 1] == a + b[..|b| - 1];
      SumOfConcat(a, b[..|b| - 1], each);
    }
  }

  lemma {:induction false} MeasureIsSum(dir: Dir, each: Fact -> nat)
    ensures Measure(dir, NoDir, each) == SumOf(Listed(dir), each)
    decreases dir, |Items(dir)| + 1
  {
    MeasureItemsIsSum(dir, |Items(dir)|, each);
  }

  lemma {:induction false} MeasureItemsIsSum(dir: Dir, m: nat, each: Fact -> nat)
    requires m <= |Items(dir)|
    ensures MeasureItems(dir, m, NoDir, each) == SumOf(ListedUpTo(dir, m), each)
    decreases dir, m
  {
    hide Entered, Descends, Measure, Listed, SumOf;
    if m == 0 {
      NothingSummed(each);
    } else {
      var item := Items(dir)[m - 1];
      MeasureItemsIsSum(dir, m - 1, each);
      MeasureIsSum(item.below, each);
      EnteredDescends(item.fact);
      ItemSummed(ListedUpTo(dir, m - 1), item.fact, Listed(item.below), each);
    }
  }

  lemma NothingSummed(each: Fact -> nat)
    ensures SumOf([], each) == 0
  {
  }

  lemma ItemSummed(before: seq<Fact>, f: Fact, below: seq<Fact>, each: Fact -> nat)
    ensures SumOf(before + [], each) == SumOf(before, each)
    ensures SumOf(before + ([f] + []), each) == SumOf(before, each) + each(f)
    ensures SumOf(before + ([f] + below), each) == SumOf(before, each) + each(f) + SumOf(below, each)
  {
    assert before + [] == before && [f] + [] == [f] && [f][..0] == [];
    SumOfConcat([f], below, each);
    SumOfConcat(before, [f] + below, each);
    SumOfConcat(before, [f], each);
  }

  // ---- Entries against facts

  /** `q` says of every record what `each` says of the fact it shows. */
  ghost predicate Alike(q: Record -> nat, each: Fact -> nat) {
    forall r: Record, f: Fact :: Describes(r, f) ==> q(r) == each(f)
  }

  /** Whatever is said alike of records and facts is counted alike over the entries and over the root and everything listed: the
      stream has no more of it, and if `exact` just as much. */
  ghost predicate Tallied(root: Record, tree: Dir, s: Scan, exact: bool) {
    forall q: Record -> nat, each: Fact -> nat :: Alike(q, each) ==>
      Total(s.nodes, q) <= q(root) + SumOf(Listed(tree), each) && (exact ==> Total(s.nodes, q) == q(root) + SumOf(Listed(tree), each))
  }

  /** A scan is tallied, and exactly once it has finished. */
  lemma EntriesTallied(root: Record, tree: Dir, s: Scan, exact: bool)
    requires Sized(root, tree, s, exact)
    ensures Tallied(root, tree, s, exact)
  {
    hide Measure, Total, SumOf, Listed, Alike, Weighs;
    forall q: Record -> nat, each: Fact -> nat | Alike(q, each)
      ensures Weighs(q, each) && Measure(tree, NoDir, each) == SumOf(Listed(tree), each)
    {
      AlikeWeighs(q, each);
      MeasureIsSum(tree, each);
    }
  }

  lemma AlikeWeighs(q: Record -> nat, each: Fact -> nat)
    requires Alike(q, each)
    ensures Weighs(q, each)
  {
    hide Describes, RecordOf;
    forall f: Fact, id: u32, parentId: u32
      ensures q(RecordOf(f, id, parentId)) == each(f)
    {
      RecordDescribes(f, id, parentId);
    }
  }

  /** Two quantities said alike, counted. */
  lemma EntriesCounted(root: Record, tree: Dir, s: Scan, exact: bool, q: Record -> nat, each: Fact -> nat)
    requires Tallied(root, tree, s, exact) && Alike(q, each)
    ensures Total(s.nodes, q) <= q(root) + SumOf(Listed(tree), each)
    ensures exact ==> Total(s.nodes, q) == q(root) + SumOf(Listed(tree), each)
  {
    hide Total, SumOf, Listed, Alike;
  }

  /** Files that name an identity. */
  function FileFactsOf(oid: ObjectIdentity): Fact -> nat {
    (f: Fact) => if IsFileFact(f) && f.objectId == Some(oid) then 1 else 0
  }

  /** As many file entries name an identity as files with it were listed, and at most as many before the scan has finished. */
  lemma FilesCounted(root: Record, tree: Dir, s: Scan, exact: bool, oid: ObjectIdentity)
    requires Tallied(root, tree, s, exact) && root.DirectoryRecord?
    ensures Total(s.nodes, FilesOf(oid)) <= SumOf(Listed(tree), FileFactsOf(oid))
    ensures exact ==> Total(s.nodes, FilesOf(oid)) == SumOf(Listed(tree), FileFactsOf(oid))
  {
    hide Tallied, Total, SumOf, Listed, AttributeSet;
    EntriesCounted(root, tree, s, exact, FilesOf(oid), FileFactsOf(oid));
  }

  /** File entries with the given evidence. */
  function FilesWith(objectId: Option<ObjectIdentity>, alloc: Option<u64>, link: ValueKnowledge, logical: u64): Record -> nat {
    (r: Record) =>
      if r.FileRecord? && r.objectId == objectId && r.allocatedSize == alloc && r.linkCount == link && r.logicalSize == logical then 1 else 0
  }

  function FileFactsWith(objectId: Option<ObjectIdentity>, alloc: Option<u64>, link: ValueKnowledge, logical: u64): Fact -> nat {
    (f: Fact) =>
      if IsFileFact(f) && f.objectId == objectId && f.allocatedSize == alloc && f.linkCount == link && f.logicalSize == logical then 1 else 0
  }

  /** The same for every combination of identity, allocation, link count and size of a file. */
  lemma EvidenceCounted(root: Record, tree: Dir, s: Scan, exact: bool,
                        objectId: Option<ObjectIdentity>, alloc: Option<u64>, link: ValueKnowledge, logical: u64)
    requires Tallied(root, tree, s, exact) && root.DirectoryRecord?
    ensures var n, m := Total(s.nodes, FilesWith(objectId, alloc, link, logical)), SumOf(Listed(tree), FileFactsWith(objectId, alloc, link, logical));
      n <= m && (exact ==> n == m)
  {
    hide Tallied, Total, SumOf, Listed, AttributeSet;
    EntriesCounted(root, tree, s, exact, FilesWith(objectId, alloc, link, logical), FileFactsWith(objectId, alloc, link, logical));
  }

  /** Entries of the given kind, name, attributes, times and identity. */
  function EntriesLike(kind: Graph.EntryKind, name: string, meta: Meta, objectId: Option<ObjectIdentity>): Record -> nat {
    (r: Record) =>
      if r.IsEntry() && r.name == name && r.meta == meta && r.objectId == objectId
         && (kind.Special? <==> r.SpecialRecord?) && (kind.Directory? <==> r.DirectoryRecord?) then 1 else 0
  }

  function FactsLike(kind: Graph.EntryKind, name: string, meta: Meta, objectId: Option<ObjectIdentity>): Fact -> nat {
    (f: Fact) =>
      if f.name == name && f.meta == meta && f.objectId == objectId
         && (kind.Special? <==> AttributeSet(f.meta.fileAttributes, 0x40)) && (kind.Directory? <==> !AttributeSet(f.meta.fileAttributes, 0x40) && AttributeSet(f.meta.fileAttributes, 0x10)) then 1 else 0
  }

  /** The same for every combination of kind, name, attributes, times and identity. */
  lemma KindsCounted(root: Record, tree: Dir, s: Scan, exact: bool,
                     kind: Graph.EntryKind, name: string, meta: Meta, objectId: Option<ObjectIdentity>)
    requires Tallied(root, tree, s, exact) && root.DirectoryRecord?
    ensures var own := if kind.Directory? && root.name == name && root.meta == meta && root.objectId == objectId then 1 else 0;
      var n, m := Total(s.nodes, EntriesLike(kind, name, meta, objectId)), own + SumOf(Listed(tree), FactsLike(kind, name, meta, objectId));
      n <= m && (exact ==> n == m)
  {
    hide Tallied, Total, SumOf, Listed, AttributeSet;
    EntriesCounted(root, tree, s, exact, EntriesLike(kind, name, meta, objectId), FactsLike(kind, name, meta, objectId));
  }

  // ---- Identities, allocations and link counts listed

  lemma {:induction false} SumPositive(facts: seq<Fact>, each: Fact -> nat)
    ensures SumOf(facts, each) > 0 <==> exists i :: 0 <= i < |facts| && each(facts[i]) > 0
    decreases |facts|
  {
    if facts != [] {
      var n := |facts| - 1;
      SumPositive(facts[..n], each);
      if i :| 0 <= i < |facts[..n]| && each(facts[..n][i]) > 0 {
        assert each(facts[i]) > 0;
      }
      if i :| 0 <= i < |facts| && each(facts[i]) > 0 {
        assert i < n ==> each(facts[..n][i]) > 0;
      }
    }
  }

  lemma {:induction false} TotalPositive(nodes: seq<Record>, q: Record -> nat)
    ensures Total(nodes, q) > 0 <==> exists x :: 0 <= x < |nodes| && q(nodes[x]) > 0
    decreases |nodes|
  {
    if nodes != [] {
      var n := |nodes| - 1;
      TotalPositive(nodes[..n], q);
      if x :| 0 <= x < |nodes[..n]| && q(nodes[..n][x]) > 0 {
        assert q(nodes[x]) > 0;
      }
      if x :| 0 <= x < |nodes| && q(nodes[x]) > 0 {
        assert x < n ==> q(nodes[..n][x]) > 0;
      }
    }
  }

  /** What occurs among the entries of a finished scan occurs among the facts, and the other way round. */
  lemma OccursAlike(root: Record, tree: Dir, s: Scan, q: Record -> nat, each: Fact -> nat)
    requires Tallied(root, tree, s, true) && q(root) == 0
    requires Alike(q, each)
    ensures (exists x :: 0 <= x < |s.nodes| && q(s.nodes[x]) > 0)
       <==> exists i :: 0 <= i < |Listed(tree)| && each(Listed(tree)[i]) > 0
  {
    hide Tallied, Total, SumOf, Listed, Describes;
    EntriesCounted(root, tree, s, true, q, each);
    TotalPositive(s.nodes, q);
    SumPositive(Listed(tree), each);
  }

  /** A listed file with identity `oid`. */
  ghost predicate FactNames(facts: seq<Fact>, i: nat, oid: ObjectIdentity) {
    i < |facts| && IsFileFact(facts[i]) && facts[i].objectId == Some(oid)
  }

  ghost function IdentitiesListed(facts: seq<Fact>): set<ObjectIdentity> {
    set i | 0 <= i < |facts| && IsFileFact(facts[i]) && facts[i].objectId.Some? :: facts[i].objectId.value
  }

  ghost function AllocsListed(facts: seq<Fact>, oid: ObjectIdentity): set<u64> {
    set i | 0 <= i < |facts| && FactNames(facts, i, oid) && facts[i].allocatedSize.Some? :: facts[i].allocatedSize.value
  }

  ghost function LinksListed(facts: seq<Fact>, oid: ObjectIdentity): set<ValueKnowledge> {
    set i | 0 <= i < |facts| && FactNames(facts, i, oid) :: facts[i].linkCount
  }

  /** Some file entry with identity `oid` reports evidence of the kind `p`. */
  ghost predicate Reported(nodes: seq<Record>, oid: ObjectIdentity, p: (Option<u64>, ValueKnowledge) -> bool) {
    exists x: nat :: Names(nodes, x, oid) && p(nodes[x].allocatedSize, nodes[x].linkCount)
  }

  ghost predicate Evident(facts: seq<Fact>, oid: ObjectIdentity, p: (Option<u64>, ValueKnowledge) -> bool) {
    exists i: nat :: FactNames(facts, i, oid) && p(facts[i].allocatedSize, facts[i].linkCount)
  }

  /** The evidence about an identity is the same in the entries of a finished scan and in what was listed. */
  lemma EvidenceAlike(root: Record, tree: Dir, s: Scan, oid: ObjectIdentity, p: (Option<u64>, ValueKnowledge) -> bool)
    requires Tallied(root, tree, s, true) && root.DirectoryRecord?
    ensures Reported(s.nodes, oid, p) <==> Evident(Listed(tree), oid, p)
  {
    hide Tallied, Listed, AttributeSet, Reported, Evident;
    var q := (r: Record) => if r.FileRecord? && r.objectId == Some(oid) && p(r.allocatedSize, r.linkCount) then 1 as nat else 0;
    var each := (f: Fact) => if IsFileFact(f) && f.objectId == Some(oid) && p(f.allocatedSize, f.linkCount) then 1 as nat else 0;
    OccursAlike(root, tree, s, q, each);
    ReportedMeans(s.nodes, oid, p, q);
    EvidentMeans(Listed(tree), oid, p, each);
  }

  lemma ReportedMeans(nodes: seq<Record>, oid: ObjectIdentity, p: (Option<u64>, ValueKnowledge) -> bool, q: Record -> nat)
    requires forall r: Record :: q(r) > 0 <==> r.FileRecord? && r.objectId == Some(oid) && p(r.allocatedSize, r.linkCount)
    ensures Reported(nodes, oid, p) <==> exists x :: 0 <= x < |nodes| && q(nodes[x]) > 0
  {
    if Reported(nodes, oid, p) {
      var x: nat :| Names(nodes, x, oid) && p(nodes[x].allocatedSize, nodes[x].linkCount);
      assert q(nodes[x]) > 0;
    }
    if x :| 0 <= x < |nodes| && q(nodes[x]) > 0 {
      assert Names(nodes, x, oid);
    }
  }

  lemma EvidentMeans(facts: seq<Fact>, oid: ObjectIdentity, p: (Option<u64>, ValueKnowledge) -> bool, each: Fact -> nat)
    requires forall f: Fact :: each(f) > 0 <==> IsFileFact(f) && f.objectId == Some(oid) && p(f.allocatedSize, f.linkCount)
    ensures Evident(facts, oid, p) <==> exists i :: 0 <= i < |facts| && each(facts[i]) > 0
  {
    hide AttributeSet;
    if Evident(facts, oid, p) {
      var i: nat :| FactNames(facts, i, oid) && p(facts[i].allocatedSize, facts[i].linkCount);
      assert each(facts[i]) > 0;
    }
    if i :| 0 <= i < |facts| && each(facts[i]) > 0 {
      assert FactNames(facts, i, oid);
    }
  }

  /** So the aliases of every identity, their allocations and their link counts are those that were listed. */
  lemma SeenAsListed(root: Record, tree: Dir, s: Scan, oid: ObjectIdentity)
    requires Tallied(root, tree, s, true) && root.DirectoryRecord?
    ensures (exists x: nat :: Names(s.nodes, x, oid)) <==> oid in IdentitiesListed(Listed(tree))
    ensures KnownAllocs(s.nodes, oid) == AllocsListed(Listed(tree), oid)
    ensures LinksSeen(s.nodes, oid) == LinksListed(Listed(tree), oid)
  {
    hide Tallied, Listed, IsFileFact;
    var facts := Listed(tree);
    var any := (alloc: Option<u64>, link: ValueKnowledge) => true;
    EvidenceAlike(root, tree, s, oid, any);
    assert (exists x: nat :: Names(s.nodes, x, oid)) <==> Reported(s.nodes, oid, any);
    assert oid in IdentitiesListed(facts) <==> exists i: nat :: FactNames(facts, i, oid);
    assert (exists i: nat :: FactNames(facts, i, oid)) <==> Evident(facts, oid, any);
    forall v: u64
      ensures v in KnownAllocs(s.nodes, oid) <==> v in AllocsListed(facts, oid)
    {
      AllocAlike(root, tree, s, oid, v);
    }
    forall v: ValueKnowledge
      ensures v in LinksSeen(s.nodes, oid) <==> v in LinksListed(facts, oid)
    {
      LinkAlike(root, tree, s, oid, v);
    }
  }

  lemma AllocAlike(root: Record, tree: Dir, s: Scan, oid: ObjectIdentity, v: u64)
    requires Tallied(root, tree, s, true) && root.DirectoryRecord?
    ensures v in KnownAllocs(s.nodes, oid) <==> v in AllocsListed(Listed(tree), oid)
  {
    hide Tallied, Listed, IsFileFact;
    var p := (alloc: Option<u64>, link: ValueKnowledge) => alloc == Some(v);
    EvidenceAlike(root, tree, s, oid, p);
    assert v in KnownAllocs(s.nodes, oid) <==> Reported(s.nodes, oid, p);
    assert v in AllocsListed(Listed(tree), oid) <==> Evident(Listed(tree), oid, p);
  }

  lemma LinkAlike(root: Record, tree: Dir, s: Scan, oid: ObjectIdentity, v: ValueKnowledge)
    requires Tallied(root, tree, s, true) && root.DirectoryRecord?
    ensures v in LinksSeen(s.nodes, oid) <==> v in LinksListed(Listed(tree), oid)
  {
    hide Tallied, Listed, IsFileFact;
    var p := (alloc: Option<u64>, link: ValueKnowledge) => link == v;
    EvidenceAlike(root, tree, s, oid, p);
    assert v in LinksSeen(s.nodes, oid) <==> Reported(s.nodes, oid, p);
    assert v in LinksListed(Listed(tree), oid) <==> Evident(Listed(tree), oid, p);
  }

  // ---- The unique bytes of the target

  /** What a fact adds on its own: a directory, or a file without identity, its allocation. */
  function OwnOfFact(f: Fact): nat {
    if f.allocatedSize.None? || AttributeSet(f.meta.fileAttributes, 0x40) || (IsFileFact(f) && f.objectId.Some?) then 0 else f.allocatedSize.value
  }

  ghost function LeastListed(facts: seq<Fact>): ObjectIdentity -> nat {
    oid => Least(AllocsListed(facts, oid))
  }

  /** The unique bytes of a file system: the own allocation of the root, of the listed directories and of the listed files
      without identity, and for every distinct identity of a listed file the smallest allocation that was listed for it. */
  ghost function UniqueOfTarget(root: RootEvidence, tree: Dir): nat {
    var facts := Listed(tree);
    (if root.RootFound? && root.allocatedSize.Some? then root.allocatedSize.value else 0)
    + SumOf(facts, OwnOfFact) + SumOver(IdentitiesListed(facts), LeastListed(facts))
  }

  lemma {:induction false} TotalIsBelowRoot(nodes: seq<Record>, par: seq<nat>, q: Record -> nat, m: nat)
    requires IsTree(par) && |par| == |nodes| && m <= |nodes|
    ensures TotalBelow(nodes, par, 0, q, m) == Total(nodes[..m], q)
    decreases m
  {
    if m > 0 {
      TotalIsBelowRoot(nodes, par, q, m - 1);
      UnderRoot(par, m - 1);
      assert nodes[..m][..m - 1] == nodes[..m - 1];
    }
  }

  lemma AllBelowRoot(root: Record, tree: Dir, s: Scan, par: seq<nat>)
    requires IsTree(par) && |par| == |s.nodes|
    requires Tallied(root, tree, s, true) && root.DirectoryRecord?
    ensures IdentitiesBelow(s.nodes, par, 0, |s.nodes|) == IdentitiesListed(Listed(tree))
  {
    hide Tallied, Listed, IsFileFact;
    forall oid
      ensures oid in IdentitiesBelow(s.nodes, par, 0, |s.nodes|) <==> oid in IdentitiesListed(Listed(tree))
    {
      SeenAsListed(root, tree, s, oid);
      if x: nat :| Names(s.nodes, x, oid) {
        UnderRoot(par, x);
      }
      if x :| 0 <= x < |s.nodes| && Under(par, 0, x) && s.nodes[x].FileRecord? && s.nodes[x].objectId == Some(oid) {
        assert Names(s.nodes, x, oid);
      }
    }
  }

  lemma OwnListed(root: Record, tree: Dir, s: Scan)
    requires Tallied(root, tree, s, true)
    ensures Total(s.nodes, OwnBytes) == OwnBytes(root) + SumOf(Listed(tree), OwnOfFact)
  {
    hide Tallied, Total, SumOf, Listed, AttributeSet;
    EntriesCounted(root, tree, s, true, OwnBytes, OwnOfFact);
  }

  /** The unique bytes at the root of a finished scan are those of the file system. */
  lemma TargetUnique(target: string, root: RootEvidence, tree: Dir, s: Scan)
    requires HasTree(s) && root.RootFound? && Tallied(RootRecord(target, root), tree, s, true)
    ensures UniqueIn(s, 0) == UniqueOfTarget(root, tree)
  {
    hide Tallied, Listed, IsFileFact, HasTree, SumOf, Total, SumOver, TotalBelow, IdentitiesBelow, IdentitiesListed;
    UniqueIsSum(s, 0);
    var r, par := RootRecord(target, root), ParentsOf(s.nodes);
    TotalIsBelowRoot(s.nodes, par, OwnBytes, |s.nodes|);
    assert s.nodes[..|s.nodes|] == s.nodes;
    OwnListed(r, tree, s);
    AllBelowRoot(r, tree, s, par);
    var ids := IdentitiesListed(Listed(tree));
    forall oid | oid in ids
      ensures LeastAllocations(s.nodes)(oid) == LeastListed(Listed(tree))(oid)
    {
      SeenAsListed(r, tree, s, oid);
    }
    SumOverSame(ids, LeastAllocations(s.nodes), LeastListed(Listed(tree)));
  }

  /** And a graph built of it reports them at its root, cut off at 64 bits. */
  lemma TargetReported(lower: string -> string, target: string, root: RootEvidence, tree: Dir, s: Scan, term: Terminal, r: BuildResult)
    requires OutcomeOf(lower, target, s.(terminal := Some(term)), r) && r.Built? && s.nodes != []
    requires root.RootFound? && s.nodes[0] == RootRecord(target, root) && Tallied(RootRecord(target, root), tree, s, true)
    ensures r.graph.entries != [] && r.graph.entries[0].unique == UniqueOfTarget(root, tree) % TWO_64
    ensures UniqueOfTarget(root, tree) <= Total(s.nodes, AllocatedBytes)
  {
    var s' := s.(terminal := Some(term));
    hide Tallied, UniqueOfTarget, RootRecord;
    RootTotals(s');
    CutOffIn(lower, target, s', r.graph);
    UniqueCovered(ParentsOf(s'.nodes), EntriesOf(s'.nodes), FactsOf(s'.nodes), SelfsOf(s'.nodes));
    assert Tallied(RootRecord(target, root), tree, s', true) by { TalliedAlike(RootRecord(target, root), tree, s, s'); }
    hide GraphOf, Total;
    TargetUnique(target, root, tree, s');
  }

  lemma TalliedAlike(root: Record, tree: Dir, s: Scan, s': Scan)
    requires Tallied(root, tree, s, true) && s'.nodes == s.nodes
    ensures Tallied(root, tree, s', true)
  {
  }

  // ---- Gaps

  /** The path of an entry of the directory at `path`. */
  function PathBelow(path: string, name: string): string {
    (if |path| > 0 && path[|path| - 1] == '\\' then path else path + "\\") + name
  }

  /** A visit to `dir` at `path` leaves the gap: the directory was listed in part, or could not be opened for another reason than
      having no files, or a directory entered from it leaves the gap. */
  ghost predicate Leaves(dir: Dir, path: string, message: u32 -> string, gap: Gap)
    decreases dir
  {
    || (dir.Partial? && gap == Gap(path, dir.errorCode, message(dir.errorCode)))
    || (dir.OpenFailed? && dir.openErrorCode !in {2, 18} && gap == Gap(path, dir.openErrorCode, message(dir.openErrorCode)))
    || exists i :: 0 <= i < |Items(dir)| && LeavesBelow(Items(dir)[i], path, message, gap)
  }

  ghost predicate LeavesBelow(item: Item, path: string, message: u32 -> string, gap: Gap)
    decreases item
  {
    item.fact.name != "." && item.fact.name != ".." && Entered(item.fact) && Leaves(item.below, PathBelow(path, item.fact.name), message, gap)
  }

  /** The gaps of a full visit are exactly those the visited directories leave. */
  lemma {:induction false} GapsAreLeft(dir: Dir, path: string, message: u32 -> string, gap: Gap)
    ensures gap in GapList(dir, path, message) <==> Leaves(dir, path, message, gap)
    decreases dir, |Items(dir)| + 1
  {
    GapsFromLeft(dir, path, message, gap, 0);
  }

  lemma {:induction false} GapsFromLeft(dir: Dir, path: string, message: u32 -> string, gap: Gap, i: nat)
    requires i <= |Items(dir)|
    ensures gap in GapsFrom(dir, path, i, message) <==> exists j :: i <= j < |Items(dir)| && LeavesBelow(Items(dir)[j], path, message, gap)
    decreases dir, |Items(dir)| - i
  {
    hide Entered, Descends, GapList;
    if i < |Items(dir)| {
      var item := Items(dir)[i];
      GapsFromLeft(dir, path, message, gap, i + 1);
      GapsAreLeft(item.below, PathBelow(path, item.fact.name), message, gap);
      EnteredDescends(item.fact);
      assert ChildPath(path, item.fact.name) == PathBelow(path, item.fact.name);
    }
  }

  /** Only a directory that was found is traversed, and then the gaps are those its visit leaves. */
  lemma TraversedGaps(target: string, root: RootEvidence, tree: Dir, message: u32 -> string)
    ensures Traversable(root) <==> root.RootFound? && AttributeSet(root.meta.fileAttributes, 0x10)
    ensures Traversable(root) ==> forall gap :: gap in ScanGaps(target, root, tree, message) <==> Leaves(tree, target, message, gap)
  {
    hide AttributeSet, HasBit, GapList, Leaves;
    if root.RootFound? {
      BitTests(root.meta.fileAttributes);
    }
    forall gap
      ensures gap in GapList(tree, target, message) <==> Leaves(tree, target, message, gap)
    {
      GapsAreLeft(tree, target, message, gap);
    }
  }
}
