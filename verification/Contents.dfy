/** What a finished graph says, field by field, about the records of its stream. */
module Contents {
  import opened Words
  import opened Observation
  import opened Graph
  import opened Forest
  import opened Evidence
  import opened Objects
  import opened Accounting
  import opened Aggregates
  import opened Settlement
  import opened Ingest
  import opened Scan
  import opened Outcome
  import opened Census

  // ---- Streams without entries

  /** Without entries there is a graph only if the scan did not finish: one that is empty but for the gaps and the terminal
      record. */
  lemma EmptyMeaning(lower: string -> string, target: string, s: Scan, t: Terminal, r: BuildResult)
    requires OutcomeOf(lower, target, s, r) && s.nodes == [] && s.terminal == Some(t)
    ensures t.outcome == Finished ==> r == Rejected(InvalidRoot(0, 0))
    ensures t.outcome != Finished ==>
      && r.Built? && r.graph.entries == [] && r.graph.objects == [] && r.graph.allChildren == [] && r.graph.objectStreams == map[]
      && r.graph.rootTarget == target && r.graph.rootId == 0 && r.graph.gaps == s.gaps && r.graph.terminal == t
      && r.graph.allocatedBytesKnown && r.graph.indeterminateObjects == 0
  {
  }

  // ---- Objects

  /** The link counts that aliases of `oid` report. */
  ghost function LinksSeen(nodes: seq<Record>, oid: ObjectIdentity): set<ValueKnowledge> {
    set x | 0 <= x < |nodes| && Names(nodes, x, oid) :: nodes[x].linkCount
  }

  /** The record of identity `oid` counts all files that name the identity and weighs the smallest allocation they report; its link
      count and status follow from the counts they report. */
  ghost predicate ObjectSays(nodes: seq<Record>, oid: ObjectIdentity, o: ObjectRecord) {
    && o.identity == Some(oid)
    && o.observedAliasCount == Total(nodes, FilesOf(oid))
    && o.weight == Least(KnownAllocs(nodes, oid))
    && StatusFollows(LinksSeen(nodes, oid), o.observedAliasCount, o.totalLinkCount, o.status)
  }

  lemma AliasLinks(nodes: seq<Record>, oid: ObjectIdentity)
    requires AllEntries(nodes) && FactsOk(EntriesOf(nodes), FactsOf(nodes))
    ensures forall v :: v in LinksSeen(nodes, oid) <==> v in IdentityLinks(EntriesOf(nodes), FactsOf(nodes), oid)
  {
    var s, links := Aliases(FactsOf(nodes).ident, oid, |nodes|), IdentityLinks(EntriesOf(nodes), FactsOf(nodes), oid);
    AliasAllocs(nodes, oid, s);
    forall v
      ensures v in LinksSeen(nodes, oid) <==> v in links
    {
      if v in links {
        var i :| 0 <= i < |links| && links[i] == v;
        assert Names(nodes, s[i], oid);
      }
      if v in LinksSeen(nodes, oid) {
        var x :| 0 <= x < |nodes| && Names(nodes, x, oid) && nodes[x].linkCount == v;
        var i :| 0 <= i < |s| && s[i] == x;
        assert links[i] == v;
      }
    }
  }

  lemma IdentityObjectSays(nodes: seq<Record>, oid: ObjectIdentity)
    requires AllEntries(nodes) && FactsOk(EntriesOf(nodes), FactsOf(nodes)) && |nodes| <= U32_MAX
    ensures ObjectSays(nodes, oid, IdentityObject(EntriesOf(nodes), FactsOf(nodes), oid))
  {
    AliasesCounted(nodes, oid, |nodes|);
    assert nodes[..|nodes|] == nodes;
    WeightIsLeastKnown(nodes, oid);
    AliasLinks(nodes, oid);
    StatusMeaning(IdentityLinks(EntriesOf(nodes), FactsOf(nodes), oid), LinksSeen(nodes, oid));
    hide Total, FilesOf, KnownAllocs, Least, StatusOf, StatusFollows, ResolvedLink, FactsOk, Weight, LinksSeen, Aliases;
  }

  /** What `GraphOf` says about the object of one entry. */
  lemma ObjectAt(lower: string -> string, target: string, s: Scan, g: DirectoryGraph, x: nat)
    requires HasTree(s) && GraphOf(lower, target, s, g) && x < |s.nodes|
    ensures |g.entries| == |s.nodes| <= U32_MAX && AllEntries(s.nodes) && FactsOk(EntriesOf(s.nodes), FactsOf(s.nodes))
    ensures SettledObject(EntriesOf(s.nodes), FactsOf(s.nodes), x, g.entries[x], g.objects)
  {
    hide SettledObject, SettledEntry, ChildrenSliced, StreamsListed, AllocationsKnown, ObjectsShared, ParentsOk, IdsOk;
  }

  /** The record of every identity in a finished graph follows from what its aliases report. */
  lemma ObjectMeaning(lower: string -> string, target: string, s: Scan, g: DirectoryGraph, x: nat, oid: ObjectIdentity)
    requires HasTree(s) && GraphOf(lower, target, s, g) && Names(s.nodes, x, oid)
    ensures x < |g.entries| && g.entries[x].objectIndex < |g.objects| && ObjectSays(s.nodes, oid, g.objects[g.entries[x].objectIndex])
  {
    hide GraphOf, HasTree, ObjectSays, IdentityObject, FactsOk;
    ObjectAt(lower, target, s, g, x);
    IdentityObjectSays(s.nodes, oid);
    NamesIsIdentity(s.nodes, x, oid);
  }

  /** Two entries share an object record exactly if both are files of one identity. */
  lemma SharedMeaning(lower: string -> string, target: string, s: Scan, g: DirectoryGraph, x: nat, y: nat)
    requires HasTree(s) && GraphOf(lower, target, s, g) && x < |s.nodes| && y < |s.nodes| && x != y
    ensures |g.entries| == |s.nodes|
    ensures g.entries[x].objectIndex == g.entries[y].objectIndex != NO_OBJECT
       <==> s.nodes[x].FileRecord? && s.nodes[y].FileRecord? && s.nodes[x].objectId == s.nodes[y].objectId != None
  {
    hide SettledObject, SettledEntry, ChildrenSliced, StreamsListed, AllocationsKnown, ParentsOk, IdsOk, Settleable;
    assert SameIdentity(FactsOf(s.nodes), x, y) <==>
      s.nodes[x].FileRecord? && s.nodes[y].FileRecord? && s.nodes[x].objectId == s.nodes[y].objectId != None;
    assert SameIdentity(FactsOf(s.nodes), y, x) <==> SameIdentity(FactsOf(s.nodes), x, y);
    if x < y {
      assert SameIdentity(FactsOf(s.nodes), x, y) <==> g.entries[x].objectIndex == g.entries[y].objectIndex != NO_OBJECT;
    } else {
      assert SameIdentity(FactsOf(s.nodes), y, x) <==> g.entries[y].objectIndex == g.entries[x].objectIndex != NO_OBJECT;
    }
  }

  /** A directory with identity and a file without one whose link count was asked for have an object record of their own;
      special objects and the other directories and files without identity have none. */
  ghost predicate LoneObject(r: Record, o: Option<ObjectRecord>)
    requires r.IsEntry()
  {
    if r.SpecialRecord? || (r.DirectoryRecord? && r.objectId.None?) then o.None?
    else if r.DirectoryRecord? then o == Some(ObjectRecord(r.objectId, 1, NotApplicable, StatusNotApplicable, 0))
    else if r.objectId.None? then
      if r.linkCount == NotObserved then o.None?
      else
        && o.Some? && o.value.identity == None && o.value.observedAliasCount == 1
        && StatusFollows({r.linkCount}, 1, o.value.totalLinkCount, o.value.status)
        && o.value.weight == if r.allocatedSize.Some? then r.allocatedSize.value else 0
    else o.Some?
  }

  lemma LoneObjectOf(nodes: seq<Record>, x: nat)
    requires AllEntries(nodes) && FactsOk(EntriesOf(nodes), FactsOf(nodes)) && x < |nodes| <= U32_MAX
    ensures LoneObject(nodes[x], ObjectOf(EntriesOf(nodes), FactsOf(nodes), x))
  {
    hide IdentityObject, StatusFollows;
    if nodes[x].FileRecord? {
      LoneStatus(nodes[x].linkCount);
    }
  }

  lemma LoneMeaning(lower: string -> string, target: string, s: Scan, g: DirectoryGraph, x: nat)
    requires HasTree(s) && GraphOf(lower, target, s, g) && x < |s.nodes|
    ensures x < |g.entries| && s.nodes[x].IsEntry()
    ensures var k := g.entries[x].objectIndex;
      (k == NO_OBJECT || k < |g.objects|) && LoneObject(s.nodes[x], if k == NO_OBJECT then None else Some(g.objects[k]))
  {
    ObjectAt(lower, target, s, g, x);
    hide GraphOf, HasTree, ObjectOf, FactsOk, LoneObject;
    LoneObjectOf(s.nodes, x);
  }

  // ---- The count of indeterminate objects

  /** No alias knows a count, and some alias was unavailable or none was asked. */
  ghost predicate Undecided(seen: set<ValueKnowledge>) {
    (forall v :: v in seen ==> !v.Known?) && (Unavailable in seen || NotApplicable !in seen)
  }

  ghost function UndecidedIdentities(nodes: seq<Record>): set<ObjectIdentity> {
    set x | 0 <= x < |nodes| && nodes[x].FileRecord? && nodes[x].objectId.Some? && Undecided(LinksSeen(nodes, nodes[x].objectId.value))
      :: nodes[x].objectId.value
  }

  /** The files without identity whose link count was not observed or unavailable. */
  function UndecidedFile(r: Record): nat {
    if r.FileRecord? && r.objectId == None && (r.linkCount == NotObserved || r.linkCount == Unavailable) then 1 else 0
  }

  lemma StatusIndeterminate(seen: set<ValueKnowledge>, aliases: nat, total: ValueKnowledge, status: ExternalReferenceStatus)
    requires StatusFollows(seen, aliases, total, status)
    ensures status == Indeterminate <==> Undecided(seen)
  {
    if v :| v in seen && v.Known? {
      if forall w :: w in seen && w.Known? ==> w == v {
        assert Known(v.value) in seen;
      }
    }
  }

  lemma UndecidedAmong(nodes: seq<Record>)
    requires AllEntries(nodes) && FactsOk(EntriesOf(nodes), FactsOf(nodes)) && |nodes| <= U32_MAX
    ensures IndeterminateAmong(EntriesOf(nodes), FactsOf(nodes), Identities(FactsOf(nodes))) == UndecidedIdentities(nodes)
  {
    var entries, f := EntriesOf(nodes), FactsOf(nodes);
    forall oid
      ensures StatusOf(IdentityLinks(entries, f, oid)) == Indeterminate <==> Undecided(LinksSeen(nodes, oid))
    {
      AliasLinks(nodes, oid);
      StatusMeaning(IdentityLinks(entries, f, oid), LinksSeen(nodes, oid));
      StatusIndeterminate(LinksSeen(nodes, oid), |IdentityLinks(entries, f, oid)|, ResolvedLink(IdentityLinks(entries, f, oid)), StatusOf(IdentityLinks(entries, f, oid)));
    }
    hide LinksSeen, Undecided, StatusOf, IdentityLinks, FactsOk;
  }

  lemma {:induction false} UndecidedLoose(nodes: seq<Record>, m: nat)
    requires AllEntries(nodes) && FactsOk(EntriesOf(nodes), FactsOf(nodes)) && m <= |nodes|
    ensures IndeterminateLoose(EntriesOf(nodes), FactsOf(nodes), m) == Total(nodes[..m], UndecidedFile)
    decreases m
  {
    if m > 0 {
      UndecidedLoose(nodes, m - 1);
      assert nodes[..m][..m - 1] == nodes[..m - 1];
    }
  }

  /** The graph counts as indeterminate every undecided identity once, and every undecided file without identity. */
  lemma IndeterminateMeaning(lower: string -> string, target: string, s: Scan, g: DirectoryGraph)
    requires HasTree(s) && GraphOf(lower, target, s, g)
    ensures g.indeterminateObjects == |UndecidedIdentities(s.nodes)| + Total(s.nodes, UndecidedFile)
  {
    hide SettledGraph, ChildrenSliced, StreamsListed, AllocationsKnown, ObjectsShared, ParentsOk, IdsOk, UndecidedIdentities;
    UndecidedAmong(s.nodes);
    UndecidedLoose(s.nodes, |s.nodes|);
    assert s.nodes[..|s.nodes|] == s.nodes;
  }

  // ---- Entries

  /** A file whose allocation is known and which no alias contradicts. */
  ghost predicate AllocationSure(nodes: seq<Record>, x: nat)
    requires x < |nodes|
  {
    && nodes[x].FileRecord? && nodes[x].allocatedSize.Some?
    && (nodes[x].objectId.Some? ==> forall a :: a in KnownAllocs(nodes, nodes[x].objectId.value) ==> a == nodes[x].allocatedSize.value)
  }

  /** What a finished graph says of a file or a special object. */
  ghost predicate LeafSays(nodes: seq<Record>, x: nat, e: CompactEntry)
    requires x < |nodes| && nodes[x].IsEntry()
  {
    var r := nodes[x];
    && e.id == r.entryId && e.parentId == r.parentId && e.name == r.name && e.meta == r.meta && e.knownSubtotal == e.referenced
    && (r.SpecialRecord? ==>
          e.kind == EntryKind.Special && e.logicalSize == None == e.allocatedSize && e.referenced == 0 == e.unique && !e.allocatedSizeKnown)
    && (r.FileRecord? ==>
          && e.kind == EntryKind.File && e.logicalSize == Some(r.logicalSize) && e.allocatedSize == r.allocatedSize
          && e.referenced == (if r.allocatedSize.Some? then r.allocatedSize.value else 0)
          && (e.allocatedSizeKnown <==> AllocationSure(nodes, x))
          && e.unique == if r.objectId.Some? then Least(KnownAllocs(nodes, r.objectId.value)) else e.referenced)
  }

  /** What a finished graph says of a directory: the totals of its scope, cut off or saturated at 64 bits. */
  ghost predicate DirectorySays(nodes: seq<Record>, par: seq<nat>, x: nat, e: CompactEntry)
    requires x < |nodes| == |par| && IsTree(par) && nodes[x].IsEntry()
  {
    var r, n := nodes[x], |nodes|;
    && e.id == r.entryId && e.parentId == r.parentId && e.name == r.name && e.meta == r.meta
    && e.kind == EntryKind.Directory && e.knownSubtotal == e.referenced && e.allocatedSize == Some(e.referenced)
    && e.logicalSize == Some(Min(TotalBelow(nodes, par, x, LogicalBytes, n), U64_MAX))
    && e.referenced == Min(TotalBelow(nodes, par, x, AllocatedBytes, n), U64_MAX)
    && (e.allocatedSizeKnown <==> forall y :: 0 <= y < n && Under(par, x, y) ==> nodes[y].DirectoryRecord? || AllocationSure(nodes, y))
    && e.unique == (TotalBelow(nodes, par, x, OwnBytes, n) + SumOver(IdentitiesBelow(nodes, par, x, n), LeastAllocations(nodes))) % TWO_64
  }

  lemma SureMeaning(nodes: seq<Record>, x: nat)
    requires AllEntries(nodes) && FactsOk(EntriesOf(nodes), FactsOf(nodes)) && x < |nodes| && nodes[x].FileRecord?
    ensures nodes[x].allocatedSize.Some? && !Contradicted(EntriesOf(nodes), FactsOf(nodes), x) <==> AllocationSure(nodes, x)
  {
    if nodes[x].objectId.Some? && nodes[x].allocatedSize.Some? {
      var oid := nodes[x].objectId.value;
      var s, allocs := Aliases(FactsOf(nodes).ident, oid, |nodes|), IdentityAllocs(EntriesOf(nodes), FactsOf(nodes), oid);
      AliasAllocs(nodes, oid, s);
      hide IdentityAllocs, Aliases, FactsOk, EntriesOf, FactsOf;
      assert Names(nodes, x, oid);
      if AllocConflict(allocs) {
        ConflictKnown(nodes, oid, s, allocs);
      } else {
        NoConflictKnown(nodes, oid, s, allocs, x);
      }
    }
  }

  /** `allocs` is what the entries `s`, all aliases of `oid`, report. */
  ghost predicate Reports(nodes: seq<Record>, oid: ObjectIdentity, s: seq<nat>, allocs: seq<Option<u64>>) {
    && |allocs| == |s| && (forall i :: 0 <= i < |s| ==> Names(nodes, s[i], oid) && allocs[i] == nodes[s[i]].allocatedSize)
    && forall x: nat :: Names(nodes, x, oid) ==> x in s
  }

  lemma ConflictKnown(nodes: seq<Record>, oid: ObjectIdentity, s: seq<nat>, allocs: seq<Option<u64>>)
    requires Reports(nodes, oid, s, allocs) && AllocConflict(allocs)
    ensures exists a, b :: a in KnownAllocs(nodes, oid) && b in KnownAllocs(nodes, oid) && a != b
  {
    var j, k :| 0 <= j < k < |allocs| && allocs[j].Some? && allocs[k].Some? && allocs[j] != allocs[k];
    assert Names(nodes, s[j], oid) && Names(nodes, s[k], oid);
    assert allocs[j].value in KnownAllocs(nodes, oid) && allocs[k].value in KnownAllocs(nodes, oid);
  }

  lemma NoConflictKnown(nodes: seq<Record>, oid: ObjectIdentity, s: seq<nat>, allocs: seq<Option<u64>>, x: nat)
    requires Reports(nodes, oid, s, allocs) && !AllocConflict(allocs) && Names(nodes, x, oid) && nodes[x].allocatedSize.Some?
    ensures forall a :: a in KnownAllocs(nodes, oid) ==> a == nodes[x].allocatedSize.value
  {
    var i :| 0 <= i < |s| && s[i] == x;
    forall a | a in KnownAllocs(nodes, oid)
      ensures a == nodes[x].allocatedSize.value
    {
      var y :| 0 <= y < |nodes| && Names(nodes, y, oid) && nodes[y].allocatedSize == Some(a);
      var j :| 0 <= j < |s| && s[j] == y;
      assert allocs[i] == nodes[x].allocatedSize && allocs[j] == Some(a);
    }
  }

  lemma {:induction false} SumIsTotal(nodes: seq<Record>, par: seq<nat>, d: nat, f: seq<int>, q: Record -> nat, m: nat)
    requires IsTree(par) && |f| == |par| == |nodes| && m <= |nodes| && forall x :: 0 <= x < |nodes| ==> f[x] == q(nodes[x])
    ensures SumUnder(par, d, f, m) == TotalBelow(nodes, par, d, q, m)
    decreases m
  {
    if m > 0 {
      SumIsTotal(nodes, par, d, f, q, m - 1);
    }
  }

  lemma DirectorySums(nodes: seq<Record>, par: seq<nat>, x: nat)
    requires AllEntries(nodes) && FactsOk(EntriesOf(nodes), FactsOf(nodes)) && IsTree(par) && |par| == |nodes|
    ensures LogicalSumOf(par, EntriesOf(nodes), x) == TotalBelow(nodes, par, x, LogicalBytes, |nodes|)
    ensures ReferencedOf(par, EntriesOf(nodes), SelfsOf(nodes), x) == TotalBelow(nodes, par, x, AllocatedBytes, |nodes|)
    ensures UniqueOf(par, EntriesOf(nodes), FactsOf(nodes), SelfsOf(nodes), x) ==
      TotalBelow(nodes, par, x, OwnBytes, |nodes|) + SumOver(IdentitiesBelow(nodes, par, x, |nodes|), LeastAllocations(nodes))
  {
    SumIsTotal(nodes, par, x, LogicalSeq(EntriesOf(nodes)), LogicalBytes, |nodes|);
    SumIsTotal(nodes, par, x, AllocSeq(EntriesOf(nodes), SelfsOf(nodes)), AllocatedBytes, |nodes|);
    UniqueFormula(nodes, par, x, |nodes|);
  }

  lemma ScopeSure(nodes: seq<Record>, par: seq<nat>, x: nat)
    requires AllEntries(nodes) && FactsOk(EntriesOf(nodes), FactsOf(nodes)) && IsTree(par) && |par| == |nodes|
    ensures ScopeKnown(par, EntriesOf(nodes), FactsOf(nodes), x)
       <==> forall y :: 0 <= y < |nodes| && Under(par, x, y) ==> nodes[y].DirectoryRecord? || AllocationSure(nodes, y)
  {
    forall y | 0 <= y < |nodes| && nodes[y].FileRecord?
      ensures nodes[y].allocatedSize.Some? && !Contradicted(EntriesOf(nodes), FactsOf(nodes), y) <==> AllocationSure(nodes, y)
    {
      SureMeaning(nodes, y);
    }
    hide Contradicted, FactsOk;
  }

  lemma EntryAt(lower: string -> string, target: string, s: Scan, g: DirectoryGraph, x: nat)
    requires HasTree(s) && GraphOf(lower, target, s, g) && x < |s.nodes|
    ensures |g.entries| == |s.nodes| <= U32_MAX && AllEntries(s.nodes) && FactsOk(EntriesOf(s.nodes), FactsOf(s.nodes))
    ensures Settleable(ParentsOf(s.nodes), EntriesOf(s.nodes), FactsOf(s.nodes), SelfsOf(s.nodes))
    ensures SettledEntry(ParentsOf(s.nodes), EntriesOf(s.nodes), FactsOf(s.nodes), SelfsOf(s.nodes), x, g.entries[x])
  {
    hide SettledObject, SettledEntry, ChildrenSliced, StreamsListed, AllocationsKnown, ObjectsShared, ParentsOk, IdsOk;
  }

  lemma LeafMeaning(lower: string -> string, target: string, s: Scan, g: DirectoryGraph, x: nat)
    requires HasTree(s) && GraphOf(lower, target, s, g) && x < |s.nodes| && !s.nodes[x].DirectoryRecord?
    ensures x < |g.entries| && s.nodes[x].IsEntry() && LeafSays(s.nodes, x, g.entries[x])
  {
    EntryAt(lower, target, s, g, x);
    hide GraphOf, HasTree;
    if s.nodes[x].FileRecord? {
      SureMeaning(s.nodes, x);
      if s.nodes[x].objectId.Some? {
        WeightIsLeastKnown(s.nodes, s.nodes[x].objectId.value);
      }
    }
    hide AllocationSure, Contradicted, Weight, Least, KnownAllocs, FactsOk, AllIngested;
  }

  lemma DirectoryMeaning(lower: string -> string, target: string, s: Scan, g: DirectoryGraph, x: nat)
    requires HasTree(s) && GraphOf(lower, target, s, g) && x < |s.nodes| && s.nodes[x].DirectoryRecord?
    ensures x < |g.entries| && AllEntries(s.nodes) && IsTree(ParentsOf(s.nodes))
    ensures DirectorySays(s.nodes, ParentsOf(s.nodes), x, g.entries[x])
  {
    hide GraphOf, HasTree, SettledEntry, Settleable, DirectorySays;
    EntryAt(lower, target, s, g, x);
    SettledDirectory(s.nodes, ParentsOf(s.nodes), x, g.entries[x]);
  }

  lemma SettledDirectory(nodes: seq<Record>, par: seq<nat>, x: nat, e: CompactEntry)
    requires AllEntries(nodes) && Settleable(par, EntriesOf(nodes), FactsOf(nodes), SelfsOf(nodes)) && x < |nodes| == |par|
    requires nodes[x].DirectoryRecord? && SettledEntry(par, EntriesOf(nodes), FactsOf(nodes), SelfsOf(nodes), x, e)
    ensures IsTree(par) && DirectorySays(nodes, par, x, e)
  {
    hide ScopeKnown, UniqueOf, LogicalSumOf, ReferencedOf, TotalBelow, SumOver, IdentitiesBelow, AllocationSure, FactsOk, AllIngested;
    DirectorySums(nodes, par, x);
    ScopeSure(nodes, par, x);
  }

  /** The graph's allocations are known if and only if every file's is. */
  lemma KnownMeaning(lower: string -> string, target: string, s: Scan, g: DirectoryGraph)
    requires HasTree(s) && GraphOf(lower, target, s, g)
    ensures g.allocatedBytesKnown <==> forall x :: 0 <= x < |s.nodes| && s.nodes[x].FileRecord? ==> AllocationSure(s.nodes, x)
  {
    hide SettledGraph, ChildrenSliced, StreamsListed, ObjectsShared, ParentsOk, IdsOk, Contradicted, AllocationSure;
    forall x | 0 <= x < |s.nodes| && s.nodes[x].FileRecord?
      ensures s.nodes[x].allocatedSize.Some? && !Contradicted(EntriesOf(s.nodes), FactsOf(s.nodes), x) <==> AllocationSure(s.nodes, x)
    {
      SureMeaning(s.nodes, x);
    }
  }

  // ---- Streams

  /** Every stream record names an entry. */
  ghost predicate StreamsPlaced(s: Scan)
    requires WellTyped(s)
  {
    forall j :: 0 <= j < |s.streams| ==> exists x :: 0 <= x < |s.nodes| && s.nodes[x].entryId == s.streams[j].parentEntryId
  }

  /** The stream record `j` belongs to an entry of object `k`. */
  ghost predicate BelongsTo(s: Scan, g: DirectoryGraph, j: nat, k: u32)
    requires WellTyped(s) && j < |s.streams| && |g.entries| == |s.nodes|
  {
    exists x :: 0 <= x < |s.nodes| && s.nodes[x].entryId == s.streams[j].parentEntryId && g.entries[x].objectIndex == k
  }

  lemma StreamEntry(s: Scan, g: DirectoryGraph, j: nat, k: u32)
    requires HasTree(s) && StreamsPlaced(s) && j < |s.streams| && |g.entries| == |s.nodes|
    ensures PendingOf(s)[j].0 < |s.nodes|
    ensures BelongsTo(s, g, j, k) <==> g.entries[PendingOf(s)[j].0].objectIndex == k
  {
    hide Settleable, ParentsOk;
    var ids, id := NodeIds(s.nodes), s.streams[j].parentEntryId;
    var x :| 0 <= x < |s.nodes| && s.nodes[x].entryId == id;
    IndexOfUnique(ids, x);
    forall y | 0 <= y < |s.nodes| && s.nodes[y].entryId == id
      ensures y == x
    {
      IndexOfUnique(ids, y);
    }
  }

  /** The places of the stream records of object `k` among the first `m`. */
  ghost function StreamPlaces(entries: seq<CompactEntry>, pending: seq<(nat, StreamBreakdown)>, k: u32, m: nat): (r: seq<nat>)
    requires m <= |pending| && forall i :: 0 <= i < |pending| ==> pending[i].0 < |entries|
  {
    if m == 0 then []
    else StreamPlaces(entries, pending, k, m - 1) + (if entries[pending[m - 1].0].objectIndex == k then [m - 1] else [])
  }

  lemma {:induction false} PlacesMeaning(entries: seq<CompactEntry>, pending: seq<(nat, StreamBreakdown)>, k: u32, m: nat)
    requires m <= |pending| && forall i :: 0 <= i < |pending| ==> pending[i].0 < |entries|
    ensures forall j: nat :: j in StreamPlaces(entries, pending, k, m) <==> j < m && entries[pending[j].0].objectIndex == k
    decreases m
  {
    if m > 0 {
      PlacesMeaning(entries, pending, k, m - 1);
    }
  }

  ghost predicate IncreasingBelow(s: seq<nat>, m: nat) {
    (forall i :: 0 <= i < |s| ==> s[i] < m) && forall i, j :: 0 <= i < j < |s| ==> s[i] < s[j]
  }

  lemma {:induction false} PlacesIncrease(entries: seq<CompactEntry>, pending: seq<(nat, StreamBreakdown)>, k: u32, m: nat)
    requires m <= |pending| && forall i :: 0 <= i < |pending| ==> pending[i].0 < |entries|
    ensures IncreasingBelow(StreamPlaces(entries, pending, k, m), m)
    decreases m
  {
    if m > 0 {
      PlacesIncrease(entries, pending, k, m - 1);
      PlaceAppended(StreamPlaces(entries, pending, k, m - 1), m - 1);
    }
  }

  lemma PlaceAppended(s: seq<nat>, m: nat)
    requires IncreasingBelow(s, m)
    ensures IncreasingBelow(s + [], m + 1) && IncreasingBelow(s + [m], m + 1)
  {
    assert s + [] == s;
  }

  lemma {:induction false} PlacesListed(entries: seq<CompactEntry>, pending: seq<(nat, StreamBreakdown)>, k: u32, m: nat)
    requires m <= |pending| && forall i :: 0 <= i < |pending| ==> pending[i].0 < |entries|
    ensures var r, streams := StreamPlaces(entries, pending, k, m), StreamsFor(entries, pending, k, m);
      |r| == |streams| && forall i :: 0 <= i < |r| ==> r[i] < |pending| && streams[i] == pending[r[i]].1
    decreases m
  {
    if m > 0 {
      PlacesListed(entries, pending, k, m - 1);
    }
  }

  /** The streams listed for object `k` are those of the stream records that belong to it, in the order in which they came. */
  ghost predicate StreamsSay(s: Scan, g: DirectoryGraph, k: u32, places: seq<nat>)
    requires WellTyped(s) && |g.entries| == |s.nodes|
  {
    && (forall i :: 0 <= i < |places| ==> places[i] < |s.streams|)
    && (forall i, j :: 0 <= i < j < |places| ==> places[i] < places[j])
    && (forall j :: 0 <= j < |s.streams| ==> (j in places <==> BelongsTo(s, g, j, k)))
    && (k in g.objectStreams <==> places != [])
    && (k in g.objectStreams ==> |g.objectStreams[k]| == |places| && forall i :: 0 <= i < |places| ==>
          var r, b := s.streams[places[i]], g.objectStreams[k][i];
          b.name == r.streamName && b.logicalBytes == r.streamLogicalSize && b.allocatedBytes == r.streamAllocatedSize)
  }

  lemma StreamsOf(lower: string -> string, target: string, s: Scan, g: DirectoryGraph)
    requires HasTree(s) && GraphOf(lower, target, s, g)
    ensures WellTyped(s) && |g.entries| == |s.nodes| && StreamsListed(s, g)
  {
    hide SettledGraph, ChildrenSliced, ObjectsShared, AllocationsKnown, ParentsOk, IdsOk, Settleable;
  }

  /** `streams` are those of the records at `places`, and these are the ones that belong to `k`. */
  lemma StreamsBundled(s: Scan, g: DirectoryGraph, k: u32, places: seq<nat>, streams: seq<StreamBreakdown>)
    requires WellTyped(s) && |g.entries| == |s.nodes| && |places| == |streams|
    requires forall i :: 0 <= i < |places| ==> places[i] < |s.streams| && streams[i] == PendingOf(s)[places[i]].1
    requires forall i, j :: 0 <= i < j < |places| ==> places[i] < places[j]
    requires forall j :: 0 <= j < |s.streams| ==> (j in places <==> BelongsTo(s, g, j, k))
    requires k in g.objectStreams <==> streams != []
    requires k in g.objectStreams ==> g.objectStreams[k] == streams
    ensures StreamsSay(s, g, k, places)
  {
    hide BelongsTo;
  }

  lemma StreamsMeaning(lower: string -> string, target: string, s: Scan, g: DirectoryGraph, k: u32) returns (places: seq<nat>)
    requires HasTree(s) && GraphOf(lower, target, s, g) && k != NO_OBJECT && StreamsPlaced(s)
    ensures |g.entries| == |s.nodes| && StreamsSay(s, g, k, places)
  {
    hide GraphOf, HasTree, BelongsTo, StreamsPlaced, StreamPlaces, StreamsFor, StreamsSay, WellTyped;
    StreamsOf(lower, target, s, g);
    var pending := PendingOf(s);
    PlacesMeaning(g.entries, pending, k, |s.streams|);
    PlacesIncrease(g.entries, pending, k, |s.streams|);
    PlacesListed(g.entries, pending, k, |s.streams|);
    places := StreamPlaces(g.entries, pending, k, |s.streams|);
    forall j | 0 <= j < |s.streams|
      ensures j in places <==> BelongsTo(s, g, j, k)
    {
      StreamEntry(s, g, j, k);
    }
    StreamsBundled(s, g, k, places, StreamsFor(g.entries, pending, k, |s.streams|));
  }
}
