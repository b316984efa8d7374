/** `GraphBuilder`: the ingestion of an observation stream, one record at a time. */
module Builder {
  import opened Words
  import opened Observation
  import opened Graph
  import opened Forest
  import opened Objects
  import opened Accounting
  import opened ChildOrder
  import opened Settlement
  import opened Ingest
  import opened Scan
  import opened Outcome

  // ---- What the builder's fields represent

  ghost predicate IndexOk(entries: seq<CompactEntry>, isDense: bool, idToIdx: map<u32, u32>,
                          par: seq<nat>, fc: seq<nat>, lc: seq<nat>, ns: seq<nat>)
  {
    && |entries| <= NONE
    && IdsOk(IdsOf(entries), isDense, idToIdx)
    && ParentsOk(entries, par)
    && LinksOk(par, fc, lc, ns)
  }

  ghost predicate MapsOk(nodes: seq<Record>, fileObjectMap: map<ObjectIdentity, seq<u32>>,
                         dirObjectIds: map<u32, ObjectIdentity>, fileLinkCounts: map<u32, ValueKnowledge>)
    requires AllEntries(nodes)
  {
    var entries, f := EntriesOf(nodes), FactsOf(nodes);
    && FactsOk(entries, f)
    && FileMapOk(entries, f, fileObjectMap)
    && DirMapOk(entries, f, dirObjectIds)
    && LinkMapOk(entries, f, fileLinkCounts)
    && forall id :: id in fileLinkCounts ==> id in NodeIds(nodes)
  }

  ghost predicate CountersOk(nodes: seq<Record>, dirs: nat, files: nat, specials: nat, logical: u64, alloc: u64, allocKnown: bool) {
    && dirs == Total(nodes, IsDir) && files == Total(nodes, IsFile) && dirs + files + specials == |nodes|
    && logical == Min(Total(nodes, LogicalBytes), U64_MAX)
    && alloc == Min(Total(nodes, AllocatedBytes), U64_MAX)
    && (allocKnown <==> forall i :: 0 <= i < |nodes| && nodes[i].FileRecord? ==> nodes[i].allocatedSize.Some?)
  }

  /** Every pending stream sits at the index of the entry it names. */
  ghost predicate StreamsOk(nodes: seq<Record>, streams: seq<Record>, pending: seq<(nat, StreamBreakdown)>)
    requires AllEntries(nodes)
  {
    && |pending| == |streams|
    && forall i :: 0 <= i < |streams| ==>
         && streams[i].StreamRecord?
         && pending[i].0 < |nodes| && IdOf(nodes[pending[i].0]) == streams[i].parentEntryId
         && pending[i].1 == BreakdownOf(streams[i])
  }

  // ---- Appending one record to the maps

  lemma {:induction false} AliasesPrefix(ident: seq<Option<ObjectIdentity>>, v: Option<ObjectIdentity>, oid: ObjectIdentity, m: nat)
    requires m <= |ident|
    ensures Aliases(ident + [v], oid, m) == Aliases(ident, oid, m)
    decreases m
  {
    if m > 0 {
      AliasesPrefix(ident, v, oid, m - 1);
    }
  }

  function FileMapAfter(m: map<ObjectIdentity, seq<u32>>, r: Record): map<ObjectIdentity, seq<u32>> {
    if r.FileRecord? && r.objectId.Some? then
      var oid := r.objectId.value;
      m[oid := (if oid in m then m[oid] else []) + [r.entryId]]
    else m
  }

  function DirMapAfter(m: map<u32, ObjectIdentity>, r: Record): map<u32, ObjectIdentity> {
    if r.DirectoryRecord? && r.objectId.Some? then m[r.entryId := r.objectId.value] else m
  }

  function LinkMapAfter(m: map<u32, ValueKnowledge>, r: Record): map<u32, ValueKnowledge> {
    if r.FileRecord? && r.linkCount != NotObserved then m[r.entryId := r.linkCount] else m
  }

  lemma IdsAtAppend(entries: seq<CompactEntry>, e: CompactEntry, s: seq<nat>)
    requires forall i :: 0 <= i < |s| ==> s[i] < |entries|
    ensures IdsAt(entries + [e], s) == IdsAt(entries, s)
    ensures IdsAt(entries + [e], s + [|entries|]) == IdsAt(entries, s) + [e.id]
  {
  }

  lemma AliasesAppend(ident: seq<Option<ObjectIdentity>>, v: Option<ObjectIdentity>, oid: ObjectIdentity)
    ensures Aliases(ident + [v], oid, |ident| + 1)
         == Aliases(ident, oid, |ident|) + (if v == Some(oid) then [|ident|] else [])
  {
    AliasesPrefix(ident, v, oid, |ident|);
  }

  /** The id list of `oid` after one more entry. */
  lemma AliasIdsAppend(entries: seq<CompactEntry>, ident: seq<Option<ObjectIdentity>>, e: CompactEntry, v: Option<ObjectIdentity>, oid: ObjectIdentity)
    requires |entries| == |ident|
    ensures IdsAt(entries + [e], Aliases(ident + [v], oid, |ident| + 1))
         == IdsAt(entries, Aliases(ident, oid, |ident|)) + (if v == Some(oid) then [e.id] else [])
  {
    AliasesAppend(ident, v, oid);
    IdsAtAppend(entries, e, Aliases(ident, oid, |ident|));
  }

  lemma NodesAppend(nodes: seq<Record>, r: Record)
    requires AllEntries(nodes) && r.IsEntry()
    ensures AllEntries(nodes + [r])
    ensures EntriesOf(nodes + [r]) == EntriesOf(nodes) + [EntryOf(r)]
    ensures SelfsOf(nodes + [r]) == SelfsOf(nodes) + [SelfOf(r)]
    ensures NodeIds(nodes + [r]) == NodeIds(nodes) + [r.entryId]
    ensures FactsOf(nodes + [r]).ident == FactsOf(nodes).ident + [if r.FileRecord? then r.objectId else None]
    ensures FactsOf(nodes + [r]).link == FactsOf(nodes).link + [if r.FileRecord? then r.linkCount else NotObserved]
    ensures FactsOf(nodes + [r]).dirIdent == FactsOf(nodes).dirIdent + [if r.DirectoryRecord? then r.objectId else None]
  {
  }

  lemma {:induction false} AliasesNone(ident: seq<Option<ObjectIdentity>>, oid: ObjectIdentity, m: nat)
    requires m <= |ident| && forall x :: 0 <= x < m ==> ident[x] != Some(oid)
    ensures Aliases(ident, oid, m) == []
    decreases m
  {
    if m > 0 {
      AliasesNone(ident, oid, m - 1);
    }
  }

  lemma FileMapGrow(entries: seq<CompactEntry>, f: Facts, e: CompactEntry, f': Facts, v: Option<ObjectIdentity>,
                    m: map<ObjectIdentity, seq<u32>>)
    requires FactsOk(entries, f) && FactsOk(entries + [e], f') && f'.ident == f.ident + [v]
    requires FileMapOk(entries, f, m)
    ensures FileMapOk(entries + [e], f',
                      if v.Some? then m[v.value := (if v.value in m then m[v.value] else []) + [e.id]] else m)
  {
    var m' := if v.Some? then m[v.value := (if v.value in m then m[v.value] else []) + [e.id]] else m;
    forall oid | oid in m'
      ensures AliasListOk(entries + [e], f', oid, m'[oid])
    {
      AliasIdsAppend(entries, f.ident, e, v, oid);
      AliasesAppend(f.ident, v, oid);
      if oid in m {
        assert AliasListOk(entries, f, oid, m[oid]);
      } else {
        AliasesNone(f.ident, oid, |entries|);
      }
    }
  }

  lemma DirMapGrow(entries: seq<CompactEntry>, f: Facts, e: CompactEntry, f': Facts, v: Option<ObjectIdentity>, m: map<u32, ObjectIdentity>)
    requires FactsOk(entries, f) && FactsOk(entries + [e], f') && f'.dirIdent == f.dirIdent + [v]
    requires DirMapOk(entries, f, m) && forall x :: 0 <= x < |entries| ==> entries[x].id != e.id
    ensures DirMapOk(entries + [e], f', if v.Some? then m[e.id := v.value] else m)
  {
    var m', e' := if v.Some? then m[e.id := v.value] else m, entries + [e];
    forall id | id in m'
      ensures exists x :: 0 <= x < |e'| && e'[x].id == id && f'.dirIdent[x].Some?
    {
      if v.Some? && id == e.id {
        assert e'[|entries|].id == id;
      } else {
        var x :| 0 <= x < |entries| && entries[x].id == id && f.dirIdent[x].Some?;
        assert e'[x].id == id;
      }
    }
  }

  lemma LinkMapGrow(entries: seq<CompactEntry>, f: Facts, e: CompactEntry, f': Facts, v: ValueKnowledge, m: map<u32, ValueKnowledge>)
    requires FactsOk(entries, f) && FactsOk(entries + [e], f') && f'.link == f.link + [v]
    requires LinkMapOk(entries, f, m) && e.id !in m && forall x :: 0 <= x < |entries| ==> entries[x].id != e.id
    ensures LinkMapOk(entries + [e], f', if v != NotObserved then m[e.id := v] else m)
  {
  }

  lemma MapsAppend(nodes: seq<Record>, r: Record, fileObjectMap: map<ObjectIdentity, seq<u32>>,
                   dirObjectIds: map<u32, ObjectIdentity>, fileLinkCounts: map<u32, ValueKnowledge>)
    requires AllEntries(nodes) && r.IsEntry() && r.entryId !in NodeIds(nodes)
    requires MapsOk(nodes, fileObjectMap, dirObjectIds, fileLinkCounts)
    ensures AllEntries(nodes + [r])
    ensures MapsOk(nodes + [r], FileMapAfter(fileObjectMap, r), DirMapAfter(dirObjectIds, r), LinkMapAfter(fileLinkCounts, r))
  {
    var entries, f, f' := EntriesOf(nodes), FactsOf(nodes), FactsOf(nodes + [r]);
    NodesAppend(nodes, r);
    IngestedEntries(nodes + [r]);
    FreshId(nodes, r.entryId);
    FileMapGrow(entries, f, EntryOf(r), f', if r.FileRecord? then r.objectId else None, fileObjectMap);
    DirMapGrow(entries, f, EntryOf(r), f', if r.DirectoryRecord? then r.objectId else None, dirObjectIds);
    LinkMapGrow(entries, f, EntryOf(r), f', if r.FileRecord? then r.linkCount else NotObserved, fileLinkCounts);
  }

  lemma FreshId(nodes: seq<Record>, id: u32)
    requires AllEntries(nodes) && id !in NodeIds(nodes)
    ensures forall x :: 0 <= x < |nodes| ==> EntriesOf(nodes)[x].id != id
  {
    forall x | 0 <= x < |nodes|
      ensures EntriesOf(nodes)[x].id != id
    {
      assert NodeIds(nodes)[x] in NodeIds(nodes);
    }
  }

  lemma CountersAppend(nodes: seq<Record>, r: Record, dirs: nat, files: nat, specials: nat, logical: u64, alloc: u64, allocKnown: bool)
    requires AllEntries(nodes) && r.IsEntry() && CountersOk(nodes, dirs, files, specials, logical, alloc, allocKnown)
    ensures CountersOk(nodes + [r], dirs + IsDir(r), files + IsFile(r), specials + (if r.SpecialRecord? then 1 else 0),
                       SatAdd(logical, LogicalBytes(r)), SatAdd(alloc, AllocatedBytes(r)),
                       allocKnown && !(r.FileRecord? && r.allocatedSize.None?))
  {
    TotalAppend(nodes, r, IsDir);
    TotalAppend(nodes, r, IsFile);
    TotalAppend(nodes, r, LogicalBytes);
    TotalAppend(nodes, r, AllocatedBytes);
    var nodes' := nodes + [r];
    assert nodes'[|nodes|] == r;
    assert forall i :: 0 <= i < |nodes| ==> nodes'[i] == nodes[i];
  }

  // ---- Inserting into the index layer

  lemma RootInsert(e: CompactEntry, isDense: bool, idToIdx: map<u32, u32>)
    requires IndexOk([], isDense, idToIdx, [], [], [], [])
    requires e.id == 1 && e.parentId == 0 && e.kind == EntryKind.Directory
    ensures IndexOk([e], isDense, if isDense then idToIdx else idToIdx[e.id := 0], [0], [NONE], [NONE], [NONE])
  {
    RootLinks();
    assert IdsOf([e]) == [1];
  }

  /** The switch to sparse ids: the map receives every id accepted so far. */
  method FillMap(entries: seq<CompactEntry>, idToIdx: map<u32, u32>) returns (filled: map<u32, u32>)
    requires |entries| <= NONE && NoRepeats(IdsOf(entries)) && idToIdx == map[]
    ensures IdsOk(IdsOf(entries), false, filled)
  {
    filled := idToIdx;
    for i := 0 to |entries|
      invariant forall j :: 0 <= j < i ==> IdsOf(entries)[j] in filled && filled[IdsOf(entries)[j]] == j
      invariant forall id :: id in filled ==> filled[id] < i && IdsOf(entries)[filled[id]] == id
    {
      filled := filled[entries[i].id := i];
    }
  }

  lemma IdsAppend(entries: seq<CompactEntry>, e: CompactEntry, isDense: bool, idToIdx: map<u32, u32>)
    requires |entries| < NONE && IdsOk(IdsOf(entries), isDense, idToIdx)
    requires e.id !in IdsOf(entries) && (isDense ==> e.id == |entries| + 1)
    ensures IdsOk(IdsOf(entries + [e]), isDense, if isDense then idToIdx else idToIdx[e.id := |entries|])
  {
    var ids, ids' := IdsOf(entries), IdsOf(entries + [e]);
    assert ids' == ids + [e.id];
    forall i, j | 0 <= i < j < |ids'|
      ensures ids'[i] != ids'[j]
    {
      assert ids[i] in ids;
    }
  }

  lemma ParentsAppend(entries: seq<CompactEntry>, e: CompactEntry, par: seq<nat>, p: nat)
    requires entries != [] && ParentsOk(entries, par) && p < |entries|
    requires entries[p].id == e.parentId && entries[p].kind == EntryKind.Directory && e.parentId != 0
    ensures ParentsOk(entries + [e], par + [p])
  {
  }

  lemma ChildInsert(entries: seq<CompactEntry>, e: CompactEntry, isDense: bool, idToIdx: map<u32, u32>,
                    par: seq<nat>, fc: seq<nat>, lc: seq<nat>, ns: seq<nat>, p: nat)
    requires |entries| < NONE && entries != [] && IndexOk(entries, isDense, idToIdx, par, fc, lc, ns)
    requires e.id !in IdsOf(entries) && (isDense ==> e.id == |entries| + 1)
    requires p < |entries| && entries[p].id == e.parentId && entries[p].kind == EntryKind.Directory && e.parentId != 0
    ensures IndexOk(entries + [e], isDense, if isDense then idToIdx else idToIdx[e.id := |entries|],
                    par + [p], LinkFirst(fc, p, |par|), lc[p := |par|] + [NONE], LinkNext(fc, lc, ns, p, |par|))
  {
    IdsAppend(entries, e, isDense, idToIdx);
    ParentsAppend(entries, e, par, p);
    LinkKeepsLinks(par, fc, lc, ns, p);
  }

  /** Looking up an id in either representation finds the entry with that id. */
  lemma LookupFinds(entries: seq<CompactEntry>, isDense: bool, idToIdx: map<u32, u32>, id: u32)
    requires IdsOk(IdsOf(entries), isDense, idToIdx)
    ensures isDense ==> IndexOf(IdsOf(entries), id) == if 1 <= id <= |entries| then id - 1 else -1
    ensures !isDense ==> IndexOf(IdsOf(entries), id) == if id in idToIdx then idToIdx[id] else -1
  {
    var ids := IdsOf(entries);
    var r := IndexOf(ids, id);
    if isDense {
      if 1 <= id <= |entries| {
        assert ids[id - 1] == id;
        IndexOfUnique(ids, id - 1);
      }
    } else if id in idToIdx {
      IndexOfUnique(ids, idToIdx[id]);
    }
  }

  lemma EmptyRepresented()
    ensures WellTyped(EMPTY_SCAN) && IndexOk([], true, map[], [], [], [], [])
    ensures MapsOk([], map[], map[], map[]) && CountersOk([], 0, 0, 0, 0, 0, true) && StreamsOk([], [], [])
  {
  }

  lemma StreamsKept(nodes: seq<Record>, r: Record, streams: seq<Record>, pending: seq<(nat, StreamBreakdown)>)
    requires AllEntries(nodes) && r.IsEntry() && StreamsOk(nodes, streams, pending)
    ensures AllEntries(nodes + [r]) && StreamsOk(nodes + [r], streams, pending)
  {
  }

  lemma StreamsAppend(nodes: seq<Record>, streams: seq<Record>, pending: seq<(nat, StreamBreakdown)>, r: Record, i: nat)
    requires AllEntries(nodes) && StreamsOk(nodes, streams, pending)
    requires r.StreamRecord? && i < |nodes| && IdOf(nodes[i]) == r.parentEntryId
    ensures StreamsOk(nodes, streams + [r], pending + [(i, BreakdownOf(r))])
  {
  }

  /** What the stored entries say about a record is what the accepted records say. */
  lemma SameVerdict(nodes: seq<Record>)
    requires AllEntries(nodes)
    ensures IdsOf(EntriesOf(nodes)) == NodeIds(nodes)
  {
  }

  /** The fields beside the index layer represent the accepted stream `s`. */
  ghost predicate Represents(s: Scan, entries: seq<CompactEntry>, selfs: seq<u64>,
                             fileObjectMap: map<ObjectIdentity, seq<u32>>, dirObjectIds: map<u32, ObjectIdentity>, fileLinkCounts: map<u32, ValueKnowledge>,
                             dirs: nat, files: nat, specials: nat, logical: u64, alloc: u64, allocKnown: bool,
                             pending: seq<(nat, StreamBreakdown)>)
  {
    && WellTyped(s) && AllEntries(s.nodes)
    && entries == EntriesOf(s.nodes) && selfs == SelfsOf(s.nodes)
    && MapsOk(s.nodes, fileObjectMap, dirObjectIds, fileLinkCounts)
    && CountersOk(s.nodes, dirs, files, specials, logical, alloc, allocKnown)
    && StreamsOk(s.nodes, s.streams, pending)
  }

  /** Accepting an entry record `r`, seen from the fields: the verdict, and what they must become. */
  lemma AcceptEntry(s: Scan, r: Record, entries: seq<CompactEntry>, selfs: seq<u64>,
                    fileObjectMap: map<ObjectIdentity, seq<u32>>, dirObjectIds: map<u32, ObjectIdentity>, fileLinkCounts: map<u32, ValueKnowledge>,
                    dirs: nat, files: nat, specials: nat, logical: u64, alloc: u64, allocKnown: bool,
                    pending: seq<(nat, StreamBreakdown)>)
    requires r.IsEntry() && s.terminal.None? && |s.nodes| < NONE
    requires Represents(s, entries, selfs, fileObjectMap, dirObjectIds, fileLinkCounts, dirs, files, specials, logical, alloc, allocKnown, pending)
    requires CheckEntry(IdsOf(entries), entries, r.entryId, r.parentId, KindOf(r)).None?
    ensures WellTyped(s) && Step(s, r) == (s.(nodes := s.nodes + [r]), None)
    ensures dirs < U64_MAX && files < U64_MAX && specials < U64_MAX && WellTyped(s.(nodes := s.nodes + [r]))
    ensures Represents(s.(nodes := s.nodes + [r]), entries + [EntryOf(r)], selfs + [SelfOf(r)],
                       FileMapAfter(fileObjectMap, r), DirMapAfter(dirObjectIds, r), LinkMapAfter(fileLinkCounts, r),
                       dirs + IsDir(r), files + IsFile(r), specials + (if r.SpecialRecord? then 1 else 0),
                       SatAdd(logical, LogicalBytes(r)), SatAdd(alloc, AllocatedBytes(r)),
                       allocKnown && !(r.FileRecord? && r.allocatedSize.None?), pending)
  {
    hide MapsOk, CountersOk, StreamsOk;
    SameVerdict(s.nodes);
    NodesAppend(s.nodes, r);
    MapsAppend(s.nodes, r, fileObjectMap, dirObjectIds, fileLinkCounts);
    CountersAppend(s.nodes, r, dirs, files, specials, logical, alloc, allocKnown);
    StreamsKept(s.nodes, r, s.streams, pending);
  }

  lemma RejectEntry(s: Scan, r: Record, entries: seq<CompactEntry>, selfs: seq<u64>,
                    fileObjectMap: map<ObjectIdentity, seq<u32>>, dirObjectIds: map<u32, ObjectIdentity>, fileLinkCounts: map<u32, ValueKnowledge>,
                    dirs: nat, files: nat, specials: nat, logical: u64, alloc: u64, allocKnown: bool,
                    pending: seq<(nat, StreamBreakdown)>)
    requires r.IsEntry() && s.terminal.None? && |s.nodes| < NONE
    requires Represents(s, entries, selfs, fileObjectMap, dirObjectIds, fileLinkCounts, dirs, files, specials, logical, alloc, allocKnown, pending)
    requires CheckEntry(IdsOf(entries), entries, r.entryId, r.parentId, KindOf(r)).Some?
    ensures WellTyped(s) && Step(s, r) == (s, CheckEntry(IdsOf(entries), entries, r.entryId, r.parentId, KindOf(r)))
  {
    SameVerdict(s.nodes);
  }

  lemma StreamVerdict(s: Scan, r: Record, entries: seq<CompactEntry>, selfs: seq<u64>,
                      fileObjectMap: map<ObjectIdentity, seq<u32>>, dirObjectIds: map<u32, ObjectIdentity>, fileLinkCounts: map<u32, ValueKnowledge>,
                      dirs: nat, files: nat, specials: nat, logical: u64, alloc: u64, allocKnown: bool,
                      pending: seq<(nat, StreamBreakdown)>)
    requires r.StreamRecord? && s.terminal.None? && |s.nodes| <= NONE
    requires Represents(s, entries, selfs, fileObjectMap, dirObjectIds, fileLinkCounts, dirs, files, specials, logical, alloc, allocKnown, pending)
    ensures WellTyped(s) && var i := IndexOf(IdsOf(entries), r.parentEntryId);
      if i < 0 then Step(s, r) == (s, Some(UnknownStreamParent(r.parentEntryId)))
      else
        && Step(s, r) == (s.(streams := s.streams + [r]), None) && WellTyped(s.(streams := s.streams + [r]))
        && Represents(s.(streams := s.streams + [r]), entries, selfs, fileObjectMap, dirObjectIds, fileLinkCounts,
                      dirs, files, specials, logical, alloc, allocKnown, pending + [(i, BreakdownOf(r))])
  {
    SameVerdict(s.nodes);
    var i := IndexOf(IdsOf(entries), r.parentEntryId);
    if i >= 0 {
      StreamsAppend(s.nodes, s.streams, pending, r, i);
    }
  }

  /** A terminal record is judged by the counters; accepting it, or a gap, touches none of the other fields. */
  lemma TerminalVerdict(s: Scan, r: Record, entries: seq<CompactEntry>, selfs: seq<u64>,
                        fileObjectMap: map<ObjectIdentity, seq<u32>>, dirObjectIds: map<u32, ObjectIdentity>, fileLinkCounts: map<u32, ValueKnowledge>,
                        dirs: u64, files: u64, specials: nat, logical: u64, alloc: u64, allocKnown: bool,
                        pending: seq<(nat, StreamBreakdown)>)
    requires r.TerminalRecord? && s.terminal.None? && |s.nodes| <= NONE
    requires Represents(s, entries, selfs, fileObjectMap, dirObjectIds, fileLinkCounts, dirs, files, specials, logical, alloc, allocKnown, pending)
    ensures WellTyped(s) && var err := CompareTotals(r.terminal, dirs, files, logical, alloc, |s.gaps|);
      Step(s, r) == (if err.Some? then (s, err) else (s.(terminal := Some(r.terminal)), None))
    ensures WellTyped(s.(terminal := Some(r.terminal)))
    ensures Represents(s.(terminal := Some(r.terminal)), entries, selfs, fileObjectMap, dirObjectIds, fileLinkCounts,
                       dirs, files, specials, logical, alloc, allocKnown, pending)
  {
  }

  lemma GapVerdict(s: Scan, r: Record, entries: seq<CompactEntry>, selfs: seq<u64>,
                   fileObjectMap: map<ObjectIdentity, seq<u32>>, dirObjectIds: map<u32, ObjectIdentity>, fileLinkCounts: map<u32, ValueKnowledge>,
                   dirs: u64, files: u64, specials: nat, logical: u64, alloc: u64, allocKnown: bool,
                   pending: seq<(nat, StreamBreakdown)>)
    requires r.GapRecord? && s.terminal.None? && |s.nodes| <= NONE
    requires Represents(s, entries, selfs, fileObjectMap, dirObjectIds, fileLinkCounts, dirs, files, specials, logical, alloc, allocKnown, pending)
    ensures WellTyped(s) && Step(s, r) == (s.(gaps := s.gaps + [r.gap]), None)
    ensures WellTyped(s.(gaps := s.gaps + [r.gap]))
    ensures Represents(s.(gaps := s.gaps + [r.gap]), entries, selfs, fileObjectMap, dirObjectIds, fileLinkCounts,
                       dirs, files, specials, logical, alloc, allocKnown, pending)
  {
  }

  lemma LateVerdict(s: Scan, r: Record)
    requires WellTyped(s) && |s.nodes| <= NONE && s.terminal.Some?
    ensures Step(s, r) == (s, Some(RecordAfterTerminal))
  {
  }

  lemma IndexBound(entries: seq<CompactEntry>, isDense: bool, idToIdx: map<u32, u32>,
                   par: seq<nat>, fc: seq<nat>, lc: seq<nat>, ns: seq<nat>)
    requires IndexOk(entries, isDense, idToIdx, par, fc, lc, ns)
    ensures |entries| <= NONE
  {
  }

  // ---- Finishing

  lemma NothingKnown(nodes: seq<Record>, dirs: nat, files: nat, specials: nat, logical: u64, alloc: u64, allocKnown: bool)
    requires CountersOk(nodes, dirs, files, specials, logical, alloc, allocKnown) && nodes == []
    ensures allocKnown
  {
  }

  lemma IndexTree(s: Scan, par: seq<nat>, entries: seq<CompactEntry>, isDense: bool, idToIdx: map<u32, u32>,
                  fc: seq<nat>, lc: seq<nat>, ns: seq<nat>)
    requires AllEntries(s.nodes) && entries == EntriesOf(s.nodes) && entries != []
    requires IndexOk(entries, isDense, idToIdx, par, fc, lc, ns)
    ensures par == ParentsOf(s.nodes) && NoRepeats(NodeIds(s.nodes)) && IdsOk(NodeIds(s.nodes), isDense, idToIdx)
    ensures Linked(par, fc, ns) && |entries| <= NONE
    ensures ParentsAreDirectories(par, entries) && entries[0].kind == EntryKind.Directory && DistinctIds(entries)
    ensures Located(entries, isDense, idToIdx)
  {
    SameVerdict(s.nodes);
    ParentsUnique(s.nodes, par);
    assert forall i :: 0 <= i < |entries| ==> IdsOf(entries)[i] == entries[i].id;
  }

  lemma PendingIsPositions(s: Scan, pending: seq<(nat, StreamBreakdown)>)
    requires WellTyped(s) && AllEntries(s.nodes) && NoRepeats(NodeIds(s.nodes)) && StreamsOk(s.nodes, s.streams, pending)
    ensures pending == PendingOf(s) && forall i :: 0 <= i < |pending| ==> pending[i].0 < |s.nodes|
  {
    forall i | 0 <= i < |pending|
      ensures pending[i] == PendingOf(s)[i]
    {
      IndexOfUnique(NodeIds(s.nodes), pending[i].0);
    }
  }

  /** The accepted stream has a tree, and the builder's fields are what the settlement needs. */
  lemma SettlementReady(s: Scan, par: seq<nat>, entries: seq<CompactEntry>, selfs: seq<u64>, isDense: bool, idToIdx: map<u32, u32>,
                        fc: seq<nat>, lc: seq<nat>, ns: seq<nat>,
                        fileObjectMap: map<ObjectIdentity, seq<u32>>, dirObjectIds: map<u32, ObjectIdentity>, fileLinkCounts: map<u32, ValueKnowledge>,
                        dirs: nat, files: nat, specials: nat, logical: u64, alloc: u64, allocKnown: bool,
                        pending: seq<(nat, StreamBreakdown)>)
    requires Represents(s, entries, selfs, fileObjectMap, dirObjectIds, fileLinkCounts, dirs, files, specials, logical, alloc, allocKnown, pending)
    requires IndexOk(entries, isDense, idToIdx, par, fc, lc, ns) && entries != []
    ensures AllEntries(s.nodes) && WellTyped(s) && HasTree(s) && entries == EntriesOf(s.nodes) && selfs == SelfsOf(s.nodes)
    ensures Settleable(ParentsOf(s.nodes), entries, FactsOf(s.nodes), selfs)
    ensures Linked(ParentsOf(s.nodes), fc, ns)
    ensures entries[0].kind == EntryKind.Directory && DistinctIds(entries) && Located(entries, isDense, idToIdx)
    ensures FileMapOk(entries, FactsOf(s.nodes), fileObjectMap) && DirMapOk(entries, FactsOf(s.nodes), dirObjectIds)
    ensures LinkMapOk(entries, FactsOf(s.nodes), fileLinkCounts)
    ensures pending == PendingOf(s) && forall i :: 0 <= i < |pending| ==> pending[i].0 < |entries|
    ensures IdsOk(NodeIds(s.nodes), isDense, idToIdx) && fileObjectMap.Keys == Identities(FactsOf(s.nodes))
    ensures allocKnown <==> forall i :: 0 <= i < |s.nodes| && s.nodes[i].FileRecord? ==> s.nodes[i].allocatedSize.Some?
  {
    IndexTree(s, par, entries, isDense, idToIdx, fc, lc, ns);
    IngestedEntries(s.nodes);
    PendingIsPositions(s, pending);
    MapKeysAreIdentities(entries, FactsOf(s.nodes), fileObjectMap);
  }

  lemma SettledLength(par: seq<nat>, entries0: seq<CompactEntry>, f: Facts, self: seq<u64>, entries: seq<CompactEntry>, objects: seq<ObjectRecord>)
    requires Settleable(par, entries0, f, self) && SettledGraph(par, entries0, f, self, entries, objects)
    ensures |entries| == |par| == |entries0|
  {
  }

  lemma PanicOutcome(lower: string -> string, rootTarget: string, s: Scan)
    requires HasTree(s) && s.terminal.Some? && !Settles(s)
    ensures OutcomeOf(lower, rootTarget, s, Panicked)
  {
    if UniqueIn(s, 0) <= U64_MAX {
      FittingTarget(ParentsOf(s.nodes), EntriesOf(s.nodes), FactsOf(s.nodes), SelfsOf(s.nodes));
    }
    hide HasTree, UniqueIn, Settles;
  }

  lemma KnownAllocations(s: Scan, keys: set<ObjectIdentity>, allocKnown: bool, contradiction: bool)
    requires HasTree(s) && keys == Identities(FactsOf(s.nodes))
    requires allocKnown <==> forall i :: 0 <= i < |s.nodes| && s.nodes[i].FileRecord? ==> s.nodes[i].allocatedSize.Some?
    requires contradiction <==> ContradictedAmong(EntriesOf(s.nodes), FactsOf(s.nodes), keys) != {}
    ensures allocKnown && !contradiction <==> AllocationsKnown(s)
  {
    var entries, f := EntriesOf(s.nodes), FactsOf(s.nodes);
    ContradictionMeaning(entries, f);
    if x :| 0 <= x < |entries| && Contradicted(entries, f, x) {
      assert s.nodes[x].FileRecord?;
    }
  }

  lemma SlicedChildren(lower: string -> string, s: Scan, g: DirectoryGraph, order: seq<nat>)
    requires HasTree(s) && |g.entries| == |s.nodes|
    requires SlicesOk(lower, ParentsOf(s.nodes), g.entries, order, |s.nodes|, g.entries)
    requires |g.allChildren| == |order| && forall i :: 0 <= i < |order| ==> g.allChildren[i] == EntriesOf(s.nodes)[order[i]].id
    ensures ChildrenSliced(lower, s, g)
  {
    PositionsInvert(NodeIds(s.nodes), order, g.allChildren);
  }

  lemma StreamsHold(s: Scan, g: DirectoryGraph, pending: seq<(nat, StreamBreakdown)>)
    requires HasTree(s) && pending == PendingOf(s) && forall i :: 0 <= i < |pending| ==> pending[i].0 < |g.entries|
    requires StreamsAttributed(g.entries, pending, |pending|, g.objectStreams)
    ensures StreamsListed(s, g)
  {
    hide StreamsAttributed, HasTree;
  }

  lemma CountHolds(s: Scan, keys: set<ObjectIdentity>, indeterminate: nat)
    requires HasTree(s) && keys == Identities(FactsOf(s.nodes))
    requires indeterminate ==
      |IndeterminateAmong(EntriesOf(s.nodes), FactsOf(s.nodes), keys)| + IndeterminateLoose(EntriesOf(s.nodes), FactsOf(s.nodes), |s.nodes|)
    ensures indeterminate == IndeterminateObjects(s)
  {
    hide IndeterminateAmong, IndeterminateLoose, Identities;
  }

  lemma GraphHolds(lower: string -> string, s: Scan, g: DirectoryGraph)
    requires HasTree(s) && g.rootId == 1 && g.gaps == s.gaps && s.terminal == Some(g.terminal)
    requires IdsOk(NodeIds(s.nodes), g.isDense, g.idToIdx) && |g.entries| == |s.nodes|
    requires SettledGraph(ParentsOf(s.nodes), EntriesOf(s.nodes), FactsOf(s.nodes), SelfsOf(s.nodes), g.entries, g.objects)
    requires ObjectsShared(FactsOf(s.nodes), g.entries) && |g.objects| <= |s.nodes|
    requires ChildrenSliced(lower, s, g) && StreamsListed(s, g)
    requires g.allocatedBytesKnown <==> AllocationsKnown(s)
    requires g.indeterminateObjects == IndeterminateObjects(s)
    ensures GraphOf(lower, g.rootTarget, s, g)
  {
    hide SettledGraph, ChildrenSliced, StreamsListed, AllocationsKnown, IndeterminateObjects, IdsOk, ObjectsShared, HasTree;
  }

  lemma GraphOutcome(lower: string -> string, s: Scan, g: DirectoryGraph)
    requires HasTree(s) && GraphOf(lower, g.rootTarget, s, g) && Settles(s)
    requires UniqueOf(ParentsOf(s.nodes), EntriesOf(s.nodes), FactsOf(s.nodes), SelfsOf(s.nodes), 0) <= U64_MAX
        <==> UniqueExact(ParentsOf(s.nodes), EntriesOf(s.nodes), FactsOf(s.nodes), SelfsOf(s.nodes), g.entries)
    ensures OutcomeOf(lower, g.rootTarget, s, Built(g))
  {
    hide UniqueExact, UniqueOf, SettledGraph, ChildrenSliced, StreamsListed, AllocationsKnown, IndeterminateObjects, IdsOk, ObjectsShared, Settles;
  }

  class GraphBuilder {
    const rootTarget: string
    /** The case folding used to order names. */
    const lower: string -> string
    var entries: seq<CompactEntry>
    var isDense: bool
    var idToIdx: map<u32, u32>
    var firstChild: seq<nat>
    var lastChild: seq<nat>
    var nextSibling: seq<nat>
    var fileObjectMap: map<ObjectIdentity, seq<u32>>
    var dirObjectIds: map<u32, ObjectIdentity>
    var fileLinkCounts: map<u32, ValueKnowledge>
    var dirSelfAlloc: seq<u64>
    var pendingStreams: seq<(nat, StreamBreakdown)>
    var gaps: seq<Gap>
    var terminal: Option<Terminal>
    var dirCount: u64
    var fileCount: u64
    var specialCount: u64
    var logicalBytes: u64
    var allocatedBytes: u64
    var allocatedBytesKnown: bool
    var currentDirId: u32

    /** The accepted part of the stream, and the parent index of every accepted entry. */
    ghost var scan: Scan
    ghost var parents: seq<nat>

    ghost predicate Valid()
      reads this
    {
      && Represents(scan, entries, dirSelfAlloc, fileObjectMap, dirObjectIds, fileLinkCounts,
                    dirCount, fileCount, specialCount, logicalBytes, allocatedBytes, allocatedBytesKnown, pendingStreams)
      && IndexOk(entries, isDense, idToIdx, parents, firstChild, lastChild, nextSibling)
      && (isDense ==> idToIdx == map[])
      && gaps == scan.gaps && terminal == scan.terminal && |entries| == |scan.nodes|
      && WellTyped(scan)
    }

    constructor (rootTarget: string, lower: string -> string)
      ensures Valid() && scan == EMPTY_SCAN && isDense
      ensures this.rootTarget == rootTarget && this.lower == lower
    {
      this.rootTarget, this.lower := rootTarget, lower;
      entries, isDense, idToIdx := [], true, map[];
      firstChild, lastChild, nextSibling := [], [], [];
      fileObjectMap, dirObjectIds, fileLinkCounts := map[], map[], map[];
      dirSelfAlloc, pendingStreams, gaps, terminal := [], [], [], None;
      dirCount, fileCount, specialCount, logicalBytes, allocatedBytes := 0, 0, 0, 0, 0;
      allocatedBytesKnown, currentDirId := true, 0;
      scan, parents := EMPTY_SCAN, [];
      EmptyRepresented();
    }

    /** Duplicate and parent checks, in either id scheme. */
    method LocateParent(id: u32, parentId: u32) returns (err: Option<BuildError>, parentIdx: nat)
      requires IdsOk(IdsOf(entries), isDense, idToIdx) && entries != [] && id != parentId && parentId != 0 && id != 1
      requires isDense ==> id == |entries| + 1
      ensures err == CheckEntry(IdsOf(entries), entries, id, parentId, EntryKind.File)
      ensures err.None? ==> parentIdx < |entries| && entries[parentIdx].id == parentId && entries[parentIdx].kind == EntryKind.Directory
      ensures err.None? ==> id !in IdsOf(entries)
    {
      var currIdx := |entries|;
      parentIdx := 0;
      LookupFinds(entries, isDense, idToIdx, id);
      LookupFinds(entries, isDense, idToIdx, parentId);
      if isDense {
        if id <= currIdx {
          assert false;  // dense ids are sequential, so they never repeat
        }
      } else if id in idToIdx {
        return Some(DuplicateEntryId(id)), 0;
      }
      if isDense {
        if parentId > currIdx {
          return Some(MissingParent(id, parentId)), 0;
        }
        parentIdx := parentId - 1;
      } else {
        if parentId !in idToIdx {
          return Some(MissingParent(id, parentId)), 0;
        }
        parentIdx := idToIdx[parentId];
      }
      assert parentIdx == IndexOf(IdsOf(entries), parentId);
      if entries[parentIdx].kind != EntryKind.Directory {
        return Some(ParentNotDirectory(id, parentId)), 0;
      }
      err := None;
    }

    /** The new entry `|entries|` becomes the youngest child of `parentIdx`. */
    method LinkChild(entry: CompactEntry, parentIdx: nat)
      requires 0 < |entries| < NONE && IndexOk(entries, isDense, idToIdx, parents, firstChild, lastChild, nextSibling)
      requires entry.id !in IdsOf(entries) && (isDense ==> entry.id == |entries| + 1)
      requires parentIdx < |entries| && entries[parentIdx].id == entry.parentId && entry.parentId != 0
      requires entries[parentIdx].kind == EntryKind.Directory
      modifies this`firstChild, this`lastChild, this`nextSibling, this`parents
      ensures IndexOk(entries + [entry], isDense, if isDense then idToIdx else idToIdx[entry.id := |entries|],
                      parents, firstChild + [NONE], lastChild + [NONE], nextSibling + [NONE])
    {
      ChildInsert(entries, entry, isDense, idToIdx, parents, firstChild, lastChild, nextSibling, parentIdx);
      var currIdx := |entries|;
      assert LastChildOk(parents, parentIdx, lastChild[parentIdx]);
      assert FirstChildOk(parents, parentIdx, firstChild[parentIdx]);
      if firstChild[parentIdx] == NONE {
        firstChild := firstChild[parentIdx := currIdx];
        lastChild := lastChild[parentIdx := currIdx];
      } else {
        var prev := lastChild[parentIdx];
        nextSibling := nextSibling[prev := currIdx];
        lastChild := lastChild[parentIdx := currIdx];
      }
      parents := parents + [parentIdx];
    }

    /** The first id out of sequence switches to sparse ids. */
    method SwitchToSparse(id: u32)
      requires IndexOk(entries, isDense, idToIdx, parents, firstChild, lastChild, nextSibling) && (isDense ==> idToIdx == map[])
      modifies this`isDense, this`idToIdx
      ensures IndexOk(entries, isDense, idToIdx, parents, firstChild, lastChild, nextSibling) && (isDense ==> idToIdx == map[])
      ensures isDense == (old(isDense) && id == |entries| + 1)
    {
      var expectedSeqId := |entries| + 1;
      if isDense && id != expectedSeqId {
        isDense := false;
        idToIdx := FillMap(entries, idToIdx);
      }
    }

    /** Appends the entry to all vectors once its links are in place. */
    method PushEntry(entry: CompactEntry, selfAlloc: u64)
      requires |entries| < NONE
      requires IndexOk(entries + [entry], isDense, if isDense then idToIdx else idToIdx[entry.id := |entries|],
                       parents, firstChild + [NONE], lastChild + [NONE], nextSibling + [NONE])
      modifies this`entries, this`dirSelfAlloc, this`idToIdx, this`firstChild, this`lastChild, this`nextSibling
      ensures IndexOk(entries, isDense, idToIdx, parents, firstChild, lastChild, nextSibling)
      ensures entries == old(entries) + [entry] && dirSelfAlloc == old(dirSelfAlloc) + [selfAlloc]
      ensures isDense ==> idToIdx == old(idToIdx)
    {
      if !isDense {
        idToIdx := idToIdx[entry.id := |entries|];
      }
      entries := entries + [entry];
      dirSelfAlloc := dirSelfAlloc + [selfAlloc];
      firstChild := firstChild + [NONE];
      lastChild := lastChild + [NONE];
      nextSibling := nextSibling + [NONE];
    }

    /** An entry after the root. */
    method InsertChild(entry: CompactEntry, selfAlloc: u64) returns (err: Option<BuildError>)
      requires IndexOk(entries, isDense, idToIdx, parents, firstChild, lastChild, nextSibling) && (isDense ==> idToIdx == map[])
      requires 0 < |entries| < NONE && entry.id != entry.parentId && entry.parentId != 0 && entry.id != 1
      modifies this`entries, this`dirSelfAlloc, this`isDense, this`idToIdx, this`firstChild, this`lastChild, this`nextSibling, this`parents
      ensures IndexOk(entries, isDense, idToIdx, parents, firstChild, lastChild, nextSibling) && (isDense ==> idToIdx == map[])
      ensures err == CheckEntry(IdsOf(old(entries)), old(entries), entry.id, entry.parentId, entry.kind)
      ensures err.Some? ==> entries == old(entries) && dirSelfAlloc == old(dirSelfAlloc)
      ensures err.None? ==> entries == old(entries) + [entry] && dirSelfAlloc == old(dirSelfAlloc) + [selfAlloc]
      ensures old(isDense) && entry.id == |old(entries)| + 1 ==> isDense
    {
      hide IndexOk;
      SwitchToSparse(entry.id);
      var parentIdx;
      err, parentIdx := LocateParent(entry.id, entry.parentId);
      if err.None? {
        LinkChild(entry, parentIdx);
        PushEntry(entry, selfAlloc);
      }
    }

    /** Checks a new entry and links it in. A rejected entry leaves the accepted ones as they were, though
        it may have caused the switch to sparse ids. */
    method ValidateAndInsertEntry(id: u32, parentId: u32, entry: CompactEntry, selfAlloc: u64) returns (err: Option<BuildError>)
      requires IndexOk(entries, isDense, idToIdx, parents, firstChild, lastChild, nextSibling) && (isDense ==> idToIdx == map[])
      requires |entries| < NONE && entry.id == id && entry.parentId == parentId
      modifies this`entries, this`dirSelfAlloc, this`isDense, this`idToIdx, this`firstChild, this`lastChild, this`nextSibling, this`parents
      ensures IndexOk(entries, isDense, idToIdx, parents, firstChild, lastChild, nextSibling) && (isDense ==> idToIdx == map[])
      ensures err == CheckEntry(IdsOf(old(entries)), old(entries), id, parentId, entry.kind)
      ensures err.Some? ==> entries == old(entries) && dirSelfAlloc == old(dirSelfAlloc)
      ensures err.None? ==> entries == old(entries) + [entry] && dirSelfAlloc == old(dirSelfAlloc) + [selfAlloc]
      ensures old(isDense) && entry.id == |old(entries)| + 1 ==> isDense
    {
      if id == parentId {
        return Some(SelfParent(id));
      }
      if |entries| == 0 {
        if id != 1 || parentId != 0 {
          return Some(InvalidRoot(id, parentId));
        }
        if entry.kind != EntryKind.Directory {
          return Some(InvalidRoot(id, parentId));
        }
        RootInsert(entry, isDense, idToIdx);
        parents := [0];
        PushEntry(entry, selfAlloc);
        err := None;
      } else {
        if parentId == 0 || id == 1 {
          return Some(InvalidRoot(id, parentId));
        }
        err := InsertChild(entry, selfAlloc);
      }
    }

    /** The bookkeeping for an accepted directory; `before` and `selfs` are the vectors without it. */
    method RecordDirectory(dir: Record, ghost before: seq<CompactEntry>, ghost selfs: seq<u64>)
      requires dir.DirectoryRecord? && scan.terminal.None? && |scan.nodes| < NONE
      requires Represents(scan, before, selfs, fileObjectMap, dirObjectIds, fileLinkCounts,
                          dirCount, fileCount, specialCount, logicalBytes, allocatedBytes, allocatedBytesKnown, pendingStreams)
      requires CheckEntry(IdsOf(before), before, dir.entryId, dir.parentId, EntryKind.Directory).None?
      requires entries == before + [EntryOf(dir)] && dirSelfAlloc == selfs + [SelfOf(dir)]
      modifies this`dirObjectIds, this`dirCount, this`allocatedBytes, this`scan
      ensures WellTyped(old(scan)) && Step(old(scan), dir) == (scan, None) && scan == old(scan).(nodes := old(scan).nodes + [dir])
      ensures Represents(scan, entries, dirSelfAlloc, fileObjectMap, dirObjectIds, fileLinkCounts,
                         dirCount, fileCount, specialCount, logicalBytes, allocatedBytes, allocatedBytesKnown, pendingStreams)
      ensures WellTyped(scan)
    {
      hide Represents, Step, CheckEntry, WellTyped;
      AcceptEntry(scan, dir, before, selfs, fileObjectMap, dirObjectIds, fileLinkCounts,
                  dirCount, fileCount, specialCount, logicalBytes, allocatedBytes, allocatedBytesKnown, pendingStreams);
      if dir.objectId.Some? {
        dirObjectIds := dirObjectIds[dir.entryId := dir.objectId.value];
      }
      dirCount := dirCount + 1;
      if dir.allocatedSize.Some? {
        allocatedBytes := SatAdd(allocatedBytes, dir.allocatedSize.value);
      }
      scan := scan.(nodes := scan.nodes + [dir]);
    }

    method IngestDirectory(dir: Record) returns (err: Option<BuildError>)
      requires Valid() && dir.DirectoryRecord? && scan.terminal.None? && |entries| < NONE
      modifies this
      ensures Valid() && (scan, err) == Step(old(scan), dir)
      ensures old(isDense) && dir.entryId == |old(entries)| + 1 ==> isDense
    {
      hide IndexOk, Represents, Step, CheckEntry, WellTyped;
      var allocSize := dir.allocatedSize;
      var selfAlloc := allocSize.GetOr(0);
      var entry := CompactEntry(dir.entryId, dir.parentId, dir.name, EntryKind.Directory, true, None, allocSize,
                                selfAlloc, selfAlloc, selfAlloc, NO_OBJECT, 0, 0, dir.meta);
      err := ValidateAndInsertEntry(dir.entryId, dir.parentId, entry, selfAlloc);
      if err.Some? {
        RejectEntry(scan, dir, entries, dirSelfAlloc, fileObjectMap, dirObjectIds, fileLinkCounts,
                    dirCount, fileCount, specialCount, logicalBytes, allocatedBytes, allocatedBytesKnown, pendingStreams);
      } else {
        RecordDirectory(dir, old(entries), old(dirSelfAlloc));
      }
    }

    method IndexFile(file: Record)
      requires file.FileRecord?
      modifies this`fileObjectMap, this`fileLinkCounts
      ensures fileObjectMap == FileMapAfter(old(fileObjectMap), file)
      ensures fileLinkCounts == LinkMapAfter(old(fileLinkCounts), file)
    {
      if file.objectId.Some? {
        var oid := file.objectId.value;
        fileObjectMap := fileObjectMap[oid := (if oid in fileObjectMap then fileObjectMap[oid] else []) + [file.entryId]];
      }
      if file.linkCount != NotObserved {
        fileLinkCounts := fileLinkCounts[file.entryId := file.linkCount];
      }
    }

    method CountFile(file: Record)
      requires file.FileRecord? && fileCount < U64_MAX
      modifies this`fileCount, this`logicalBytes, this`allocatedBytes, this`allocatedBytesKnown
      ensures fileCount == old(fileCount) + 1
      ensures logicalBytes == SatAdd(old(logicalBytes), file.logicalSize)
      ensures allocatedBytes == SatAdd(old(allocatedBytes), file.allocatedSize.GetOr(0))
      ensures allocatedBytesKnown == (old(allocatedBytesKnown) && file.allocatedSize.Some?)
    {
      fileCount := fileCount + 1;
      logicalBytes := SatAdd(logicalBytes, file.logicalSize);
      if file.allocatedSize.Some? {
        allocatedBytes := SatAdd(allocatedBytes, file.allocatedSize.value);
      } else {
        allocatedBytesKnown := false;
      }
    }

    method RecordFile(file: Record, ghost before: seq<CompactEntry>, ghost selfs: seq<u64>)
      requires file.FileRecord? && scan.terminal.None? && |scan.nodes| < NONE
      requires Represents(scan, before, selfs, fileObjectMap, dirObjectIds, fileLinkCounts,
                          dirCount, fileCount, specialCount, logicalBytes, allocatedBytes, allocatedBytesKnown, pendingStreams)
      requires CheckEntry(IdsOf(before), before, file.entryId, file.parentId, EntryKind.File).None?
      requires entries == before + [EntryOf(file)] && dirSelfAlloc == selfs + [SelfOf(file)]
      modifies this`fileObjectMap, this`fileLinkCounts, this`fileCount, this`logicalBytes, this`allocatedBytes, this`allocatedBytesKnown, this`scan
      ensures WellTyped(old(scan)) && Step(old(scan), file) == (scan, None) && scan == old(scan).(nodes := old(scan).nodes + [file])
      ensures Represents(scan, entries, dirSelfAlloc, fileObjectMap, dirObjectIds, fileLinkCounts,
                         dirCount, fileCount, specialCount, logicalBytes, allocatedBytes, allocatedBytesKnown, pendingStreams)
      ensures WellTyped(scan)
    {
      hide Represents, Step, CheckEntry, WellTyped;
      AcceptEntry(scan, file, before, selfs, fileObjectMap, dirObjectIds, fileLinkCounts,
                  dirCount, fileCount, specialCount, logicalBytes, allocatedBytes, allocatedBytesKnown, pendingStreams);
      IndexFile(file);
      CountFile(file);
      scan := scan.(nodes := scan.nodes + [file]);
    }

    method IngestFile(file: Record) returns (err: Option<BuildError>)
      requires Valid() && file.FileRecord? && scan.terminal.None? && |entries| < NONE
      modifies this
      ensures Valid() && (scan, err) == Step(old(scan), file)
      ensures old(isDense) && file.entryId == |old(entries)| + 1 ==> isDense
    {
      hide IndexOk, Represents, Step, CheckEntry, WellTyped;
      var allocSize := file.allocatedSize;
      var allocBytes := allocSize.GetOr(0);
      var entry := CompactEntry(file.entryId, file.parentId, file.name, EntryKind.File, allocSize.Some?, Some(file.logicalSize), allocSize,
                                allocBytes, allocBytes, allocBytes, NO_OBJECT, 0, 0, file.meta);
      err := ValidateAndInsertEntry(file.entryId, file.parentId, entry, 0);
      if err.Some? {
        RejectEntry(scan, file, entries, dirSelfAlloc, fileObjectMap, dirObjectIds, fileLinkCounts,
                    dirCount, fileCount, specialCount, logicalBytes, allocatedBytes, allocatedBytesKnown, pendingStreams);
      } else {
        RecordFile(file, old(entries), old(dirSelfAlloc));
      }
    }

    method RecordSpecial(special: Record, ghost before: seq<CompactEntry>, ghost selfs: seq<u64>)
      requires special.SpecialRecord? && scan.terminal.None? && |scan.nodes| < NONE
      requires Represents(scan, before, selfs, fileObjectMap, dirObjectIds, fileLinkCounts,
                          dirCount, fileCount, specialCount, logicalBytes, allocatedBytes, allocatedBytesKnown, pendingStreams)
      requires CheckEntry(IdsOf(before), before, special.entryId, special.parentId, EntryKind.Special).None?
      requires entries == before + [EntryOf(special)] && dirSelfAlloc == selfs + [SelfOf(special)]
      modifies this`specialCount, this`scan
      ensures WellTyped(old(scan)) && Step(old(scan), special) == (scan, None) && scan == old(scan).(nodes := old(scan).nodes + [special])
      ensures Represents(scan, entries, dirSelfAlloc, fileObjectMap, dirObjectIds, fileLinkCounts,
                         dirCount, fileCount, specialCount, logicalBytes, allocatedBytes, allocatedBytesKnown, pendingStreams)
      ensures WellTyped(scan)
    {
      hide Represents, Step, CheckEntry, WellTyped;
      AcceptEntry(scan, special, before, selfs, fileObjectMap, dirObjectIds, fileLinkCounts,
                  dirCount, fileCount, specialCount, logicalBytes, allocatedBytes, allocatedBytesKnown, pendingStreams);
      specialCount := specialCount + 1;
      scan := scan.(nodes := scan.nodes + [special]);
    }

    method IngestSpecial(special: Record) returns (err: Option<BuildError>)
      requires Valid() && special.SpecialRecord? && scan.terminal.None? && |entries| < NONE
      modifies this
      ensures Valid() && (scan, err) == Step(old(scan), special)
      ensures old(isDense) && special.entryId == |old(entries)| + 1 ==> isDense
    {
      hide IndexOk, Represents, Step, CheckEntry, WellTyped;
      var entry := CompactEntry(special.entryId, special.parentId, special.name, EntryKind.Special, false, None, None,
                                0, 0, 0, NO_OBJECT, 0, 0, special.meta);
      err := ValidateAndInsertEntry(special.entryId, special.parentId, entry, 0);
      if err.Some? {
        RejectEntry(scan, special, entries, dirSelfAlloc, fileObjectMap, dirObjectIds, fileLinkCounts,
                    dirCount, fileCount, specialCount, logicalBytes, allocatedBytes, allocatedBytesKnown, pendingStreams);
      } else {
        RecordSpecial(special, old(entries), old(dirSelfAlloc));
      }
    }

    /** Streams never create entries; the index of the owning entry is captured now. */
    method IngestStream(stream: Record) returns (err: Option<BuildError>)
      requires Valid() && stream.StreamRecord? && scan.terminal.None?
      modifies this`pendingStreams, this`scan
      ensures Valid() && (scan, err) == Step(old(scan), stream)
    {
      hide IndexOk, Represents, Step, CheckEntry, WellTyped;
      IndexBound(entries, isDense, idToIdx, parents, firstChild, lastChild, nextSibling);
      StreamVerdict(scan, stream, entries, dirSelfAlloc, fileObjectMap, dirObjectIds, fileLinkCounts,
                    dirCount, fileCount, specialCount, logicalBytes, allocatedBytes, allocatedBytesKnown, pendingStreams);
      var entryIdx := StorageGetIdx(stream.parentEntryId);
      if entryIdx.None? {
        err := Some(UnknownStreamParent(stream.parentEntryId));
      } else {
        pendingStreams := pendingStreams + [(entryIdx.value, StreamBreakdown(stream.streamName, stream.streamLogicalSize, stream.streamAllocatedSize))];
        scan := scan.(streams := scan.streams + [stream]);
        err := None;
      }
    }

    method StorageGetIdx(id: u32) returns (idx: Option<nat>)
      requires IndexOk(entries, isDense, idToIdx, parents, firstChild, lastChild, nextSibling)
      ensures idx == if IndexOf(IdsOf(entries), id) < 0 then None else Some(IndexOf(IdsOf(entries), id))
    {
      LookupFinds(entries, isDense, idToIdx, id);
      if isDense {
        if id == 0 || id > |entries| {
          return None;
        }
        return Some(id - 1);
      }
      if id in idToIdx {
        return Some(idToIdx[id]);
      }
      return None;
    }

    /** A terminal record is accepted only if it agrees with everything counted so far. */
    method IngestTerminal(record: Record) returns (err: Option<BuildError>)
      requires Valid() && record.TerminalRecord? && scan.terminal.None?
      modifies this`terminal, this`scan
      ensures Valid() && (scan, err) == Step(old(scan), record)
    {
      hide IndexOk, Represents, Step, CheckEntry, WellTyped;
      IndexBound(entries, isDense, idToIdx, parents, firstChild, lastChild, nextSibling);
      var term := record.terminal;
      TerminalVerdict(scan, record, entries, dirSelfAlloc, fileObjectMap, dirObjectIds, fileLinkCounts,
                      dirCount, fileCount, specialCount, logicalBytes, allocatedBytes, allocatedBytesKnown, pendingStreams);
      err := CompareCounters(term);
      if err.None? {
        terminal := Some(term);
        scan := scan.(terminal := Some(term));
      }
    }

    method CompareCounters(term: Terminal) returns (err: Option<BuildError>)
      ensures FirstDisagreement(TotalsCompared(term, dirCount, fileCount, logicalBytes, allocatedBytes, |gaps|), err)
      ensures err == CompareTotals(term, dirCount, fileCount, logicalBytes, allocatedBytes, |gaps|)
    {
      ComparisonMeaning(term, dirCount, fileCount, logicalBytes, allocatedBytes, |gaps|);
      hide FirstDisagreement;
      if term.totalDirectories != dirCount {
        return Some(AggregateMismatch("total_directories", term.totalDirectories, dirCount));
      }
      if term.totalFiles != fileCount {
        return Some(AggregateMismatch("total_files", term.totalFiles, fileCount));
      }
      if term.totalLogicalBytes != logicalBytes {
        return Some(AggregateMismatch("total_logical_bytes", term.totalLogicalBytes, logicalBytes));
      }
      if term.totalAllocatedBytes != allocatedBytes {
        return Some(AggregateMismatch("total_allocated_bytes", term.totalAllocatedBytes, allocatedBytes));
      }
      if term.coverageGapCount != |gaps| % (U32_MAX + 1) {
        return Some(AggregateMismatch("coverage_gap_count", term.coverageGapCount, |gaps| % TWO_64));
      }
      return None;
    }

    method IngestGap(record: Record)
      requires Valid() && record.GapRecord? && scan.terminal.None?
      modifies this`gaps, this`scan
      ensures Valid() && (scan, None) == Step(old(scan), record)
    {
      hide IndexOk, Represents, Step, CheckEntry, WellTyped;
      IndexBound(entries, isDense, idToIdx, parents, firstChild, lastChild, nextSibling);
      GapVerdict(scan, record, entries, dirSelfAlloc, fileObjectMap, dirObjectIds, fileLinkCounts,
                 dirCount, fileCount, specialCount, logicalBytes, allocatedBytes, allocatedBytesKnown, pendingStreams);
      gaps := gaps + [record.gap];
      scan := scan.(gaps := scan.gaps + [record.gap]);
    }

    method IngestRecord(record: Record) returns (err: Option<BuildError>)
      requires Valid() && (record.IsEntry() ==> |entries| < NONE)
      modifies this
      ensures Valid() && (scan, err) == Step(old(scan), record)
      ensures old(isDense) && (record.IsEntry() ==> record.entryId == |old(entries)| + 1) ==> isDense
    {
      hide IndexOk, Represents, Step, CheckEntry, WellTyped;
      IndexBound(entries, isDense, idToIdx, parents, firstChild, lastChild, nextSibling);
      if terminal.Some? {
        LateVerdict(scan, record);
        return Some(RecordAfterTerminal);
      }
      match record {
        case DirectoryRecord(_, _, _, _, _, _, _) =>
          currentDirId := if record.parentId == 0 then record.entryId else record.parentId;
          err := IngestDirectory(record);
        case FileRecord(_, _, _, _, _, _, _, _) =>
          currentDirId := record.parentId;
          err := IngestFile(record);
        case SpecialRecord(_, _, _, _, _) =>
          currentDirId := record.parentId;
          err := IngestSpecial(record);
        case StreamRecord(_, _, _, _) =>
          err := IngestStream(record);
        case GapRecord(_) =>
          IngestGap(record);
          err := None;
        case TerminalRecord(_) =>
          err := IngestTerminal(record);
      }
    }

    /** A progress event with the current counters. */
    method Report(sequenceNumber: nat) returns (pulse: Pulse)
      requires Valid() && |scan.nodes| <= U32_MAX
      ensures pulse == PulseOf(scan, sequenceNumber)
    {
      hide IndexOk, WellTyped;
      pulse := Pulse(sequenceNumber, dirCount, fileCount, logicalBytes, allocatedBytes, |gaps| % (U32_MAX + 1));
    }

    /** The settled graph of a nonempty scan. */
    method Settle(term: Terminal) returns (r: BuildResult)
      requires Valid() && entries != [] && terminal == Some(term)
      ensures OutcomeOf(lower, rootTarget, scan, r) && (r.Built? && isDense ==> r.graph.isDense)
    {
      hide IndexOk, Represents, WellTyped, HasTree, OutcomeOf, SettledGraph, SlicesOk, UniqueExact, UniqueIn, UniqueOf, GraphOf;
      hide ChildrenSliced, StreamsListed, AllocationsKnown, IndeterminateObjects, IndeterminateAmong, IndeterminateLoose;
      hide Settleable, Linked, DistinctIds, Located, FileMapOk, DirMapOk, LinkMapOk, IdsOk, StreamsAttributed, ObjectsShared;
      SettlementReady(scan, parents, entries, dirSelfAlloc, isDense, idToIdx, firstChild, lastChild, nextSibling,
                      fileObjectMap, dirObjectIds, fileLinkCounts, dirCount, fileCount, specialCount,
                      logicalBytes, allocatedBytes, allocatedBytesKnown, pendingStreams);
      var ok, settled, objects, allChildren, indeterminate, contradiction;
      ghost var order;
      ok, settled, objects, allChildren, indeterminate, contradiction, order :=
        ComputeAggregates(lower, entries, dirSelfAlloc, firstChild, nextSibling, isDense, idToIdx,
                          fileObjectMap, dirObjectIds, fileLinkCounts, ParentsOf(scan.nodes), FactsOf(scan.nodes));
      if !ok {
        PanicOutcome(lower, rootTarget, scan);
        return Panicked;
      }
      SettledLength(ParentsOf(scan.nodes), entries, FactsOf(scan.nodes), dirSelfAlloc, settled, objects);
      var objectStreams := AttributeStreams(settled, pendingStreams);
      r := Built(DirectoryGraph(rootTarget, 1, settled, isDense, idToIdx, allChildren, objects, objectStreams, gaps, term,
                                allocatedBytesKnown && !contradiction, indeterminate));
      SlicedChildren(lower, scan, r.graph, order);
      StreamsHold(scan, r.graph, pendingStreams);
      KnownAllocations(scan, fileObjectMap.Keys, allocatedBytesKnown, contradiction);
      CountHolds(scan, fileObjectMap.Keys, indeterminate);
      GraphHolds(lower, scan, r.graph);
      GraphOutcome(lower, scan, r.graph);
    }

    method Finish() returns (r: BuildResult)
      requires Valid()
      ensures OutcomeOf(lower, rootTarget, scan, r) && (r.Built? && isDense ==> r.graph.isDense)
    {
      if terminal.None? {
        return Rejected(MissingTerminal);
      }
      if entries == [] {
        if terminal.value.outcome == Finished {
          return Rejected(InvalidRoot(0, 0));
        }
        NothingKnown(scan.nodes, dirCount, fileCount, specialCount, logicalBytes, allocatedBytes, allocatedBytesKnown);
        return Built(DirectoryGraph(rootTarget, 0, [], true, map[], [], [], map[], gaps, terminal.value, allocatedBytesKnown, 0));
      }
      r := Settle(terminal.value);
    }
  }
}
