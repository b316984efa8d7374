/** Queries on a finished graph: lookups, pages of children, display paths, the hard-link report. */
module Queries {
  import opened Words
  import opened Observation
  import opened Graph
  import opened Forest
  import opened Objects
  import opened ChildOrder
  import opened Settlement
  import opened Ingest
  import opened Scan
  import opened Outcome

  // ---- Lookup

  /** `EntryStorage::get`, as an index: id 0 is never found. */
  function StorageGet(g: DirectoryGraph, id: u32): (r: Option<nat>)
    ensures r.Some? ==> r.value < |g.entries|
  {
    if id == 0 then None
    else if g.isDense then (if id - 1 < |g.entries| then Some(id - 1) else None)
    else if id in g.idToIdx && g.idToIdx[id] < |g.entries| then Some(g.idToIdx[id]) else None
  }

  /** The parts of a finished graph that queries rely on; `par` is its parent vector. */
  ghost predicate Navigable(g: DirectoryGraph, par: seq<nat>) {
    && IsTree(par) && |g.entries| == |par| <= NONE && g.rootId == 1
    && IdsOk(IdsOf(g.entries), g.isDense, g.idToIdx)
    && ParentsOk(g.entries, par)
  }

  lemma GetFinds(g: DirectoryGraph, par: seq<nat>, x: nat)
    requires Navigable(g, par) && x < |par|
    ensures StorageGet(g, g.entries[x].id) == if g.entries[x].id == 0 then None else Some(x)
  {
    assert IdsOf(g.entries)[x] == g.entries[x].id;
  }

  /** An id is found exactly if it is not 0 and some entry has it. */
  lemma GetFindsOnly(g: DirectoryGraph, par: seq<nat>, id: u32)
    requires Navigable(g, par)
    ensures StorageGet(g, id).Some? <==> id != 0 && exists x :: 0 <= x < |g.entries| && g.entries[x].id == id
  {
    if x :| 0 <= x < |g.entries| && g.entries[x].id == id {
      GetFinds(g, par, x);
    }
    if StorageGet(g, id).Some? {
      var x := StorageGet(g, id).value;
      assert IdsOf(g.entries)[x] == g.entries[x].id == id;
    }
  }

  /** What a settled graph keeps of the ingested entries. */
  ghost predicate SameShape(entries0: seq<CompactEntry>, entries: seq<CompactEntry>) {
    && |entries| == |entries0|
    && forall x :: 0 <= x < |entries| ==>
         && entries[x].id == entries0[x].id && entries[x].parentId == entries0[x].parentId
         && entries[x].kind == entries0[x].kind && entries[x].name == entries0[x].name
  }

  lemma SettledKeepsShape(par: seq<nat>, entries0: seq<CompactEntry>, f: Facts, self: seq<u64>, entries: seq<CompactEntry>, objects: seq<ObjectRecord>)
    requires Settleable(par, entries0, f, self) && SettledGraph(par, entries0, f, self, entries, objects)
    ensures SameShape(entries0, entries)
  {
    forall x | 0 <= x < |par|
      ensures entries[x].id == entries0[x].id && entries[x].parentId == entries0[x].parentId
      ensures entries[x].kind == entries0[x].kind && entries[x].name == entries0[x].name
    {
      assert SettledEntry(par, entries0, f, self, x, entries[x]);
    }
  }

  lemma ShapeKeepsTree(entries0: seq<CompactEntry>, entries: seq<CompactEntry>, par: seq<nat>)
    requires SameShape(entries0, entries) && ParentsOk(entries0, par)
    ensures ParentsOk(entries, par) && IdsOf(entries) == IdsOf(entries0)
  {
  }

  lemma BuiltIsNavigable(lower: string -> string, rootTarget: string, s: Scan, g: DirectoryGraph)
    requires HasTree(s) && GraphOf(lower, rootTarget, s, g)
    ensures Navigable(g, ParentsOf(s.nodes)) && SameShape(EntriesOf(s.nodes), g.entries)
  {
    hide ParentsOk, SettledGraph, ChildrenSliced, ObjectsShared, StreamsAttributed, AllocationsKnown, IdsOk, SameShape;
    SettledKeepsShape(ParentsOf(s.nodes), EntriesOf(s.nodes), FactsOf(s.nodes), SelfsOf(s.nodes), g.entries, g.objects);
    ShapeKeepsTree(EntriesOf(s.nodes), g.entries, ParentsOf(s.nodes));
    IdsOfEntries(s.nodes);
  }

  lemma IdsOfEntries(nodes: seq<Record>)
    requires AllEntries(nodes)
    ensures IdsOf(EntriesOf(nodes)) == NodeIds(nodes)
  {
  }

  // ---- Pages of children

  datatype PageResult = Page(total: nat, nodes: seq<CompactEntry>) | ParentNotFound(id: u32) | ParentIsNotDirectory(entryId: u32)

  /** The entries of the ids that are found. */
  function EntriesFor(g: DirectoryGraph, ids: seq<u32>): (r: seq<CompactEntry>)
    ensures |r| <= |ids|
  {
    if ids == [] then []
    else
      EntriesFor(g, ids[..|ids| - 1])
      + match StorageGet(g, ids[|ids| - 1])
        case None => []
        case Some(i) => [g.entries[i]]
  }

  lemma {:induction false} EntriesForConcat(g: DirectoryGraph, a: seq<u32>, b: seq<u32>)
    ensures EntriesFor(g, a + b) == EntriesFor(g, a) + EntriesFor(g, b)
    decreases |b|
  {
    if b == [] {
      assert a + b == a;
    } else {
      assert (a + b)[..|a + b| - 1] == a + b[..|b| - 1];
      EntriesForConcat(g, a, b[..|b| - 1]);
    }
  }

  /** The ids of the children of entry `p`, in display order. */
  function ChildIds(g: DirectoryGraph, p: nat): seq<u32>
    requires p < |g.entries| && g.entries[p].childStart + g.entries[p].childCount <= |g.allChildren|
  {
    g.allChildren[g.entries[p].childStart..g.entries[p].childStart + g.entries[p].childCount]
  }

  ghost predicate InBounds(g: DirectoryGraph) {
    forall p :: 0 <= p < |g.entries| ==> g.entries[p].childStart + g.entries[p].childCount <= |g.allChildren|
  }

  /** The ids a page query selects from. */
  function PageIds(g: DirectoryGraph, parentId: u32): (r: Option<seq<u32>>)
    requires StorageGet(g, parentId).Some? ==>
      g.entries[StorageGet(g, parentId).value].childStart + g.entries[StorageGet(g, parentId).value].childCount <= |g.allChildren|
  {
    if parentId == 0 then Some(if StorageGet(g, g.rootId).Some? then [g.rootId] else [])
    else match StorageGet(g, parentId)
      case None => None
      case Some(p) => if g.entries[p].kind != EntryKind.Directory then None else Some(ChildIds(g, p))
  }

  method GetChildrenPage(g: DirectoryGraph, parentId: u32, offset: nat, limit: nat) returns (r: PageResult)
    requires InBounds(g)
    ensures match PageIds(g, parentId)
      case Some(ids) =>
        r == Page(|ids|, if offset >= |ids| then [] else EntriesFor(g, ids[offset..Min(offset + limit, |ids|)]))
      case None =>
        r == if StorageGet(g, parentId).None? then ParentNotFound(parentId) else ParentIsNotDirectory(parentId)
  {
    var childIds: seq<u32>;
    if parentId == 0 {
      childIds := if g.rootId != 0 && StorageGet(g, g.rootId).Some? then [g.rootId] else [];
    } else {
      var parent := StorageGet(g, parentId);
      if parent.None? {
        return ParentNotFound(parentId);
      }
      if g.entries[parent.value].kind != EntryKind.Directory {
        return ParentIsNotDirectory(parentId);
      }
      childIds := ChildIds(g, parent.value);
    }
    var total := |childIds|;
    if offset >= total {
      return Page(total, []);
    }
    var end := Min(offset + limit, total);
    var page := childIds[offset..end];
    var nodes := [];
    for i := 0 to |page|
      invariant nodes == EntriesFor(g, page[..i])
    {
      assert page[..i + 1][..i] == page[..i];
      var found := StorageGet(g, page[i]);
      if found.Some? {
        nodes := nodes + [g.entries[found.value]];
      }
    }
    assert page[..|page|] == page;
    return Page(total, nodes);
  }

  lemma NoEntries(g: DirectoryGraph)
    ensures EntriesFor(g, []) == []
  {
  }

  /** A client that pages through a directory: consecutive pages of any positive size. */
  method ReadAllPages(g: DirectoryGraph, parentId: u32, limit: nat) returns (nodes: seq<CompactEntry>)
    requires InBounds(g) && limit > 0 && PageIds(g, parentId).Some?
    ensures nodes == EntriesFor(g, PageIds(g, parentId).value)
  {
    hide EntriesFor, PageIds;
    ghost var ids := PageIds(g, parentId).value;
    nodes := [];
    assert ids[..0] == [];
    NoEntries(g);
    var offset := 0;
    var more := true;
    while more
      invariant more ==> offset <= |ids| && nodes == EntriesFor(g, ids[..offset])
      invariant !more ==> nodes == EntriesFor(g, ids)
      decreases if more then |ids| - offset + 1 else 0
    {
      var page := GetChildrenPage(g, parentId, offset, limit);
      ghost var end := Min(offset + limit, |ids|);
      assert ids[..end] == ids[..offset] + ids[offset..end];
      EntriesForConcat(g, ids[..offset], ids[offset..end]);
      nodes := nodes + page.nodes;
      offset := offset + limit;
      if offset >= page.total {
        more := false;
        assert ids[..|ids|] == ids;
      }
    }
  }

  lemma OneMoreId(g: DirectoryGraph, ids: seq<u32>, n: nat)
    requires |ids| == n + 1
    ensures EntriesFor(g, ids) == EntriesFor(g, ids[..n]) +
      match StorageGet(g, ids[n])
      case None => []
      case Some(i) => [g.entries[i]]
  {
  }

  /** Ids that all belong to entries are found one by one, except id 0. */
  lemma {:induction false} PagesFindNonzero(g: DirectoryGraph, par: seq<nat>, ids: seq<u32>, order: seq<nat>)
    requires Navigable(g, par) && |ids| == |order|
    requires forall i :: 0 <= i < |order| ==> order[i] < |par| && ids[i] == g.entries[order[i]].id
    ensures |EntriesFor(g, ids)| == |ids| <==> 0 !in ids
    ensures 0 !in ids ==> forall i :: 0 <= i < |ids| ==> EntriesFor(g, ids)[i] == g.entries[order[i]]
    decreases |ids|
  {
    hide Navigable, StorageGet, IsTree, EntriesFor;
    NavigableSizes(g, par);
    if ids == [] {
      NoEntries(g);
    } else {
      var n := |ids| - 1;
      PagesFindNonzero(g, par, ids[..n], order[..n]);
      GetFinds(g, par, order[n]);
      OneMoreId(g, ids, n);
      assert ids == ids[..n] + [ids[n]];
    }
  }

  /** Paging through a directory yields exactly its children, each once and in display order, precisely if no child
      has the id 0. */
  lemma PagesAreChildren(lower: string -> string, rootTarget: string, s: Scan, g: DirectoryGraph, p: nat)
    requires HasTree(s) && GraphOf(lower, rootTarget, s, g) && p < |s.nodes|
    ensures InBounds(g)
    ensures var ids := ChildIds(g, p); var order := Positions(NodeIds(s.nodes), ids);
      && SortedChildren(lower, ParentsOf(s.nodes), g.entries, p, order)
      && (|EntriesFor(g, ids)| == |order| <==> 0 !in ids)
      && (0 !in ids ==> forall i :: 0 <= i < |order| ==> EntriesFor(g, ids)[i] == g.entries[order[i]])
  {
    hide GraphOf, HasTree, Navigable, SettledGraph, SameShape, SlicesOk;
    GraphSlices(lower, rootTarget, s, g);
    var par := ParentsOf(s.nodes);
    BuiltIsNavigable(lower, rootTarget, s, g);
    var all := Positions(NodeIds(s.nodes), g.allChildren);
    SlicesAreBounded(lower, par, g, all);
    var ids := ChildIds(g, p);
    var order := Positions(NodeIds(s.nodes), ids);
    SliceIsSorted(lower, par, g, all, p);
    assert order == all[g.entries[p].childStart..g.entries[p].childStart + g.entries[p].childCount];
    forall i | 0 <= i < |order|
      ensures order[i] < |par| && ids[i] == g.entries[order[i]].id
    {
      ChildIsEntry(lower, rootTarget, s, g, ids[i], g.entries[p].childStart + i);
    }
    PagesFindNonzero(g, par, ids, order);
  }

  // ---- What a client sees of a directory

  /** The children of entry `p` of the stream: the records that name it as their parent. */
  ghost predicate ListsChildren(s: Scan, p: nat, order: seq<nat>)
    requires AllEntries(s.nodes) && p < |s.nodes|
  {
    && (forall x :: x in order <==> 0 < x < |s.nodes| && s.nodes[x].parentId == s.nodes[p].entryId)
    && forall i, j :: 0 <= i < j < |order| ==> order[i] != order[j]
  }

  lemma ParentById(s: Scan, p: nat, x: nat)
    requires HasTree(s) && p < |s.nodes| && 0 < x < |s.nodes|
    ensures AllEntries(s.nodes) && IsTree(ParentsOf(s.nodes))
    ensures ParentsOf(s.nodes)[x] == p <==> s.nodes[x].parentId == s.nodes[p].entryId
  {
    hide Settleable;
    var entries, par := EntriesOf(s.nodes), ParentsOf(s.nodes);
    assert entries[par[x]].id == entries[x].parentId;
    assert NodeIds(s.nodes)[p] == s.nodes[p].entryId && NodeIds(s.nodes)[par[x]] == s.nodes[x].parentId;
  }

  lemma ChildrenListed(lower: string -> string, s: Scan, g: DirectoryGraph, p: nat, order: seq<nat>)
    requires HasTree(s) && AllEntries(s.nodes) && |g.entries| == |s.nodes| && p < |s.nodes|
    requires IsTree(ParentsOf(s.nodes)) && SortedChildren(lower, ParentsOf(s.nodes), g.entries, p, order)
    ensures ListsChildren(s, p, order)
    ensures forall i :: 0 <= i < |order| ==> order[i] < |g.entries|
    ensures forall i, j :: 0 <= i < j < |order| ==> InDisplayOrder(lower, g.entries[order[i]], g.entries[order[j]])
  {
    hide HasTree, Precedes;
    forall x | 0 < x < |s.nodes|
      ensures ParentsOf(s.nodes)[x] == p <==> s.nodes[x].parentId == s.nodes[p].entryId
    {
      ParentById(s, p, x);
    }
    forall i, j | 0 <= i < j < |order|
      ensures order[i] != order[j] && InDisplayOrder(lower, g.entries[order[i]], g.entries[order[j]])
    {
      SortedMeaning(lower, g.entries, order, i, j);
      PrecedesTotal(lower, g.entries[order[i]], g.entries[order[j]]);
    }
  }

  lemma BuiltEntries(lower: string -> string, rootTarget: string, s: Scan, g: DirectoryGraph)
    requires HasTree(s) && GraphOf(lower, rootTarget, s, g)
    ensures AllEntries(s.nodes) && |g.entries| == |s.nodes|
    ensures forall x :: 0 <= x < |s.nodes| ==> g.entries[x].id == s.nodes[x].entryId
  {
    BuiltIsNavigable(lower, rootTarget, s, g);
    hide GraphOf, Navigable, SettledGraph, Settleable;
    forall x | 0 <= x < |s.nodes|
      ensures g.entries[x].id == s.nodes[x].entryId
    {
      assert g.entries[x].id == EntriesOf(s.nodes)[x].id;
    }
  }

  /** The slice of entry `p` holds the ids of its children in the stream, each once, in display order. */
  ghost predicate SliceShown(lower: string -> string, s: Scan, g: DirectoryGraph, p: nat, order: seq<nat>) {
    && AllEntries(s.nodes) && p < |s.nodes| == |g.entries| && ListsChildren(s, p, order)
    && |order| == g.entries[p].childCount && g.entries[p].childStart + |order| <= |g.allChildren|
    && (forall i :: 0 <= i < |order| ==> order[i] < |s.nodes| && g.allChildren[g.entries[p].childStart + i] == s.nodes[order[i]].entryId)
    && forall i, j :: 0 <= i < j < |order| ==> InDisplayOrder(lower, g.entries[order[i]], g.entries[order[j]])
  }

  /** Every slice of a finished graph is in display order. */
  lemma DisplayOrder(lower: string -> string, rootTarget: string, s: Scan, g: DirectoryGraph, p: nat) returns (order: seq<nat>)
    requires HasTree(s) && GraphOf(lower, rootTarget, s, g) && p < |s.nodes|
    ensures SliceShown(lower, s, g, p, order)
    ensures AllEntries(s.nodes) && InBounds(g) && p < |g.entries| && order == Positions(NodeIds(s.nodes), ChildIds(g, p))
  {
    hide GraphOf, HasTree, Navigable, SortedChildren, EntriesFor, ListsChildren, InDisplayOrder, SliceShown, SlicesOk, ChildIds, EntriesOf;
    PagesAreChildren(lower, rootTarget, s, g, p);
    BuiltEntries(lower, rootTarget, s, g);
    var ids := ChildIds(g, p);
    order := Positions(NodeIds(s.nodes), ids);
    GraphSlices(lower, rootTarget, s, g);
    ChildrenListed(lower, s, g, p, order);
    ChildIdsAt(lower, rootTarget, s, g, p, ids);
    SliceReads(lower, s, g, p, order);
  }

  lemma SliceReads(lower: string -> string, s: Scan, g: DirectoryGraph, p: nat, order: seq<nat>)
    requires AllEntries(s.nodes) && p < |s.nodes| == |g.entries| && ListsChildren(s, p, order) && InBounds(g)
    requires |order| == |ChildIds(g, p)|
    requires forall x :: 0 <= x < |s.nodes| ==> g.entries[x].id == s.nodes[x].entryId
    requires forall i :: 0 <= i < |order| ==> order[i] < |g.entries| && ChildIds(g, p)[i] == g.entries[order[i]].id
    requires forall i, j :: 0 <= i < j < |order| ==> InDisplayOrder(lower, g.entries[order[i]], g.entries[order[j]])
    ensures SliceShown(lower, s, g, p, order)
  {
    hide ListsChildren, InDisplayOrder;
    var ids := ChildIds(g, p);
    assert forall i :: 0 <= i < |ids| ==> ids[i] == g.allChildren[g.entries[p].childStart + i];
  }

  /** A client that pages through a directory of a finished graph sees exactly the children in its slice, in that order, if and
      only if none of them has the id 0. */
  method ReadDirectory(g: DirectoryGraph, p: nat, limit: nat, ghost lower: string -> string, ghost rootTarget: string, ghost s: Scan)
    returns (nodes: seq<CompactEntry>, ghost order: seq<nat>)
    requires HasTree(s) && GraphOf(lower, rootTarget, s, g) && limit > 0
    requires p < |s.nodes| && s.nodes[p].DirectoryRecord? && s.nodes[p].entryId != 0
    ensures SliceShown(lower, s, g, p, order)
    ensures |nodes| == |order| <==> forall i :: 0 <= i < |order| ==> s.nodes[order[i]].entryId != 0
    ensures |nodes| == |order| ==> forall i :: 0 <= i < |order| ==> nodes[i] == g.entries[order[i]]
  {
    hide GraphOf, HasTree, Navigable, SortedChildren, EntriesFor, PageIds, ChildIds, ListsChildren, InDisplayOrder, Positions, NodeIds;
    order := DisplayOrder(lower, rootTarget, s, g, p);
    PagesAreChildren(lower, rootTarget, s, g, p);
    DirectoryFound(lower, rootTarget, s, g, p);
    nodes := ReadAllPages(g, g.entries[p].id, limit);
    NoZeroChild(lower, s, g, p, order);
  }

  lemma NoZeroChild(lower: string -> string, s: Scan, g: DirectoryGraph, p: nat, order: seq<nat>)
    requires SliceShown(lower, s, g, p, order)
    ensures 0 !in ChildIds(g, p) <==> forall i :: 0 <= i < |order| ==> s.nodes[order[i]].entryId != 0
  {
    hide ListsChildren, InDisplayOrder;
    var ids := ChildIds(g, p);
    assert forall i :: 0 <= i < |order| ==> ids[i] == s.nodes[order[i]].entryId;
  }

  /** The query finds the directory and selects from its child ids. */
  lemma DirectoryFound(lower: string -> string, rootTarget: string, s: Scan, g: DirectoryGraph, p: nat)
    requires HasTree(s) && GraphOf(lower, rootTarget, s, g) && InBounds(g)
    requires p < |g.entries| && p < |s.nodes| && s.nodes[p].DirectoryRecord? && s.nodes[p].entryId != 0
    ensures StorageGet(g, g.entries[p].id).Some?
    ensures PageIds(g, g.entries[p].id) == Some(ChildIds(g, p))
  {
    BuiltIsNavigable(lower, rootTarget, s, g);
    GetFinds(g, ParentsOf(s.nodes), p);
    hide GraphOf, HasTree, Navigable;
  }

  lemma ChildIdsAt(lower: string -> string, rootTarget: string, s: Scan, g: DirectoryGraph, p: nat, ids: seq<u32>)
    requires HasTree(s) && GraphOf(lower, rootTarget, s, g) && AllEntries(s.nodes)
    requires InBounds(g) && p < |g.entries| && ids == ChildIds(g, p)
    ensures var order := Positions(NodeIds(s.nodes), ids);
      forall i :: 0 <= i < |ids| ==> order[i] < |g.entries| && ids[i] == g.entries[order[i]].id
  {
    hide GraphOf, HasTree;
    forall i | 0 <= i < |ids|
      ensures var x := Position(NodeIds(s.nodes), ids[i]); x < |g.entries| && ids[i] == g.entries[x].id
    {
      ChildIsEntry(lower, rootTarget, s, g, ids[i], g.entries[p].childStart + i);
    }
  }

  /** Page 0 of a finished graph is its root alone. */
  lemma RootPage(lower: string -> string, rootTarget: string, s: Scan, g: DirectoryGraph)
    requires HasTree(s) && GraphOf(lower, rootTarget, s, g) && InBounds(g)
    ensures PageIds(g, 0) == Some([1]) && EntriesFor(g, [1]) == [g.entries[0]]
  {
    BuiltIsNavigable(lower, rootTarget, s, g);
    hide GraphOf, HasTree;
    GetFinds(g, ParentsOf(s.nodes), 0);
    OneMoreId(g, [1], 0);
    assert [1 as u32][..0] == [];
  }

  lemma GraphSlices(lower: string -> string, rootTarget: string, s: Scan, g: DirectoryGraph)
    requires HasTree(s) && GraphOf(lower, rootTarget, s, g)
    ensures AllEntries(s.nodes) && IsTree(ParentsOf(s.nodes)) && |g.entries| == |s.nodes|
    ensures SlicesOk(lower, ParentsOf(s.nodes), g.entries, Positions(NodeIds(s.nodes), g.allChildren), |s.nodes|, g.entries)
  {
    hide SettledGraph, ObjectsShared, StreamsAttributed, AllocationsKnown, IdsOk, ParentsOk, SlicesOk;
  }

  lemma SlicesAreBounded(lower: string -> string, par: seq<nat>, g: DirectoryGraph, order: seq<nat>)
    requires IsTree(par) && |g.entries| == |par| && |order| == |g.allChildren|
    requires SlicesOk(lower, par, g.entries, order, |par|, g.entries)
    ensures InBounds(g)
  {
    forall q | 0 <= q < |g.entries|
      ensures g.entries[q].childStart + g.entries[q].childCount <= |g.allChildren|
    {
      assert SliceOk(lower, par, g.entries, order, q, g.entries[q]);
    }
  }

  lemma SliceIsSorted(lower: string -> string, par: seq<nat>, g: DirectoryGraph, order: seq<nat>, p: nat)
    requires IsTree(par) && |g.entries| == |par| && p < |par| && SlicesOk(lower, par, g.entries, order, |par|, g.entries)
    ensures g.entries[p].childStart + g.entries[p].childCount <= |order|
    ensures SortedChildren(lower, par, g.entries, p, order[g.entries[p].childStart..g.entries[p].childStart + g.entries[p].childCount])
  {
    assert SliceOk(lower, par, g.entries, order, p, g.entries[p]);
  }

  lemma ChildIsEntry(lower: string -> string, rootTarget: string, s: Scan, g: DirectoryGraph, id: u32, i: nat)
    requires HasTree(s) && GraphOf(lower, rootTarget, s, g) && i < |g.allChildren| && id == g.allChildren[i]
    ensures Position(NodeIds(s.nodes), id) < |s.nodes| == |g.entries| && g.entries[Position(NodeIds(s.nodes), id)].id == id
  {
    hide SettledGraph, ObjectsShared, StreamsAttributed, AllocationsKnown, IdsOk, Settleable, ParentsOk, SlicesOk;
    SettledKeepsShape(ParentsOf(s.nodes), EntriesOf(s.nodes), FactsOf(s.nodes), SelfsOf(s.nodes), g.entries, g.objects);
    assert id in NodeIds(s.nodes);
    IdsOfEntries(s.nodes);
  }

  // ---- Display paths

  function WithSeparator(name: string): string {
    if name != "" && name[|name| - 1] == '\\' then name else name + "\\"
  }

  /** The path of entry `x` with a trailing separator: the root's name, then the names on the way down. */
  ghost function PathPrefix(g: DirectoryGraph, par: seq<nat>, x: nat): (r: string)
    requires IsTree(par) && |g.entries| == |par| && x < |par|
    ensures r != ""
    decreases x
  {
    if x == 0 then WithSeparator(g.entries[0].name) else PathPrefix(g, par, par[x]) + g.entries[x].name + "\\"
  }

  ghost function PathOf(g: DirectoryGraph, par: seq<nat>, x: nat): string
    requires IsTree(par) && |g.entries| == |par| && x < |par|
  {
    var p := PathPrefix(g, par, x);
    p[..|p| - 1]
  }

  /** The root's path is its name without a trailing separator; the path of any other entry is its parent's, a separator and
      its own name. */
  lemma PathMeaning(g: DirectoryGraph, par: seq<nat>, x: nat)
    requires IsTree(par) && |g.entries| == |par| && x < |par|
    ensures x > 0 ==> PathOf(g, par, x) == PathOf(g, par, par[x]) + "\\" + g.entries[x].name
    ensures var name := g.entries[0].name;
      PathOf(g, par, 0) == if |name| > 0 && name[|name| - 1] == '\\' then name[..|name| - 1] else name
  {
    PrefixEnds(g, par, 0);
    if x > 0 {
      PrefixEnds(g, par, par[x]);
      var p := PathPrefix(g, par, par[x]);
      assert PathPrefix(g, par, x) == p + g.entries[x].name + "\\";
      assert p == p[..|p| - 1] + "\\";
    }
  }

  lemma {:induction false} PrefixEnds(g: DirectoryGraph, par: seq<nat>, x: nat)
    requires IsTree(par) && |g.entries| == |par| && x < |par|
    ensures PathPrefix(g, par, x)[|PathPrefix(g, par, x)| - 1] == '\\'
    decreases x
  {
  }

  /** From `x` up to the root. */
  ghost function Chain(par: seq<nat>, x: nat): (r: seq<nat>)
    requires IsTree(par) && x < |par|
    ensures r != [] && r[0] == x && r[|r| - 1] == 0 && forall i :: 0 <= i < |r| ==> r[i] < |par|
    ensures forall i :: 0 <= i < |r| - 1 ==> r[i] > 0 && r[i + 1] == par[r[i]]
    decreases x
  {
    if x == 0 then [0] else [x] + Chain(par, par[x])
  }

  lemma UpFinds(g: DirectoryGraph, par: seq<nat>, x: nat)
    requires Navigable(g, par) && x < |par|
    ensures g.entries[x].parentId == 0 <==> x == 0
    ensures x > 0 ==> StorageGet(g, g.entries[x].parentId) == Some(par[x])
  {
    if x > 0 {
      GetFinds(g, par, par[x]);
    }
  }

  method CollectNames(g: DirectoryGraph, x: nat, ghost par: seq<nat>) returns (names: seq<string>)
    requires Navigable(g, par) && x < |par|
    ensures |names| == |Chain(par, x)| && forall i :: 0 <= i < |names| ==> names[i] == g.entries[Chain(par, x)[i]].name
  {
    var current := x;
    ghost var chain := Chain(par, x);
    names := [g.entries[current].name];
    UpFinds(g, par, current);
    while g.entries[current].parentId != 0
      invariant 1 <= |names| <= |chain| && current == chain[|names| - 1] < |par|
      invariant forall i :: 0 <= i < |names| ==> names[i] == g.entries[chain[i]].name
      invariant g.entries[current].parentId == 0 <==> current == 0
      decreases current
    {
      UpFinds(g, par, current);
      current := StorageGet(g, g.entries[current].parentId).value;
      names := names + [g.entries[current].name];
      UpFinds(g, par, current);
    }
  }

  /** `display_path`: the root target followed by the names on the way to the entry. */
  method DisplayPath(g: DirectoryGraph, id: u32, ghost par: seq<nat>) returns (path: Option<string>)
    requires Navigable(g, par)
    ensures path == match StorageGet(g, id)
      case None => None
      case Some(x) => Some(PathOf(g, par, x))
  {
    var start := StorageGet(g, id);
    if start.None? {
      return None;
    }
    ghost var chain := Chain(par, start.value);
    var names := CollectNames(g, start.value, par);
    var p := WithSeparator(names[|names| - 1]);
    var i := |names| - 1;
    while i > 0
      invariant 0 <= i < |names| && p == PathPrefix(g, par, chain[i])
    {
      i := i - 1;
      p := p + names[i] + "\\";
    }
    return Some(p[..|p| - 1]);
  }

  // ---- The hard-link report

  datatype HardLinkSummary = HardLinkSummary(
    identity: ObjectIdentity,
    observedAliasCount: u32,
    totalLinkCount: ValueKnowledge,
    status: ExternalReferenceStatus,
    entryPaths: seq<string>)

  /** Objects worth reporting: several aliases, or a definite statement about links outside the target. */
  predicate Relevant(o: ObjectRecord) {
    o.observedAliasCount >= 2 || o.status == ConfirmedExternal || o.status == InconsistentEvidence
  }

  predicate RelevantEntry(g: DirectoryGraph, x: nat)
    requires x < |g.entries|
  {
    g.entries[x].objectIndex < |g.objects| && Relevant(g.objects[g.entries[x].objectIndex])
  }

  /** The display paths of the first `m` entries that refer to object `k`, in stream order. */
  ghost function PathsOf(g: DirectoryGraph, par: seq<nat>, k: u32, m: nat): seq<string>
    requires IsTree(par) && |g.entries| == |par| && m <= |par|
  {
    if m == 0 then []
    else
      PathsOf(g, par, k, m - 1)
      + if g.entries[m - 1].objectIndex == k && g.entries[m - 1].id != 0 then [PathOf(g, par, m - 1)] else []
  }

  /** The relevant objects of the first `m` entries, each at its first entry. */
  ghost function Ordered(g: DirectoryGraph, m: nat): seq<u32>
    requires m <= |g.entries|
  {
    if m == 0 then []
    else
      var before := Ordered(g, m - 1);
      var k := g.entries[m - 1].objectIndex;
      if RelevantEntry(g, m - 1) && g.entries[m - 1].id != 0 && k !in before then before + [k] else before
  }

  ghost function Summaries(g: DirectoryGraph, par: seq<nat>, ordered: seq<u32>): seq<HardLinkSummary>
    requires IsTree(par) && |g.entries| == |par| && forall i :: 0 <= i < |ordered| ==> ordered[i] < |g.objects|
  {
    if ordered == [] then []
    else
      var k := ordered[|ordered| - 1];
      var o := g.objects[k];
      Summaries(g, par, ordered[..|ordered| - 1])
      + match o.identity
        case None => []
        case Some(identity) =>
          [HardLinkSummary(identity, o.observedAliasCount, o.totalLinkCount, o.status, PathsOf(g, par, k, |par|))]
  }

  lemma {:induction false} OrderedInRange(g: DirectoryGraph, m: nat)
    requires m <= |g.entries|
    ensures forall i :: 0 <= i < |Ordered(g, m)| ==> Ordered(g, m)[i] < |g.objects| && Relevant(g.objects[Ordered(g, m)[i]])
    decreases m
  {
    if m > 0 {
      OrderedInRange(g, m - 1);
    }
  }

  ghost predicate PathsGathered(g: DirectoryGraph, par: seq<nat>, m: nat, ordered: seq<u32>, byObject: map<u32, seq<string>>)
    requires IsTree(par) && |g.entries| == |par| && m <= |par|
  {
    && ordered == Ordered(g, m)
    && (forall k :: k in byObject <==> k in ordered)
    && forall k :: k in byObject ==> byObject[k] == PathsOf(g, par, k, m)
  }

  lemma {:induction false} NoPathsYet(g: DirectoryGraph, par: seq<nat>, k: u32, m: nat)
    requires IsTree(par) && |g.entries| == |par| && m <= |par|
    requires k < |g.objects| && Relevant(g.objects[k]) && k !in Ordered(g, m)
    ensures PathsOf(g, par, k, m) == []
    decreases m
  {
    if m > 0 {
      NoPathsYet(g, par, k, m - 1);
    }
  }

  lemma GatherStep(g: DirectoryGraph, par: seq<nat>, m: nat, ordered: seq<u32>, byObject: map<u32, seq<string>>)
    requires IsTree(par) && |g.entries| == |par| && m < |par| && PathsGathered(g, par, m, ordered, byObject)
    ensures var k := g.entries[m].objectIndex;
      if RelevantEntry(g, m) && g.entries[m].id != 0 then
        PathsGathered(g, par, m + 1, if k in byObject then ordered else ordered + [k],
                      byObject[k := (if k in byObject then byObject[k] else []) + [PathOf(g, par, m)]])
      else PathsGathered(g, par, m + 1, ordered, byObject)
  {
    var k := g.entries[m].objectIndex;
    OrderedInRange(g, m);
    if RelevantEntry(g, m) && k !in ordered {
      NoPathsYet(g, par, k, m);
    }
  }

  method HardLinkObjects(g: DirectoryGraph, ghost par: seq<nat>) returns (report: seq<HardLinkSummary>)
    requires Navigable(g, par)
    ensures forall i :: 0 <= i < |Ordered(g, |par|)| ==> Ordered(g, |par|)[i] < |g.objects|
    ensures report == Summaries(g, par, Ordered(g, |par|))
  {
    hide Navigable, PathsGathered;
    var byObject: map<u32, seq<string>>, ordered: seq<u32> := map[], [];
    NavigableSizes(g, par);
    NothingGathered(g, par);
    for idx := 0 to |g.entries|
      invariant PathsGathered(g, par, idx, ordered, byObject)
    {
      var compact := g.entries[idx];
      GetFinds(g, par, idx);
      GatherStep(g, par, idx, ordered, byObject);
      if RelevantEntry(g, idx) {
        var path := DisplayPath(g, compact.id, par);
        if path.Some? {
          if compact.objectIndex !in byObject {
            ordered := ordered + [compact.objectIndex];
            byObject := byObject[compact.objectIndex := [] + [path.value]];
          } else {
            byObject := byObject[compact.objectIndex := byObject[compact.objectIndex] + [path.value]];
          }
        }
      }
    }
    report := Summarize(g, ordered, byObject, par);
  }

  lemma NavigableSizes(g: DirectoryGraph, par: seq<nat>)
    requires Navigable(g, par)
    ensures IsTree(par) && |g.entries| == |par|
  {
  }

  lemma NothingGathered(g: DirectoryGraph, par: seq<nat>)
    requires IsTree(par) && |g.entries| == |par|
    ensures PathsGathered(g, par, 0, [], map[])
  {
  }

  /** The final projection of the report. */
  method Summarize(g: DirectoryGraph, ordered: seq<u32>, byObject: map<u32, seq<string>>, ghost par: seq<nat>) returns (report: seq<HardLinkSummary>)
    requires IsTree(par) && |g.entries| == |par| && PathsGathered(g, par, |par|, ordered, byObject)
    ensures forall i :: 0 <= i < |Ordered(g, |par|)| ==> Ordered(g, |par|)[i] < |g.objects|
    ensures report == Summaries(g, par, Ordered(g, |par|))
  {
    OrderedInRange(g, |par|);
    report := [];
    for i := 0 to |ordered|
      invariant report == Summaries(g, par, ordered[..i])
    {
      assert ordered[..i + 1][..i] == ordered[..i];
      var k := ordered[i];
      assert k in ordered;
      var obj := g.objects[k];
      if obj.identity.Some? {
        report := report + [HardLinkSummary(obj.identity.value, obj.observedAliasCount, obj.totalLinkCount, obj.status, byObject[k])];
      }
    }
    assert ordered[..|ordered|] == ordered;
  }
}
