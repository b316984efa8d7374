/** `compute_aggregates` from end to end: object resolution, traversal, totals, child slices. */
module Settlement {
  import opened Words
  import opened Observation
  import opened Graph
  import opened Forest
  import opened Distinct
  import opened Objects
  import opened Tarjan
  import opened Aggregates
  import opened ChildOrder
  import opened Accounting

  /** The tree and the facts a scan is settled from. */
  ghost predicate Settleable(par: seq<nat>, entries: seq<CompactEntry>, f: Facts, self: seq<u64>) {
    && IsTree(par) && |entries| == |self| == |par| <= NONE
    && FactsOk(entries, f) && AllIngested(entries)
    && ParentsAreDirectories(par, entries)
  }

  /** The reported fields of entry `x`. The unique bytes of a directory are cut off at 64 bits. */
  ghost predicate SettledEntry(par: seq<nat>, entries0: seq<CompactEntry>, f: Facts, self: seq<u64>, x: nat, e: CompactEntry)
    requires Settleable(par, entries0, f, self) && x < |par|
  {
    var e0 := entries0[x];
    && e.id == e0.id && e.parentId == e0.parentId && e.name == e0.name && e.kind == e0.kind && e.meta == e0.meta
    && e.knownSubtotal == e.referenced
    && match e0.kind
       case Directory =>
         && 0 <= LogicalSumOf(par, entries0, x) && e.logicalSize == Some(Clamp(LogicalSumOf(par, entries0, x)))
         && 0 <= ReferencedOf(par, entries0, self, x) && e.referenced == Clamp(ReferencedOf(par, entries0, self, x))
         && e.allocatedSize == Some(e.referenced)
         && (e.allocatedSizeKnown <==> ScopeKnown(par, entries0, f, x))
         && e.unique == UniqueOf(par, entries0, f, self, x) % TWO_64
       case File =>
         && e.logicalSize == e0.logicalSize && e.allocatedSize == e0.allocatedSize && e.referenced == e0.referenced
         && (e.allocatedSizeKnown <==> e0.allocatedSize.Some? && !Contradicted(entries0, f, x))
         && e.unique == Bytes(entries0, f, self, x)
       case Special =>
         && e.logicalSize == None && e.allocatedSize == None && e.referenced == 0 == e.unique && !e.allocatedSizeKnown
  }

  /** The object record of entry `x`. */
  ghost predicate SettledObject(entries0: seq<CompactEntry>, f: Facts, x: nat, e: CompactEntry, objects: seq<ObjectRecord>)
    requires FactsOk(entries0, f) && |entries0| <= U32_MAX && x < |entries0|
  {
    match ObjectOf(entries0, f, x)
    case None => e.objectIndex == NO_OBJECT
    case Some(o) => e.objectIndex < |objects| && e.objectIndex != NO_OBJECT && objects[e.objectIndex] == o
  }

  // ---- The exact quantities

  ghost function Uniques(par: seq<nat>, entries: seq<CompactEntry>, f: Facts, self: seq<u64>): (r: seq<int>)
    requires IsTree(par) && FactsOk(entries, f) && |self| == |entries| == |par|
    ensures |r| == |par| && forall d :: 0 <= d < |r| ==> r[d] == UniqueOf(par, entries, f, self, d)
  {
    seq(|par|, d requires 0 <= d < |par| => UniqueOf(par, entries, f, self, d))
  }

  /** No directory has fewer unique bytes than its children lose when theirs are cut off at 64 bits. */
  ghost predicate NoneOverdrawn(par: seq<nat>, entries: seq<CompactEntry>, f: Facts, self: seq<u64>)
    requires IsTree(par) && FactsOk(entries, f) && |self| == |entries| == |par|
  {
    forall d :: 0 <= d < |par| && entries[d].kind == EntryKind.Directory ==> Covered(par, Uniques(par, entries, f, self), d)
  }

  /** In particular if the unique bytes of the whole target fit 64 bits; then nothing is cut off. */
  lemma FittingTarget(par: seq<nat>, entries: seq<CompactEntry>, f: Facts, self: seq<u64>)
    requires IsTree(par) && FactsOk(entries, f) && |self| == |entries| == |par|
    requires UniqueOf(par, entries, f, self, 0) <= U64_MAX
    ensures NoneOverdrawn(par, entries, f, self)
    ensures forall d :: 0 <= d < |par| ==> UniqueOf(par, entries, f, self, d) <= U64_MAX
  {
    var u := Uniques(par, entries, f, self);
    forall d | 0 <= d < |par|
      ensures 0 <= u[d] <= U64_MAX
    {
      UnderRoot(par, d);
      UniqueMonotone(par, entries, f, self, d, 0);
    }
    forall d | 0 <= d < |par|
      ensures Covered(par, u, d)
    {
      NothingLost(par, u, d, |par|);
    }
  }

  ghost function DistinctCounts(par: seq<nat>, obj: seq<int>, g: seq<int>): (r: seq<int>)
    requires IsTree(par) && |obj| == |g| == |par|
    ensures |r| == |par| && forall d :: 0 <= d < |r| ==> r[d] == DistinctSum(par, obj, g, d, |par|)
  {
    seq(|par|, d requires 0 <= d < |par| => DistinctSum(par, obj, g, d, |par|))
  }

  ghost function NetSeq(g: seq<int>, delta: seq<int>): (r: seq<int>)
    requires |g| == |delta|
    ensures |r| == |g| && forall x :: 0 <= x < |r| ==> r[x] == g[x] + delta[x]
  {
    seq(|g|, x requires 0 <= x < |g| => g[x] + delta[x])
  }

  lemma WeightsAgree(base: seq<CompactEntry>, objects: seq<ObjectRecord>, self: seq<u64>)
    requires AliasesInRange(base, objects) && |self| == |base|
    ensures Weighted(AliasSeq(base), AmountSeq(base, objects, self), WeightSeq(objects))
    ensures AliasData(base, objects, AliasSeq(base), AmountSeq(base, objects, self))
  {
  }

  /** The corrections of the traversal turn per-entry amounts into distinct counts. */
  lemma CorrectedAmounts(par: seq<nat>, base: seq<CompactEntry>, objects: seq<ObjectRecord>, self: seq<u64>,
                         post: seq<nat>, blocks: seq<nat>, delta: seq<int>, d: nat)
    requires IsTree(par) && |base| == |self| == |par| && AliasesInRange(base, objects) && d < |par|
    requires PostOrder(par, post, blocks)
    requires DeltaOk(par, AliasSeq(base), AmountSeq(base, objects, self), delta, post)
    ensures SumUnder(par, d, NetSeq(AmountSeq(base, objects, self), delta), |par|)
         == DistinctSum(par, AliasSeq(base), AmountSeq(base, objects, self), d, |par|)
  {
    var obj, g := AliasSeq(base), AmountSeq(base, objects, self);
    WeightsAgree(base, objects, self);
    CorrectedSumIsDistinct(par, obj, g, WeightSeq(objects), post, delta, d);
    SumUnderAdd(par, d, g, delta, NetSeq(g, delta), |par|);
  }

  lemma DistinctBounds(par: seq<nat>, base: seq<CompactEntry>, objects: seq<ObjectRecord>, self: seq<u64>, x: nat)
    requires IsTree(par) && BaseOk(par, base) && |self| == |par| && AliasesInRange(base, objects) && x < |par|
    ensures var obj, g := AliasSeq(base), AmountSeq(base, objects, self);
      && 0 <= DistinctSum(par, obj, g, x, |par|) <= DistinctSum(par, obj, g, 0, |par|)
      && (base[x].kind != EntryKind.Directory ==> DistinctSum(par, obj, g, x, |par|) == g[x])
  {
    var obj, g := AliasSeq(base), AmountSeq(base, objects, self);
    WeightsAgree(base, objects, self);
    DistinctNonNegative(par, obj, g, x, |par|);
    UnderRoot(par, x);
    DistinctMonotone(par, obj, g, WeightSeq(objects), x, 0);
    if base[x].kind != EntryKind.Directory {
      forall y | 0 <= y < |par|
        ensures Under(par, x, y) <==> y == x
      {
        ChildlessUnder(par, x, y);
      }
      DistinctChildless(par, obj, g, x, |par|);
    }
  }

  ghost function ExactOf(par: seq<nat>, base: seq<CompactEntry>, objects: seq<ObjectRecord>, self: seq<u64>, delta: seq<int>): Exact
    requires IsTree(par) && |base| == |self| == |delta| == |par| && AliasesInRange(base, objects)
  {
    Exact(LogicalSeq(base), AllocSeq(base, self), NetSeq(AmountSeq(base, objects, self), delta),
          DistinctCounts(par, AliasSeq(base), AmountSeq(base, objects, self)))
  }

  lemma ExactHolds(par: seq<nat>, base: seq<CompactEntry>, objects: seq<ObjectRecord>, self: seq<u64>,
                   post: seq<nat>, blocks: seq<nat>, delta: seq<int>)
    requires IsTree(par) && BaseOk(par, base) && |self| == |par| && AliasesInRange(base, objects)
    requires PostOrder(par, post, blocks)
    requires DeltaOk(par, AliasSeq(base), AmountSeq(base, objects, self), delta, post)
    ensures ExactOk(par, base, objects, self, delta, ExactOf(par, base, objects, self, delta))
  {
    var q := ExactOf(par, base, objects, self, delta);
    forall x | 0 <= x < |par|
      ensures SumUnder(par, x, q.net, |par|) == q.distinct[x]
      ensures 0 <= q.distinct[x] <= q.distinct[0]
      ensures base[x].kind != EntryKind.Directory ==> q.distinct[x] == AmountOf(base[x], objects, self[x])
    {
      CorrectedAmounts(par, base, objects, self, post, blocks, delta, x);
      DistinctBounds(par, base, objects, self, x);
    }
  }

  // ---- From final values back to the specification

  /** Resolution keeps what the traversal relies on. */
  lemma ResolvedBase(par: seq<nat>, entries0: seq<CompactEntry>, f: Facts, self: seq<u64>, base: seq<CompactEntry>, objects: seq<ObjectRecord>, owner: seq<nat>)
    requires Settleable(par, entries0, f, self) && Resolution(entries0, f, base, objects, owner)
    ensures AliasesInRange(base, objects) && BaseOk(par, base)
    ensures LogicalSeq(base) == LogicalSeq(entries0) && AllocSeq(base, self) == AllocSeq(entries0, self)
  {
    forall x | 0 <= x < |par|
      ensures AliasOf(base[x]) < |objects| && LeafOk(base[x]) && base[x].kind == entries0[x].kind
      ensures LogicalOf(base[x]) == LogicalOf(entries0[x]) && AllocOf(base[x], self[x]) == AllocOf(entries0[x], self[x])
    {
      ResolvedEntry(entries0, f, base, objects, owner, self, x);
    }
  }

  lemma ResolvedDistinct(par: seq<nat>, entries0: seq<CompactEntry>, f: Facts, self: seq<u64>, base: seq<CompactEntry>,
                         objects: seq<ObjectRecord>, owner: seq<nat>, d: nat)
    requires Settleable(par, entries0, f, self) && Resolution(entries0, f, base, objects, owner) && d < |par|
    requires AliasesInRange(base, objects)
    ensures DistinctSum(par, AliasSeq(base), AmountSeq(base, objects, self), d, |par|) == UniqueOf(par, entries0, f, self, d)
  {
    forall x | 0 <= x < |par|
      ensures AmountSeq(base, objects, self)[x] == Bytes(entries0, f, self, x)
    {
      ResolvedEntry(entries0, f, base, objects, owner, self, x);
    }
    forall x, y | 0 <= y < x < |par|
      ensures SameObject(AliasSeq(base), y, x) <==> SameIdentity(f, y, x)
    {
      AliasesAreIdentities(entries0, f, base, objects, owner, self, x, y);
    }
    DistinctSumIsUniqueBytes(par, entries0, f, self, AliasSeq(base), AmountSeq(base, objects, self), d, |par|);
  }

  lemma ResolvedScope(par: seq<nat>, entries0: seq<CompactEntry>, f: Facts, self: seq<u64>, base: seq<CompactEntry>,
                      objects: seq<ObjectRecord>, owner: seq<nat>, d: nat)
    requires Settleable(par, entries0, f, self) && Resolution(entries0, f, base, objects, owner) && d < |par|
    requires |base| == |par|
    ensures Complete(par, base, d) <==> ScopeKnown(par, entries0, f, d)
  {
    forall x | 0 <= x < |par|
      ensures base[x].kind == entries0[x].kind
      ensures base[x].kind != EntryKind.Directory ==>
        (KnownLeaf(base[x]) <==> entries0[x].kind == EntryKind.File && entries0[x].allocatedSize.Some? && !Contradicted(entries0, f, x))
    {
      ResolvedEntry(entries0, f, base, objects, owner, self, x);
    }
  }

  /** A directory whose totals are final is settled. */
  lemma DirectorySettled(par: seq<nat>, entries0: seq<CompactEntry>, f: Facts, self: seq<u64>, base: seq<CompactEntry>,
                         objects: seq<ObjectRecord>, owner: seq<nat>, delta: seq<int>, x: nat, e: CompactEntry)
    requires Settleable(par, entries0, f, self) && Resolution(entries0, f, base, objects, owner)
    requires AliasesInRange(base, objects) && |delta| == |par| && x < |par| && base[x].kind == EntryKind.Directory
    requires Final(par, base, ExactOf(par, base, objects, self, delta), x, e) && SameExceptTotals(base[x], e)
    ensures SettledEntry(par, entries0, f, self, x, e) && SettledObject(entries0, f, x, e, objects)
  {
    ResolvedBase(par, entries0, f, self, base, objects, owner);
    ResolvedEntry(entries0, f, base, objects, owner, self, x);
    ResolvedDistinct(par, entries0, f, self, base, objects, owner, x);
    ResolvedScope(par, entries0, f, self, base, objects, owner, x);
  }

  lemma LeafSettled(par: seq<nat>, entries0: seq<CompactEntry>, f: Facts, self: seq<u64>, base: seq<CompactEntry>,
                    objects: seq<ObjectRecord>, owner: seq<nat>, x: nat)
    requires Settleable(par, entries0, f, self) && Resolution(entries0, f, base, objects, owner)
    requires AliasesInRange(base, objects) && x < |par| && base[x].kind != EntryKind.Directory
    ensures SettledEntry(par, entries0, f, self, x, LeafResult(base[x], objects, self[x]))
    ensures SettledObject(entries0, f, x, LeafResult(base[x], objects, self[x]), objects)
  {
    ResolvedEntry(entries0, f, base, objects, owner, self, x);
    assert Ingested(entries0[x]);
    assert EntryResolved(entries0[x], Target(ObjectOf(entries0, f, x), Contradicted(entries0, f, x)), base[x], objects);
  }

  lemma AllSettled(par: seq<nat>, entries0: seq<CompactEntry>, f: Facts, self: seq<u64>, base: seq<CompactEntry>,
                   objects: seq<ObjectRecord>, owner: seq<nat>, delta: seq<int>, post: seq<nat>, blocks: seq<nat>,
                   entries: seq<CompactEntry>, x: nat)
    requires Settleable(par, entries0, f, self) && Resolution(entries0, f, base, objects, owner)
    requires AliasesInRange(base, objects) && |delta| == |par| && PostOrder(par, post, blocks) && x < |par|
    requires Progress(par, base, objects, self, ExactOf(par, base, objects, self, delta), post, |post|, entries)
    ensures SettledEntry(par, entries0, f, self, x, entries[x]) && SettledObject(entries0, f, x, entries[x], objects)
  {
    assert x in post;
    var j :| 0 <= j < |post| && post[j] == x;
    if base[x].kind == EntryKind.Directory {
      DirectorySettled(par, entries0, f, self, base, objects, owner, delta, x, entries[x]);
    } else {
      LeafSettled(par, entries0, f, self, base, objects, owner, x);
    }
  }

  /** Child slices can be read off the sliced entries themselves. */
  lemma SlicesSelf(lower: string -> string, par: seq<nat>, entries: seq<CompactEntry>, order: seq<nat>, sliced: seq<CompactEntry>)
    requires IsTree(par) && |entries| == |par| && SlicesOk(lower, par, entries, order, |par|, sliced)
    ensures SlicesOk(lower, par, sliced, order, |par|, sliced)
  {
    forall p | 0 <= p < |par|
      ensures SliceOk(lower, par, sliced, order, p, sliced[p])
    {
      assert SliceOk(lower, par, entries, order, p, sliced[p]);
      var slice := order[sliced[p].childStart..sliced[p].childStart + sliced[p].childCount];
      forall i, j | 0 <= i < j < |slice|
        ensures Precedes(lower, sliced[slice[i]], sliced[slice[j]])
      {
        assert Precedes(lower, entries[slice[i]], entries[slice[j]]);
      }
    }
  }

  /** Totals over a resolved tree: traversal, leaf amounts, bottom-up sums. */
  method SumUp(base: seq<CompactEntry>, objects: seq<ObjectRecord>, dirSelfAlloc: seq<u64>, firstChild: seq<nat>, nextSibling: seq<nat>,
               ghost par: seq<nat>)
    returns (ok: bool, entries: seq<CompactEntry>, ghost post: seq<nat>, ghost blocks: seq<nat>, ghost delta: seq<int>)
    requires Linked(par, firstChild, nextSibling) && BaseOk(par, base) && |dirSelfAlloc| == |par|
    requires AliasesInRange(base, objects)
    ensures |delta| == |par| && PostOrder(par, post, blocks)
    ensures ok <==> forall p :: 0 <= p < |par| && base[p].kind == EntryKind.Directory ==>
      Covered(par, DistinctCounts(par, AliasSeq(base), AmountSeq(base, objects, dirSelfAlloc)), p)
    ensures ok ==> Progress(par, base, objects, dirSelfAlloc, ExactOf(par, base, objects, dirSelfAlloc, delta), post, |post|, entries)
  {
    WeightsAgree(base, objects, dirSelfAlloc);
    var postOrder, treeDelta;
    postOrder, treeDelta, blocks :=
      Traverse(base, objects, firstChild, nextSibling, par, AliasSeq(base), AmountSeq(base, objects, dirSelfAlloc));
    post, delta := postOrder, treeDelta;
    ExactHolds(par, base, objects, dirSelfAlloc, postOrder, blocks, treeDelta);
    ghost var q := ExactOf(par, base, objects, dirSelfAlloc, treeDelta);
    var leaves := SetLeafAmounts(base, objects, postOrder, dirSelfAlloc, par);
    ok, entries := AggregateDirectories(leaves, dirSelfAlloc, firstChild, nextSibling, postOrder, treeDelta, par, base, objects, blocks, q);
  }

  ghost predicate SettledGraph(par: seq<nat>, entries0: seq<CompactEntry>, f: Facts, self: seq<u64>, entries: seq<CompactEntry>, objects: seq<ObjectRecord>)
    requires Settleable(par, entries0, f, self)
  {
    && |entries| == |par|
    && forall x :: 0 <= x < |par| ==>
         SettledEntry(par, entries0, f, self, x, entries[x]) && SettledObject(entries0, f, x, entries[x], objects)
  }

  ghost predicate UniqueExact(par: seq<nat>, entries0: seq<CompactEntry>, f: Facts, self: seq<u64>, entries: seq<CompactEntry>)
    requires Settleable(par, entries0, f, self)
  {
    && |entries| == |par|
    && forall x :: 0 <= x < |par| && entries0[x].kind == EntryKind.Directory ==> entries[x].unique == UniqueOf(par, entries0, f, self, x)
  }

  /** Two entries share an object record exactly if they are aliases of one identity. */
  ghost predicate ObjectsShared(f: Facts, entries: seq<CompactEntry>)
    requires |f.ident| == |entries|
  {
    forall x, y :: 0 <= x < y < |entries| ==>
      (SameIdentity(f, x, y) <==> entries[x].objectIndex == entries[y].objectIndex != NO_OBJECT)
  }

  lemma ResolvedSharing(entries0: seq<CompactEntry>, f: Facts, base: seq<CompactEntry>, objects: seq<ObjectRecord>, owner: seq<nat>)
    requires FactsOk(entries0, f) && |entries0| <= U32_MAX && Resolution(entries0, f, base, objects, owner)
    ensures ObjectsShared(f, base)
  {
    forall x, y | 0 <= x < y < |base|
      ensures SameIdentity(f, x, y) <==> base[x].objectIndex == base[y].objectIndex != NO_OBJECT
    {
      assert EntryResolved(entries0[x], Target(ObjectOf(entries0, f, x), Contradicted(entries0, f, x)), base[x], objects);
      if base[x].objectIndex == base[y].objectIndex != NO_OBJECT {
        SharingIsIdentity(base, f, objects, owner, x, y);
      }
    }
  }

  lemma SameObjects(par: seq<nat>, base: seq<CompactEntry>, objects: seq<ObjectRecord>, self: seq<u64>, q: Exact, post: seq<nat>, blocks: seq<nat>,
                    f: Facts, entries: seq<CompactEntry>)
    requires IsTree(par) && |base| == |self| == |q.logical| == |q.alloc| == |q.distinct| == |par| == |f.ident|
    requires AliasesInRange(base, objects) && PostOrder(par, post, blocks)
    requires Progress(par, base, objects, self, q, post, |post|, entries) && ObjectsShared(f, base)
    ensures ObjectsShared(f, entries)
  {
    forall x | 0 <= x < |par|
      ensures entries[x].objectIndex == base[x].objectIndex
    {
      assert x in post;
      var j :| 0 <= j < |post| && post[j] == x;
    }
  }

  /** Slicing touches only the slice fields. */
  lemma SlicingKeepsSettled(lower: string -> string, par: seq<nat>, entries0: seq<CompactEntry>, f: Facts, self: seq<u64>,
                            entries: seq<CompactEntry>, objects: seq<ObjectRecord>, order: seq<nat>, sliced: seq<CompactEntry>)
    requires Settleable(par, entries0, f, self) && SettledGraph(par, entries0, f, self, entries, objects)
    requires SlicesOk(lower, par, entries, order, |par|, sliced)
    ensures SettledGraph(par, entries0, f, self, sliced, objects)
  {
    forall x | 0 <= x < |par|
      ensures SettledEntry(par, entries0, f, self, x, sliced[x]) && SettledObject(entries0, f, x, sliced[x], objects)
    {
      assert SettledEntry(par, entries0, f, self, x, entries[x]) && SettledObject(entries0, f, x, entries[x], objects);
    }
  }

  lemma ResolvedUniques(par: seq<nat>, entries0: seq<CompactEntry>, f: Facts, self: seq<u64>, base: seq<CompactEntry>,
                        objects: seq<ObjectRecord>, owner: seq<nat>)
    requires Settleable(par, entries0, f, self) && Resolution(entries0, f, base, objects, owner)
    requires AliasesInRange(base, objects)
    ensures DistinctCounts(par, AliasSeq(base), AmountSeq(base, objects, self)) == Uniques(par, entries0, f, self)
    ensures forall x :: 0 <= x < |par| ==> base[x].kind == entries0[x].kind
  {
    forall x | 0 <= x < |par|
      ensures DistinctSum(par, AliasSeq(base), AmountSeq(base, objects, self), x, |par|) == UniqueOf(par, entries0, f, self, x)
      ensures base[x].kind == entries0[x].kind
    {
      ResolvedDistinct(par, entries0, f, self, base, objects, owner, x);
      ResolvedEntry(entries0, f, base, objects, owner, self, x);
    }
  }

  /** The settlement of a scan. `ok` is false where the source's non-negativity assertion fails, which happens exactly if
      some directory is overdrawn; otherwise unique bytes are right up to a cut-off at 64 bits. No panic and no cut-off
      happen exactly if the unique bytes of the whole target fit 64 bits. */
  method ComputeAggregates(lower: string -> string, entries0: seq<CompactEntry>, dirSelfAlloc: seq<u64>,
                           firstChild: seq<nat>, nextSibling: seq<nat>, isDense: bool, idToIdx: map<u32, u32>,
                           fileObjectMap: map<ObjectIdentity, seq<u32>>, dirObjectIds: map<u32, ObjectIdentity>,
                           fileLinkCounts: map<u32, ValueKnowledge>, ghost par: seq<nat>, ghost f: Facts)
    returns (ok: bool, entries: seq<CompactEntry>, objects: seq<ObjectRecord>, allChildren: seq<u32>,
             indeterminate: nat, contradiction: bool, ghost order: seq<nat>)
    requires Linked(par, firstChild, nextSibling) && Settleable(par, entries0, f, dirSelfAlloc)
    requires entries0[0].kind == EntryKind.Directory && DistinctIds(entries0)
    requires Located(entries0, isDense, idToIdx)
    requires FileMapOk(entries0, f, fileObjectMap) && DirMapOk(entries0, f, dirObjectIds) && LinkMapOk(entries0, f, fileLinkCounts)
    ensures ok <==> NoneOverdrawn(par, entries0, f, dirSelfAlloc)
    ensures UniqueOf(par, entries0, f, dirSelfAlloc, 0) <= U64_MAX
       <==> ok && UniqueExact(par, entries0, f, dirSelfAlloc, entries)
    ensures ok ==> SettledGraph(par, entries0, f, dirSelfAlloc, entries, objects)
    ensures ok ==> ObjectsShared(f, entries) && |objects| <= |entries|
    ensures ok ==> SlicesOk(lower, par, entries, order, |par|, entries)
    ensures ok ==> |allChildren| == |order| && forall i :: 0 <= i < |order| ==> allChildren[i] == entries0[order[i]].id
    ensures indeterminate == |IndeterminateAmong(entries0, f, fileObjectMap.Keys)| + IndeterminateLoose(entries0, f, |entries0|)
    ensures contradiction <==> ContradictedAmong(entries0, f, fileObjectMap.Keys) != {}
  {
    var base;
    ghost var owner, post, blocks, delta;
    base, objects, indeterminate, contradiction, owner :=
      ResolveObjects(entries0, isDense, idToIdx, fileObjectMap, dirObjectIds, fileLinkCounts, f);
    ResolvedBase(par, entries0, f, dirSelfAlloc, base, objects, owner);
    ResolvedUniques(par, entries0, f, dirSelfAlloc, base, objects, owner);
    if UniqueOf(par, entries0, f, dirSelfAlloc, 0) <= U64_MAX {
      FittingTarget(par, entries0, f, dirSelfAlloc);
    }
    var summed;
    ok, summed, post, blocks, delta := SumUp(base, objects, dirSelfAlloc, firstChild, nextSibling, par);
    entries, allChildren, order := summed, [], [];
    if ok {
      forall x | 0 <= x < |par|
        ensures SettledEntry(par, entries0, f, dirSelfAlloc, x, summed[x]) && SettledObject(entries0, f, x, summed[x], objects)
      {
        AllSettled(par, entries0, f, dirSelfAlloc, base, objects, owner, delta, post, blocks, summed, x);
      }
      ResolvedSharing(entries0, f, base, objects, owner);
      SameObjects(par, base, objects, dirSelfAlloc, ExactOf(par, base, objects, dirSelfAlloc, delta), post, blocks, f, summed);
      entries, allChildren, order := Slice(lower, summed, firstChild, nextSibling, par, entries0, f, dirSelfAlloc, objects);
      RootFits(par, entries0, f, dirSelfAlloc, entries, objects);
    }
  }

  lemma RootFits(par: seq<nat>, entries0: seq<CompactEntry>, f: Facts, self: seq<u64>, entries: seq<CompactEntry>, objects: seq<ObjectRecord>)
    requires Settleable(par, entries0, f, self) && entries0[0].kind == EntryKind.Directory
    requires SettledGraph(par, entries0, f, self, entries, objects)
    ensures UniqueOf(par, entries0, f, self, 0) <= U64_MAX <==> UniqueExact(par, entries0, f, self, entries)
  {
    assert SettledEntry(par, entries0, f, self, 0, entries[0]);
    if UniqueOf(par, entries0, f, self, 0) <= U64_MAX {
      FittingTarget(par, entries0, f, self);
      forall x | 0 <= x < |par| && entries0[x].kind == EntryKind.Directory
        ensures entries[x].unique == UniqueOf(par, entries0, f, self, x)
      {
        assert SettledEntry(par, entries0, f, self, x, entries[x]);
      }
    }
  }

  lemma SlicingKeepsObjects(lower: string -> string, par: seq<nat>, f: Facts, entries: seq<CompactEntry>, order: seq<nat>, sliced: seq<CompactEntry>)
    requires IsTree(par) && |entries| == |par| == |f.ident| && ObjectsShared(f, entries)
    requires SlicesOk(lower, par, entries, order, |par|, sliced)
    ensures |sliced| == |entries| && ObjectsShared(f, sliced)
  {
  }

  method Slice(lower: string -> string, summed: seq<CompactEntry>, firstChild: seq<nat>, nextSibling: seq<nat>, ghost par: seq<nat>,
               ghost entries0: seq<CompactEntry>, ghost f: Facts, ghost self: seq<u64>, ghost objects: seq<ObjectRecord>)
    returns (entries: seq<CompactEntry>, allChildren: seq<u32>, ghost order: seq<nat>)
    requires Linked(par, firstChild, nextSibling) && Settleable(par, entries0, f, self) && DistinctIds(entries0)
    requires SettledGraph(par, entries0, f, self, summed, objects) && ObjectsShared(f, summed)
    ensures SettledGraph(par, entries0, f, self, entries, objects) && ObjectsShared(f, entries)
    ensures SlicesOk(lower, par, entries, order, |par|, entries)
    ensures |allChildren| == |order| && forall i :: 0 <= i < |order| ==> allChildren[i] == entries0[order[i]].id
  {
    SettledShape(par, entries0, f, self, summed, objects);
    entries, allChildren, order := BuildSlices(lower, summed, firstChild, nextSibling, par);
    SlicingKeepsSettled(lower, par, entries0, f, self, summed, objects, order, entries);
    SlicingKeepsObjects(lower, par, f, summed, order, entries);
    SlicesSelf(lower, par, summed, order, entries);
  }

  lemma SettledShape(par: seq<nat>, entries0: seq<CompactEntry>, f: Facts, self: seq<u64>, entries: seq<CompactEntry>, objects: seq<ObjectRecord>)
    requires Settleable(par, entries0, f, self) && SettledGraph(par, entries0, f, self, entries, objects)
    ensures forall x :: 0 <= x < |par| ==> entries[x].id == entries0[x].id && entries[x].kind == entries0[x].kind
    ensures ParentsAreDirectories(par, entries)
    ensures DistinctIds(entries0) ==> DistinctIds(entries)
  {
    forall x | 0 <= x < |par|
      ensures entries[x].id == entries0[x].id && entries[x].kind == entries0[x].kind
    {
      assert SettledEntry(par, entries0, f, self, x, entries[x]);
    }
  }
}
