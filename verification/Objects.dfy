/** Phase 1 of `compute_aggregates`: one object record per distinct identity, with the evidence of
    all its aliases resolved, whatever order the identity map is iterated in. */
module Objects {
  import opened Words
  import opened Observation
  import opened Graph
  import opened Evidence
  import opened Distinct

  /** What the accepted records say about each entry: the identity and link evidence of files,
      the identity of directories. */
  datatype Facts = Facts(
    ident: seq<Option<ObjectIdentity>>,
    link: seq<ValueKnowledge>,
    dirIdent: seq<Option<ObjectIdentity>>)

  /** The lookup of an entry id: arithmetic in dense mode, the id map otherwise. */
  function EntryIndex(isDense: bool, idToIdx: map<u32, u32>, id: u32): int {
    if isDense then id - 1 else if id in idToIdx then idToIdx[id] else -1
  }

  ghost predicate Located(entries: seq<CompactEntry>, isDense: bool, idToIdx: map<u32, u32>) {
    forall x :: 0 <= x < |entries| ==> EntryIndex(isDense, idToIdx, entries[x].id) == x
  }

  /** The entries with identity `oid` below index `m`, in arrival order. */
  ghost function Aliases(ident: seq<Option<ObjectIdentity>>, oid: ObjectIdentity, m: nat): (r: seq<nat>)
    requires m <= |ident|
    ensures |r| <= m && forall i :: 0 <= i < |r| ==> r[i] < m
  {
    if m == 0 then []
    else if ident[m - 1] == Some(oid) then Aliases(ident, oid, m - 1) + [m - 1]
    else Aliases(ident, oid, m - 1)
  }

  lemma {:induction false} AliasesMeaning(ident: seq<Option<ObjectIdentity>>, oid: ObjectIdentity, m: nat)
    requires m <= |ident|
    ensures forall x :: 0 <= x < m ==> (x in Aliases(ident, oid, m) <==> ident[x] == Some(oid))
    ensures Injective(Aliases(ident, oid, m))
    decreases m
  {
    if m > 0 {
      AliasesMeaning(ident, oid, m - 1);
    }
  }

  function IdsAt(entries: seq<CompactEntry>, s: seq<nat>): (r: seq<u32>)
    requires forall i :: 0 <= i < |s| ==> s[i] < |entries|
    ensures |r| == |s| && forall i :: 0 <= i < |s| ==> r[i] == entries[s[i]].id
  {
    seq(|s|, i requires 0 <= i < |s| => entries[s[i]].id)
  }

  ghost function AllocsAt(entries: seq<CompactEntry>, s: seq<nat>): (r: seq<Option<u64>>)
    requires forall i :: 0 <= i < |s| ==> s[i] < |entries|
    ensures |r| == |s| && forall i :: 0 <= i < |s| ==> r[i] == entries[s[i]].allocatedSize
  {
    seq(|s|, i requires 0 <= i < |s| => entries[s[i]].allocatedSize)
  }

  ghost function LinksAt(link: seq<ValueKnowledge>, s: seq<nat>): (r: seq<ValueKnowledge>)
    requires forall i :: 0 <= i < |s| ==> s[i] < |link|
    ensures |r| == |s| && forall i :: 0 <= i < |s| ==> r[i] == link[s[i]]
  {
    seq(|s|, i requires 0 <= i < |s| => link[s[i]])
  }

  function LinkFor(counts: map<u32, ValueKnowledge>, id: u32): ValueKnowledge {
    if id in counts then counts[id] else NotObserved
  }

  ghost predicate FactsOk(entries: seq<CompactEntry>, f: Facts) {
    && |f.ident| == |f.link| == |f.dirIdent| == |entries|
    && forall x :: 0 <= x < |entries| ==>
         && (f.ident[x].Some? ==> entries[x].kind == EntryKind.File)
         && (f.dirIdent[x].Some? ==> entries[x].kind == EntryKind.Directory)
  }

  /** The identity map lists, under every identity that occurs, the ids of its aliases in arrival order. */
  ghost predicate FileMapOk(entries: seq<CompactEntry>, f: Facts, fileObjectMap: map<ObjectIdentity, seq<u32>>)
    requires FactsOk(entries, f)
  {
    && (forall x :: 0 <= x < |entries| && f.ident[x].Some? ==> f.ident[x].value in fileObjectMap)
    && (forall oid :: oid in fileObjectMap ==> AliasListOk(entries, f, oid, fileObjectMap[oid]))
  }

  ghost predicate AliasListOk(entries: seq<CompactEntry>, f: Facts, oid: ObjectIdentity, ids: seq<u32>)
    requires FactsOk(entries, f)
  {
    var s := Aliases(f.ident, oid, |entries|);
    s != [] && ids == IdsAt(entries, s)
  }

  ghost predicate DirMapOk(entries: seq<CompactEntry>, f: Facts, dirObjectIds: map<u32, ObjectIdentity>)
    requires FactsOk(entries, f)
  {
    && (forall x :: 0 <= x < |entries| && f.dirIdent[x].Some? ==>
          entries[x].id in dirObjectIds && dirObjectIds[entries[x].id] == f.dirIdent[x].value)
    && (forall id :: id in dirObjectIds ==> exists x :: 0 <= x < |entries| && entries[x].id == id && f.dirIdent[x].Some?)
  }

  ghost predicate LinkMapOk(entries: seq<CompactEntry>, f: Facts, fileLinkCounts: map<u32, ValueKnowledge>)
    requires FactsOk(entries, f)
  {
    forall x :: 0 <= x < |entries| && entries[x].kind == EntryKind.File ==>
      LinkFor(fileLinkCounts, entries[x].id) == f.link[x]
  }

  // ---- The specification of the object records

  ghost function IdentityAllocs(entries: seq<CompactEntry>, f: Facts, oid: ObjectIdentity): seq<Option<u64>>
    requires FactsOk(entries, f)
  {
    AllocsAt(entries, Aliases(f.ident, oid, |entries|))
  }

  ghost function IdentityLinks(entries: seq<CompactEntry>, f: Facts, oid: ObjectIdentity): seq<ValueKnowledge>
    requires FactsOk(entries, f)
  {
    LinksAt(f.link, Aliases(f.ident, oid, |entries|))
  }

  /** The weight of an identity: the smallest known allocation over all its aliases. */
  ghost function Weight(entries: seq<CompactEntry>, f: Facts, oid: ObjectIdentity): u64
    requires FactsOk(entries, f)
  {
    MinKnown(IdentityAllocs(entries, f, oid)).GetOr(0)
  }

  ghost function IdentityObject(entries: seq<CompactEntry>, f: Facts, oid: ObjectIdentity): ObjectRecord
    requires FactsOk(entries, f) && |entries| <= U32_MAX
  {
    var links := IdentityLinks(entries, f, oid);
    ObjectRecord(Some(oid), |links|, ResolvedLink(links), StatusOf(links), Weight(entries, f, oid))
  }

  /** The object an entry must end up with, if any. */
  ghost function ObjectOf(entries: seq<CompactEntry>, f: Facts, x: nat): Option<ObjectRecord>
    requires FactsOk(entries, f) && |entries| <= U32_MAX && x < |entries|
  {
    if f.ident[x].Some? then Some(IdentityObject(entries, f, f.ident[x].value))
    else if f.dirIdent[x].Some? then Some(ObjectRecord(f.dirIdent[x], 1, NotApplicable, StatusNotApplicable, 0))
    else if entries[x].kind == EntryKind.File && f.link[x] != NotObserved then
      Some(ObjectRecord(None, 1, f.link[x], Derive(f.link[x], 1), entries[x].allocatedSize.GetOr(0)))
    else None
  }

  /** Aliases that contradict each other's allocation make all of them unknown. */
  ghost predicate Contradicted(entries: seq<CompactEntry>, f: Facts, x: nat)
    requires FactsOk(entries, f) && x < |entries|
  {
    f.ident[x].Some? && AllocConflict(IdentityAllocs(entries, f, f.ident[x].value))
  }

  ghost predicate Pristine(entries: seq<CompactEntry>) {
    forall x :: 0 <= x < |entries| ==> entries[x].objectIndex == NO_OBJECT
  }

  /** The outcome an entry must have: its object record, and whether its allocation is contradicted. */
  datatype Target = Target(record: Option<ObjectRecord>, contradicted: bool)

  ghost predicate TargetsOk(entries: seq<CompactEntry>, f: Facts, targets: seq<Target>)
    requires FactsOk(entries, f) && |entries| <= U32_MAX
  {
    && |targets| == |entries|
    && forall x :: 0 <= x < |entries| ==> targets[x] == Target(ObjectOf(entries, f, x), Contradicted(entries, f, x))
  }

  /** An entry before (`e0`) and after object resolution. */
  ghost predicate EntryResolved(e0: CompactEntry, target: Target, e: CompactEntry, objects: seq<ObjectRecord>) {
    && e == e0.(objectIndex := e.objectIndex, allocatedSizeKnown := e0.allocatedSizeKnown && !target.contradicted)
    && (match target.record
        case None => e.objectIndex == NO_OBJECT
        case Some(o) => e.objectIndex < |objects| && e.objectIndex != NO_OBJECT && objects[e.objectIndex] == o)
  }

  /** Two entries share an object record exactly if they are aliases of one identity. */
  ghost predicate SameIdentity(f: Facts, x: nat, y: nat)
    requires x < |f.ident| && y < |f.ident|
  {
    f.ident[x].Some? && f.ident[x] == f.ident[y]
  }

  /** Every object record has an owning entry; entries sharing a record are aliases of the owner. */
  ghost predicate Owned(entries: seq<CompactEntry>, f: Facts, objects: seq<ObjectRecord>, owner: seq<nat>)
    requires |f.ident| == |entries|
  {
    && |owner| == |objects| <= |entries|
    && (forall k :: 0 <= k < |owner| ==> owner[k] < |entries| && entries[owner[k]].objectIndex == k)
    && (forall x, y :: 0 <= x < |entries| && 0 <= y < |entries| && SameIdentity(f, x, y) ==>
          entries[x].objectIndex == entries[y].objectIndex)
    && forall x :: 0 <= x < |entries| && entries[x].objectIndex != NO_OBJECT ==>
         entries[x].objectIndex < |objects|
         && (x == owner[entries[x].objectIndex] || SameIdentity(f, x, owner[entries[x].objectIndex]))
  }

  /** There is always room for one more object number below the "no object" mark. */
  lemma OwnerRoom(entries: seq<CompactEntry>, f: Facts, objects: seq<ObjectRecord>, owner: seq<nat>, x: nat)
    requires |f.ident| == |entries| <= U32_MAX && x < |entries|
    requires Owned(entries, f, objects, owner) && entries[x].objectIndex == NO_OBJECT
    ensures |objects| < |entries|
  {
    var more := owner + [x];
    forall i, j | 0 <= i < j < |more|
      ensures more[i] != more[j]
    {
      assert entries[owner[i]].objectIndex == i;
    }
    InjectiveLength(more, |entries|);
  }

  lemma SharingIsIdentity(entries: seq<CompactEntry>, f: Facts, objects: seq<ObjectRecord>, owner: seq<nat>, x: nat, y: nat)
    requires |f.ident| == |entries| && x < |entries| && y < |entries| && x != y
    requires Owned(entries, f, objects, owner)
    requires entries[x].objectIndex == entries[y].objectIndex != NO_OBJECT
    ensures SameIdentity(f, x, y)
  {
    var o := owner[entries[x].objectIndex];
    assert x == o || SameIdentity(f, x, o);
    assert y == o || SameIdentity(f, y, o);
  }

  // ---- The loops

  lemma LocatedAt(entries: seq<CompactEntry>, isDense: bool, idToIdx: map<u32, u32>, s: seq<nat>, ids: seq<u32>, i: nat)
    requires Located(entries, isDense, idToIdx) && forall j :: 0 <= j < |s| ==> s[j] < |entries|
    requires ids == IdsAt(entries, s) && i < |s|
    ensures EntryIndex(isDense, idToIdx, ids[i]) == s[i]
  {
    assert ids[i] == entries[s[i]].id;
  }

  /** All aliases of an identity with contradicting allocations become unknown. */
  method MarkUnknown(entries: seq<CompactEntry>, ids: seq<u32>, isDense: bool, idToIdx: map<u32, u32>, ghost s: seq<nat>)
    returns (marked: seq<CompactEntry>)
    requires Located(entries, isDense, idToIdx) && forall i :: 0 <= i < |s| ==> s[i] < |entries|
    requires ids == IdsAt(entries, s)
    ensures |marked| == |entries|
    ensures forall x :: 0 <= x < |entries| ==>
      marked[x] == if x in s then entries[x].(allocatedSizeKnown := false) else entries[x]
  {
    marked := entries;
    for i := 0 to |ids|
      invariant |marked| == |entries|
      invariant forall x :: 0 <= x < |entries| ==>
        marked[x] == if x in s[..i] then entries[x].(allocatedSizeKnown := false) else entries[x]
    {
      LocatedAt(entries, isDense, idToIdx, s, ids, i);
      var eIdx := EntryIndex(isDense, idToIdx, ids[i]);
      marked := marked[eIdx := marked[eIdx].(allocatedSizeKnown := false)];
      assert s[..i + 1] == s[..i] + [s[i]];
    }
    assert s[..|ids|] == s;
  }

  method AssignObject(entries: seq<CompactEntry>, ids: seq<u32>, objIdx: u32, isDense: bool, idToIdx: map<u32, u32>, ghost s: seq<nat>)
    returns (updated: seq<CompactEntry>)
    requires Located(entries, isDense, idToIdx) && forall i :: 0 <= i < |s| ==> s[i] < |entries|
    requires ids == IdsAt(entries, s)
    ensures |updated| == |entries|
    ensures forall x :: 0 <= x < |entries| ==>
      updated[x] == if x in s then entries[x].(objectIndex := objIdx) else entries[x]
  {
    updated := entries;
    for i := 0 to |ids|
      invariant |updated| == |entries|
      invariant forall x :: 0 <= x < |entries| ==>
        updated[x] == if x in s[..i] then entries[x].(objectIndex := objIdx) else entries[x]
    {
      LocatedAt(entries, isDense, idToIdx, s, ids, i);
      var eIdx := EntryIndex(isDense, idToIdx, ids[i]);
      updated := updated[eIdx := updated[eIdx].(objectIndex := objIdx)];
      assert s[..i + 1] == s[..i] + [s[i]];
    }
    assert s[..|ids|] == s;
  }

  /** The link and allocation evidence of one identity. */
  method GatherEvidence(entries: seq<CompactEntry>, ids: seq<u32>, isDense: bool, idToIdx: map<u32, u32>,
                        fileLinkCounts: map<u32, ValueKnowledge>, ghost s: seq<nat>, ghost link: seq<ValueKnowledge>)
    returns (links: seq<ValueKnowledge>, allocs: seq<Option<u64>>)
    requires Located(entries, isDense, idToIdx) && |link| == |entries|
    requires forall i :: 0 <= i < |s| ==> s[i] < |entries|
    requires forall i :: 0 <= i < |s| ==> LinkFor(fileLinkCounts, entries[s[i]].id) == link[s[i]]
    requires ids == IdsAt(entries, s)
    ensures links == LinksAt(link, s) && allocs == AllocsAt(entries, s)
  {
    links, allocs := [], [];
    for i := 0 to |ids|
      invariant |links| == |allocs| == i
      invariant forall j :: 0 <= j < i ==> links[j] == link[s[j]] && allocs[j] == entries[s[j]].allocatedSize
    {
      LocatedAt(entries, isDense, idToIdx, s, ids, i);
      links := links + [LinkFor(fileLinkCounts, ids[i])];
      allocs := allocs + [entries[EntryIndex(isDense, idToIdx, ids[i])].allocatedSize];
    }
  }

  /** The state between two iterations: `done` says which entries are already resolved. */
  ghost predicate Partial(entries0: seq<CompactEntry>, f: Facts, targets: seq<Target>,
                          entries: seq<CompactEntry>, objects: seq<ObjectRecord>, owner: seq<nat>, done: seq<bool>)
  {
    && |f.ident| == |targets| == |entries| == |entries0| == |done| <= U32_MAX
    && Owned(entries, f, objects, owner)
    && forall x :: 0 <= x < |entries| ==>
         && entries0[x].objectIndex == NO_OBJECT
         && if done[x] then EntryResolved(entries0[x], targets[x], entries[x], objects) else entries[x] == entries0[x]
  }

  ghost function Attached(e0: CompactEntry, target: Target, k: u32): CompactEntry {
    e0.(objectIndex := k, allocatedSizeKnown := e0.allocatedSizeKnown && !target.contradicted)
  }

  /** Resolving the class of entries `s` (all aliases of one identity, or one entry alone) with one new record. */
  lemma PartialStep(entries0: seq<CompactEntry>, f: Facts, targets: seq<Target>, entries: seq<CompactEntry>,
                    objects: seq<ObjectRecord>, owner: seq<nat>, done: seq<bool>,
                    s: seq<nat>, o: ObjectRecord, entries': seq<CompactEntry>, done': seq<bool>)
    requires Partial(entries0, f, targets, entries, objects, owner, done)
    requires s != [] && s[0] < |entries| && forall x :: x in s ==>
      x < |entries| && !done[x] && targets[x].record == Some(o) && (x == s[0] || SameIdentity(f, x, s[0]))
    requires forall x, y :: 0 <= x < |entries| && 0 <= y < |entries| && SameIdentity(f, x, y) ==> (x in s <==> y in s)
    requires |entries'| == |done'| == |entries|
    requires forall x :: 0 <= x < |entries| ==>
      && entries'[x] == (if x in s then Attached(entries0[x], targets[x], |objects|) else entries[x])
      && done'[x] == (done[x] || x in s)
    ensures |objects| < |entries|
    ensures Partial(entries0, f, targets, entries', objects + [o], owner + [s[0]], done')
  {
    assert s[0] in s;
    OwnerRoom(entries, f, objects, owner, s[0]);
    OwnedStep(entries, f, objects, owner, s, o, entries');
  }

  lemma OwnedStep(entries: seq<CompactEntry>, f: Facts, objects: seq<ObjectRecord>, owner: seq<nat>,
                  s: seq<nat>, o: ObjectRecord, entries': seq<CompactEntry>)
    requires |f.ident| == |entries| == |entries'| <= U32_MAX && Owned(entries, f, objects, owner)
    requires |objects| < |entries|
    requires s != [] && s[0] < |entries| && forall x :: x in s ==>
      x < |entries| && entries[x].objectIndex == NO_OBJECT && (x == s[0] || SameIdentity(f, x, s[0]))
    requires forall x, y :: 0 <= x < |entries| && 0 <= y < |entries| && SameIdentity(f, x, y) ==> (x in s <==> y in s)
    requires forall x :: 0 <= x < |entries| ==>
      entries'[x].objectIndex == (if x in s then |objects| else entries[x].objectIndex)
    ensures Owned(entries', f, objects + [o], owner + [s[0]])
  {
    var owner' := owner + [s[0]];
    assert s[0] in s;
    forall k | 0 <= k < |owner'|
      ensures owner'[k] < |entries'| && entries'[owner'[k]].objectIndex == k
    {
      if k < |owner| {
        assert entries[owner[k]].objectIndex == k;
      }
    }
  }

  /** The entries resolved while the identities in `left` remain. */
  ghost function DoneIdentities(f: Facts, left: set<ObjectIdentity>): (r: seq<bool>)
    ensures |r| == |f.ident|
    ensures forall x :: 0 <= x < |r| ==> (r[x] <==> f.ident[x].Some? && f.ident[x].value !in left)
  {
    seq(|f.ident|, x requires 0 <= x < |f.ident| => f.ident[x].Some? && f.ident[x].value !in left)
  }

  /** The distinct identities among `ids` whose external references are indeterminate. */
  ghost function IndeterminateAmong(entries: seq<CompactEntry>, f: Facts, ids: set<ObjectIdentity>): set<ObjectIdentity>
    requires FactsOk(entries, f)
  {
    set oid | oid in ids && StatusOf(IdentityLinks(entries, f, oid)) == Indeterminate
  }

  /** The record of one identity, from the evidence of all its aliases. */
  method IdentityRecord(entries: seq<CompactEntry>, oid: ObjectIdentity, ids: seq<u32>, isDense: bool, idToIdx: map<u32, u32>,
                        fileLinkCounts: map<u32, ValueKnowledge>, ghost entries0: seq<CompactEntry>, ghost f: Facts)
    returns (record: ObjectRecord, allocConflict: bool)
    requires FactsOk(entries0, f) && |entries0| <= U32_MAX && |entries| == |entries0|
    requires Located(entries, isDense, idToIdx) && ids == IdsAt(entries, Aliases(f.ident, oid, |entries0|))
    requires forall x :: 0 <= x < |entries0| && f.ident[x] == Some(oid) ==>
      entries[x] == entries0[x] && LinkFor(fileLinkCounts, entries0[x].id) == f.link[x]
    ensures record == IdentityObject(entries0, f, oid)
    ensures allocConflict <==> AllocConflict(IdentityAllocs(entries0, f, oid))
  {
    ghost var s := Aliases(f.ident, oid, |entries0|);
    AliasesMeaning(f.ident, oid, |entries0|);
    assert forall i :: 0 <= i < |s| ==> s[i] in s;
    var links, allocs := GatherEvidence(entries, ids, isDense, idToIdx, fileLinkCounts, s, f.link);
    assert links == IdentityLinks(entries0, f, oid);
    assert allocs == IdentityAllocs(entries0, f, oid);
    var resolvedLink, linkConflict := ResolveLinks(links);
    var status := if linkConflict then InconsistentEvidence else Derive(resolvedLink, |ids|);
    var minAlloc;
    minAlloc, allocConflict := ResolveAllocation(allocs);
    record := ObjectRecord(Some(oid), |ids|, resolvedLink, status, minAlloc.GetOr(0));
  }

  /** The next state after `oid` has been resolved with `record` and attached to its aliases `s`. */
  lemma IdentityStep(entries0: seq<CompactEntry>, f: Facts, targets: seq<Target>, entries: seq<CompactEntry>,
                     objects: seq<ObjectRecord>, owner: seq<nat>, left: set<ObjectIdentity>, oid: ObjectIdentity,
                     entries': seq<CompactEntry>)
    requires FactsOk(entries0, f) && |entries0| <= U32_MAX && TargetsOk(entries0, f, targets)
    requires Partial(entries0, f, targets, entries, objects, owner, DoneIdentities(f, left)) && oid in left
    requires Aliases(f.ident, oid, |entries0|) != [] && |entries'| == |entries|
    requires forall x :: 0 <= x < |entries| ==>
      entries'[x] == (if f.ident[x] == Some(oid) then Attached(entries0[x], targets[x], |objects|) else entries[x])
    ensures Partial(entries0, f, targets, entries', objects + [IdentityObject(entries0, f, oid)],
                    owner + [Aliases(f.ident, oid, |entries0|)[0]], DoneIdentities(f, left - {oid}))
  {
    var s := Aliases(f.ident, oid, |entries0|);
    AliasesMeaning(f.ident, oid, |entries0|);
    assert s[0] in s;
    PartialStep(entries0, f, targets, entries, objects, owner, DoneIdentities(f, left), s,
                IdentityObject(entries0, f, oid), entries', DoneIdentities(f, left - {oid}));
  }

  /** Attach the new record number `k` to all aliases of `oid`, after marking contradicted ones unknown. */
  method AttachIdentity(entries: seq<CompactEntry>, oid: ObjectIdentity, ids: seq<u32>, k: u32, allocConflict: bool,
                        isDense: bool, idToIdx: map<u32, u32>, ghost ident: seq<Option<ObjectIdentity>>)
    returns (entries': seq<CompactEntry>)
    requires Located(entries, isDense, idToIdx) && |ident| == |entries|
    requires ids == IdsAt(entries, Aliases(ident, oid, |entries|))
    ensures |entries'| == |entries|
    ensures forall x :: 0 <= x < |entries| ==>
      entries'[x] == (if ident[x] == Some(oid) then Attached(entries[x], Target(None, allocConflict), k) else entries[x])
  {
    ghost var s := Aliases(ident, oid, |entries|);
    AliasesMeaning(ident, oid, |entries|);
    entries' := entries;
    if allocConflict {
      entries' := MarkUnknown(entries', ids, isDense, idToIdx, s);
    }
    assert Located(entries', isDense, idToIdx) && IdsAt(entries', s) == ids;
    entries' := AssignObject(entries', ids, k, isDense, idToIdx, s);
  }

  /** Ids never change, so lookups and alias lists of the unresolved identities stay what they were. */
  lemma PartialLookup(entries0: seq<CompactEntry>, f: Facts, targets: seq<Target>, entries: seq<CompactEntry>,
                      objects: seq<ObjectRecord>, owner: seq<nat>, done: seq<bool>, oid: ObjectIdentity,
                      isDense: bool, idToIdx: map<u32, u32>)
    requires Partial(entries0, f, targets, entries, objects, owner, done) && Located(entries0, isDense, idToIdx)
    ensures Located(entries, isDense, idToIdx)
    ensures IdsAt(entries, Aliases(f.ident, oid, |entries0|)) == IdsAt(entries0, Aliases(f.ident, oid, |entries0|))
  {
    assert forall x :: 0 <= x < |entries| ==> entries[x].id == entries0[x].id;
  }

  /** One iteration: the record of identity `oid`, attached to all its aliases. */
  method ResolveIdentity(entries0: seq<CompactEntry>, entries: seq<CompactEntry>, objects: seq<ObjectRecord>, oid: ObjectIdentity,
                         ids: seq<u32>, isDense: bool, idToIdx: map<u32, u32>, fileLinkCounts: map<u32, ValueKnowledge>,
                         ghost f: Facts, ghost targets: seq<Target>, ghost owner: seq<nat>, ghost left: set<ObjectIdentity>)
    returns (entries': seq<CompactEntry>, record: ObjectRecord, allocConflict: bool)
    requires FactsOk(entries0, f) && |entries0| <= U32_MAX && TargetsOk(entries0, f, targets)
    requires Partial(entries0, f, targets, entries, objects, owner, DoneIdentities(f, left))
    requires Located(entries0, isDense, idToIdx) && oid in left
    requires AliasListOk(entries0, f, oid, ids) && LinkMapOk(entries0, f, fileLinkCounts)
    ensures record == IdentityObject(entries0, f, oid)
    ensures allocConflict <==> AllocConflict(IdentityAllocs(entries0, f, oid))
    ensures Partial(entries0, f, targets, entries', objects + [record], owner + [Aliases(f.ident, oid, |entries0|)[0]],
                    DoneIdentities(f, left - {oid}))
  {
    PartialLookup(entries0, f, targets, entries, objects, owner, DoneIdentities(f, left), oid, isDense, idToIdx);
    record, allocConflict := IdentityRecord(entries, oid, ids, isDense, idToIdx, fileLinkCounts, entries0, f);
    entries' := AttachIdentity(entries, oid, ids, |objects|, allocConflict, isDense, idToIdx, f.ident);
    IdentityStep(entries0, f, targets, entries, objects, owner, left, oid, entries');
  }

  /** The identities among `ids` whose aliases contradict each other's allocation. */
  ghost function ContradictedAmong(entries: seq<CompactEntry>, f: Facts, ids: set<ObjectIdentity>): set<ObjectIdentity>
    requires FactsOk(entries, f)
  {
    set oid | oid in ids && AllocConflict(IdentityAllocs(entries, f, oid))
  }

  /** The counters after the identities `ids`: how many are indeterminate, whether any is contradicted. */
  ghost predicate CountsOk(entries: seq<CompactEntry>, f: Facts, ids: set<ObjectIdentity>, indeterminate: nat, contradiction: bool)
    requires FactsOk(entries, f)
  {
    && indeterminate == |IndeterminateAmong(entries, f, ids)|
    && (contradiction <==> ContradictedAmong(entries, f, ids) != {})
  }

  /** How many of the identities listed in `order` belong to `s`. */
  ghost function CountIn(order: seq<ObjectIdentity>, s: set<ObjectIdentity>): nat {
    if order == [] then 0
    else CountIn(order[..|order| - 1], s) + (if order[|order| - 1] in s then 1 else 0)
  }

  ghost function Elements(order: seq<ObjectIdentity>): set<ObjectIdentity> {
    if order == [] then {} else Elements(order[..|order| - 1]) + {order[|order| - 1]}
  }

  lemma {:induction false} ElementsMember(order: seq<ObjectIdentity>, oid: ObjectIdentity)
    ensures oid in Elements(order) <==> oid in order
    decreases |order|
  {
    if order != [] {
      ElementsMember(order[..|order| - 1], oid);
      assert order == order[..|order| - 1] + [order[|order| - 1]];
    }
  }

  /** Counting along any order of distinct identities counts the set. */
  lemma {:induction false} CountInIsCardinality(order: seq<ObjectIdentity>, s: set<ObjectIdentity>)
    requires forall i, j :: 0 <= i < j < |order| ==> order[i] != order[j]
    ensures CountIn(order, s) == |s * Elements(order)|
    decreases |order|
  {
    if order == [] {
      assert s * Elements(order) == {};
    } else {
      var r, oid := order[..|order| - 1], order[|order| - 1];
      CountInIsCardinality(r, s);
      ElementsMember(r, oid);
      if oid in s {
        assert s * Elements(order) == s * Elements(r) + {oid};
      } else {
        assert s * Elements(order) == s * Elements(r);
      }
    }
  }

  method ResolveIdentities(entries0: seq<CompactEntry>, isDense: bool, idToIdx: map<u32, u32>,
                           fileObjectMap: map<ObjectIdentity, seq<u32>>, fileLinkCounts: map<u32, ValueKnowledge>,
                           ghost f: Facts, ghost targets: seq<Target>)
    returns (entries: seq<CompactEntry>, objects: seq<ObjectRecord>, indeterminate: nat, contradiction: bool, ghost owner: seq<nat>)
    requires FactsOk(entries0, f) && |entries0| <= U32_MAX && Pristine(entries0) && Located(entries0, isDense, idToIdx)
    requires FileMapOk(entries0, f, fileObjectMap) && LinkMapOk(entries0, f, fileLinkCounts) && TargetsOk(entries0, f, targets)
    ensures Partial(entries0, f, targets, entries, objects, owner, DoneIdentities(f, {}))
    ensures CountsOk(entries0, f, fileObjectMap.Keys, indeterminate, contradiction)
  {
    ghost var order;
    ghost var s := IndeterminateAmong(entries0, f, fileObjectMap.Keys);
    ghost var c := ContradictedAmong(entries0, f, fileObjectMap.Keys);
    entries, objects, indeterminate, contradiction, owner, order :=
      IterateIdentities(entries0, isDense, idToIdx, fileObjectMap, fileLinkCounts, f, targets, s, c);
    CountInIsCardinality(order, s);
    forall oid | oid in s
      ensures oid in Elements(order)
    {
      ElementsMember(order, oid);
    }
    assert s * Elements(order) == s;
  }

  ghost predicate ClassOk(entries: seq<CompactEntry>, f: Facts, oid: ObjectIdentity, undecided: bool, contradicted: bool)
    requires FactsOk(entries, f)
  {
    && (undecided <==> StatusOf(IdentityLinks(entries, f, oid)) == Indeterminate)
    && (contradicted <==> AllocConflict(IdentityAllocs(entries, f, oid)))
  }

  /** The counters after the identities of `order`, which are those of `keys` outside `left`, each once. */
  ghost predicate TallyOk(order: seq<ObjectIdentity>, keys: set<ObjectIdentity>, left: set<ObjectIdentity>,
                          undecided: set<ObjectIdentity>, contradicted: set<ObjectIdentity>, indeterminate: nat, contradiction: bool)
  {
    && left <= keys
    && (forall oid :: oid in order <==> oid in keys && oid !in left)
    && (forall i, j :: 0 <= i < j < |order| ==> order[i] != order[j])
    && indeterminate == CountIn(order, undecided)
    && (contradiction <==> exists oid :: oid in order && oid in contradicted)
  }

  lemma TallyStep(order: seq<ObjectIdentity>, keys: set<ObjectIdentity>, left: set<ObjectIdentity>,
                  undecided: set<ObjectIdentity>, contradicted: set<ObjectIdentity>, indeterminate: nat, contradiction: bool,
                  oid: ObjectIdentity)
    requires TallyOk(order, keys, left, undecided, contradicted, indeterminate, contradiction) && oid in left
    ensures TallyOk(order + [oid], keys, left - {oid}, undecided, contradicted,
                    indeterminate + (if oid in undecided then 1 else 0), contradiction || oid in contradicted)
  {
    assert (order + [oid])[..|order|] == order;
  }

  /** The loop over the identity map, in whatever order the map yields its keys. */
  method IterateIdentities(entries0: seq<CompactEntry>, isDense: bool, idToIdx: map<u32, u32>,
                           fileObjectMap: map<ObjectIdentity, seq<u32>>, fileLinkCounts: map<u32, ValueKnowledge>,
                           ghost f: Facts, ghost targets: seq<Target>,
                           ghost undecided: set<ObjectIdentity>, ghost contradicted: set<ObjectIdentity>)
    returns (entries: seq<CompactEntry>, objects: seq<ObjectRecord>, indeterminate: nat, contradiction: bool,
             ghost owner: seq<nat>, ghost order: seq<ObjectIdentity>)
    requires FactsOk(entries0, f) && |entries0| <= U32_MAX && Pristine(entries0) && Located(entries0, isDense, idToIdx)
    requires FileMapOk(entries0, f, fileObjectMap) && LinkMapOk(entries0, f, fileLinkCounts) && TargetsOk(entries0, f, targets)
    requires forall oid :: oid in fileObjectMap ==> ClassOk(entries0, f, oid, oid in undecided, oid in contradicted)
    ensures Partial(entries0, f, targets, entries, objects, owner, DoneIdentities(f, {}))
    ensures forall oid :: oid in order <==> oid in fileObjectMap
    ensures forall i, j :: 0 <= i < j < |order| ==> order[i] != order[j]
    ensures indeterminate == CountIn(order, undecided)
    ensures contradiction <==> exists oid :: oid in order && oid in contradicted
    ensures |objects| == |fileObjectMap|
  {
    entries, objects, owner, order, indeterminate, contradiction := entries0, [], [], [], 0, false;
    var left := fileObjectMap.Keys;
    assert Partial(entries0, f, targets, entries, objects, owner, DoneIdentities(f, left));
    hide Partial, Aliases, IdentityLinks, IdentityAllocs, Located, LinkMapOk, TargetsOk;
    assert |left| == |fileObjectMap|;
    while left != {}
      invariant left <= fileObjectMap.Keys
      invariant Partial(entries0, f, targets, entries, objects, owner, DoneIdentities(f, left))
      invariant TallyOk(order, fileObjectMap.Keys, left, undecided, contradicted, indeterminate, contradiction)
      invariant |objects| + |left| == |fileObjectMap|
      decreases left
    {
      var oid :| oid in left;
      assert ClassOk(entries0, f, oid, oid in undecided, oid in contradicted);
      var record, allocConflict;
      entries, record, allocConflict := ResolveIdentity(entries0, entries, objects, oid, fileObjectMap[oid], isDense, idToIdx,
                                                        fileLinkCounts, f, targets, owner, left);
      TallyStep(order, fileObjectMap.Keys, left, undecided, contradicted, indeterminate, contradiction, oid);
      if record.status == Indeterminate {
        indeterminate := indeterminate + 1;
      }
      if allocConflict {
        contradiction := true;
      }
      objects, owner, order := objects + [record], owner + [Aliases(f.ident, oid, |entries0|)[0]], order + [oid];
      left := left - {oid};
    }
  }

  lemma SingleStep(entries0: seq<CompactEntry>, f: Facts, targets: seq<Target>, entries: seq<CompactEntry>,
                   objects: seq<ObjectRecord>, owner: seq<nat>, done: seq<bool>, x: nat, o: ObjectRecord)
    requires Partial(entries0, f, targets, entries, objects, owner, done)
    requires x < |entries| && !done[x] && targets[x] == Target(Some(o), false) && f.ident[x].None?
    ensures |objects| < |entries|
    ensures Partial(entries0, f, targets, entries[x := entries[x].(objectIndex := |objects|)],
                    objects + [o], owner + [x], done[x := true])
  {
    PartialStep(entries0, f, targets, entries, objects, owner, done, [x], o,
                entries[x := entries[x].(objectIndex := |objects|)], done[x := true]);
  }

  /** While the directory ids in `left` remain: identified files and the other directories with identity are done. */
  ghost predicate DirProgress(entries0: seq<CompactEntry>, f: Facts, left: set<u32>, done: seq<bool>)
    requires FactsOk(entries0, f)
  {
    && |done| == |entries0|
    && forall x :: 0 <= x < |done| ==>
         (done[x] <==> f.ident[x].Some? || (f.dirIdent[x].Some? && entries0[x].id !in left))
  }

  lemma DirProgressStep(entries0: seq<CompactEntry>, f: Facts, isDense: bool, idToIdx: map<u32, u32>,
                        dirObjectIds: map<u32, ObjectIdentity>, left: set<u32>, done: seq<bool>, id: u32)
    returns (x: nat)
    requires FactsOk(entries0, f) && Located(entries0, isDense, idToIdx) && DirMapOk(entries0, f, dirObjectIds)
    requires DirProgress(entries0, f, left, done) && id in left && left <= dirObjectIds.Keys
    ensures x < |entries0| && entries0[x].id == id && EntryIndex(isDense, idToIdx, id) == x
    ensures f.dirIdent[x] == Some(dirObjectIds[id]) && !done[x] && f.ident[x].None?
    ensures DirProgress(entries0, f, left - {id}, done[x := true])
  {
    x :| x < |entries0| && entries0[x].id == id && f.dirIdent[x].Some?;
    assert EntryIndex(isDense, idToIdx, entries0[x].id) == x;
    forall y | 0 <= y < |entries0| && entries0[y].id == id
      ensures y == x
    {
      assert EntryIndex(isDense, idToIdx, entries0[y].id) == y;
    }
  }

  method ResolveDirectories(entries0: seq<CompactEntry>, entries: seq<CompactEntry>, objects: seq<ObjectRecord>,
                            isDense: bool, idToIdx: map<u32, u32>, dirObjectIds: map<u32, ObjectIdentity>,
                            ghost f: Facts, ghost targets: seq<Target>, ghost owner: seq<nat>, ghost done: seq<bool>)
    returns (entries': seq<CompactEntry>, objects': seq<ObjectRecord>, ghost owner': seq<nat>, ghost done': seq<bool>)
    requires FactsOk(entries0, f) && |entries0| <= U32_MAX && Located(entries0, isDense, idToIdx)
    requires DirMapOk(entries0, f, dirObjectIds) && TargetsOk(entries0, f, targets)
    requires Partial(entries0, f, targets, entries, objects, owner, done)
    requires DirProgress(entries0, f, dirObjectIds.Keys, done)
    ensures Partial(entries0, f, targets, entries', objects', owner', done')
    ensures DirProgress(entries0, f, {}, done')
    ensures objects <= objects' && |objects'| == |objects| + |dirObjectIds|
  {
    entries', objects', owner', done' := entries, objects, owner, done;
    var left := dirObjectIds.Keys;
    while left != {}
      invariant left <= dirObjectIds.Keys
      invariant Partial(entries0, f, targets, entries', objects', owner', done')
      invariant DirProgress(entries0, f, left, done')
      invariant objects <= objects' && |objects'| + |left| == |objects| + |dirObjectIds|
      decreases left
    {
      var id :| id in left;
      ghost var x := DirProgressStep(entries0, f, isDense, idToIdx, dirObjectIds, left, done', id);
      var eIdx := EntryIndex(isDense, idToIdx, id);
      var record := ObjectRecord(Some(dirObjectIds[id]), 1, NotApplicable, StatusNotApplicable, 0);
      assert targets[x] == Target(Some(record), false);
      SingleStep(entries0, f, targets, entries', objects', owner', done', x, record);
      entries' := entries'[eIdx := entries'[eIdx].(objectIndex := |objects'|)];
      objects', owner', done' := objects' + [record], owner' + [x], done'[x := true];
      left := left - {id};
    }
  }

  /** Files below index `i` without identity are settled too. */
  ghost predicate FileProgress(entries0: seq<CompactEntry>, f: Facts, i: nat, done: seq<bool>)
    requires FactsOk(entries0, f)
  {
    && |done| == |entries0|
    && forall x :: 0 <= x < |done| ==>
         (done[x] <==> f.ident[x].Some? || f.dirIdent[x].Some? || (x < i && f.link[x] != NotObserved && entries0[x].kind == EntryKind.File))
  }

  /** The identity-less files with indeterminate external references among the first `i` entries. */
  ghost function IndeterminateLoose(entries: seq<CompactEntry>, f: Facts, i: nat): nat
    requires FactsOk(entries, f) && i <= |entries|
  {
    if i == 0 then 0
    else IndeterminateLoose(entries, f, i - 1)
         + LooseCount(entries[i - 1], f, i - 1)
  }

  ghost function LooseCount(e: CompactEntry, f: Facts, i: nat): nat
    requires i < |f.ident| && i < |f.link|
  {
    if e.kind == EntryKind.File && f.ident[i].None? && Derive(f.link[i], 1) == Indeterminate then 1 else 0
  }

  /** One iteration over the entries: an identity-less file gets a record of its own if its link count was asked for. */
  method ResolveLooseFile(entries0: seq<CompactEntry>, entries: seq<CompactEntry>, objects: seq<ObjectRecord>, i: nat,
                          fileLinkCounts: map<u32, ValueKnowledge>,
                          ghost f: Facts, ghost targets: seq<Target>, ghost owner: seq<nat>, ghost done: seq<bool>)
    returns (entries': seq<CompactEntry>, objects': seq<ObjectRecord>, undecided: nat, ghost owner': seq<nat>, ghost done': seq<bool>)
    requires FactsOk(entries0, f) && |entries0| <= U32_MAX && i < |entries0|
    requires LinkMapOk(entries0, f, fileLinkCounts) && TargetsOk(entries0, f, targets)
    requires Partial(entries0, f, targets, entries, objects, owner, done) && FileProgress(entries0, f, i, done)
    ensures Partial(entries0, f, targets, entries', objects', owner', done') && FileProgress(entries0, f, i + 1, done')
    ensures undecided == LooseCount(entries0[i], f, i)
  {
    entries', objects', owner', done', undecided := entries, objects, owner, done, 0;
    LooseView(entries0, f, targets, entries, objects, owner, done, fileLinkCounts, i);
    var entry := entries[i];
    if entry.kind == EntryKind.File && entry.objectIndex == NO_OBJECT {
      var link := LinkFor(fileLinkCounts, entry.id);
      var status := Derive(link, 1);
      if status == Indeterminate {
        undecided := 1;
      }
      if link != NotObserved {
        var record := ObjectRecord(None, 1, link, status, entry.allocatedSize.GetOr(0));
        SingleStep(entries0, f, targets, entries, objects, owner, done, i, record);
        entries' := entries[i := entry.(objectIndex := |objects|)];
        objects', owner', done' := objects + [record], owner + [i], done[i := true];
      }
    }
  }

  method ResolveLooseFiles(entries0: seq<CompactEntry>, entries: seq<CompactEntry>, objects: seq<ObjectRecord>, indeterminate: nat,
                           fileLinkCounts: map<u32, ValueKnowledge>,
                           ghost f: Facts, ghost targets: seq<Target>, ghost owner: seq<nat>, ghost done: seq<bool>)
    returns (entries': seq<CompactEntry>, objects': seq<ObjectRecord>, indeterminate': nat, ghost owner': seq<nat>, ghost done': seq<bool>)
    requires FactsOk(entries0, f) && |entries0| <= U32_MAX
    requires LinkMapOk(entries0, f, fileLinkCounts) && TargetsOk(entries0, f, targets)
    requires Partial(entries0, f, targets, entries, objects, owner, done) && FileProgress(entries0, f, 0, done)
    ensures Partial(entries0, f, targets, entries', objects', owner', done')
    ensures FileProgress(entries0, f, |entries0|, done')
    ensures indeterminate' == indeterminate + IndeterminateLoose(entries0, f, |entries0|)
  {
    entries', objects', indeterminate', owner', done' := entries, objects, indeterminate, owner, done;
    for i := 0 to |entries|
      invariant Partial(entries0, f, targets, entries', objects', owner', done')
      invariant FileProgress(entries0, f, i, done')
      invariant indeterminate' == indeterminate + IndeterminateLoose(entries0, f, i)
    {
      var undecided;
      entries', objects', undecided, owner', done' :=
        ResolveLooseFile(entries0, entries', objects', i, fileLinkCounts, f, targets, owner', done');
      indeterminate' := indeterminate' + undecided;
    }
  }

  /** What the loop over identity-less files finds at index `i`. */
  lemma LooseView(entries0: seq<CompactEntry>, f: Facts, targets: seq<Target>, entries: seq<CompactEntry>,
                  objects: seq<ObjectRecord>, owner: seq<nat>, done: seq<bool>, fileLinkCounts: map<u32, ValueKnowledge>, i: nat)
    requires FactsOk(entries0, f) && |entries0| <= U32_MAX && i < |entries0|
    requires LinkMapOk(entries0, f, fileLinkCounts) && TargetsOk(entries0, f, targets)
    requires Partial(entries0, f, targets, entries, objects, owner, done) && FileProgress(entries0, f, i, done)
    ensures entries[i].kind == entries0[i].kind
    ensures entries[i].kind == EntryKind.File ==> (entries[i].objectIndex == NO_OBJECT <==> f.ident[i].None?)
    ensures entries[i].kind == EntryKind.File && f.ident[i].None? ==>
      var link := LinkFor(fileLinkCounts, entries[i].id);
      && entries[i] == entries0[i] && link == f.link[i] && !done[i]
      && (link != NotObserved ==>
            targets[i] == Target(Some(ObjectRecord(None, 1, link, Derive(link, 1), entries[i].allocatedSize.GetOr(0))), false))
  {
    assert targets[i] == Target(ObjectOf(entries0, f, i), Contradicted(entries0, f, i));
  }

  /** Everything object resolution guarantees. */
  ghost predicate Resolution(entries0: seq<CompactEntry>, f: Facts, entries: seq<CompactEntry>, objects: seq<ObjectRecord>, owner: seq<nat>)
    requires FactsOk(entries0, f) && |entries0| <= U32_MAX
  {
    && |entries| == |entries0|
    && Owned(entries, f, objects, owner)
    && forall x :: 0 <= x < |entries| ==>
         EntryResolved(entries0[x], Target(ObjectOf(entries0, f, x), Contradicted(entries0, f, x)), entries[x], objects)
  }

  method ResolveObjects(entries0: seq<CompactEntry>, isDense: bool, idToIdx: map<u32, u32>,
                        fileObjectMap: map<ObjectIdentity, seq<u32>>, dirObjectIds: map<u32, ObjectIdentity>,
                        fileLinkCounts: map<u32, ValueKnowledge>, ghost f: Facts)
    returns (entries: seq<CompactEntry>, objects: seq<ObjectRecord>, indeterminate: nat, contradiction: bool, ghost owner: seq<nat>)
    requires FactsOk(entries0, f) && |entries0| <= U32_MAX && Pristine(entries0) && Located(entries0, isDense, idToIdx)
    requires FileMapOk(entries0, f, fileObjectMap) && DirMapOk(entries0, f, dirObjectIds) && LinkMapOk(entries0, f, fileLinkCounts)
    ensures Resolution(entries0, f, entries, objects, owner)
    ensures indeterminate == |IndeterminateAmong(entries0, f, fileObjectMap.Keys)| + IndeterminateLoose(entries0, f, |entries0|)
    ensures contradiction <==> ContradictedAmong(entries0, f, fileObjectMap.Keys) != {}
  {
    ghost var targets := seq(|entries0|, x requires 0 <= x < |entries0| =>
      Target(ObjectOf(entries0, f, x), Contradicted(entries0, f, x)));
    entries, objects, indeterminate, contradiction, owner :=
      ResolveIdentities(entries0, isDense, idToIdx, fileObjectMap, fileLinkCounts, f, targets);
    ghost var done := DoneIdentities(f, {});
    entries, objects, owner, done :=
      ResolveDirectories(entries0, entries, objects, isDense, idToIdx, dirObjectIds, f, targets, owner, done);
    entries, objects, indeterminate, owner, done :=
      ResolveLooseFiles(entries0, entries, objects, indeterminate, fileLinkCounts, f, targets, owner, done);
  }
}
