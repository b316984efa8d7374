/** What the aggregates of a settled scan mean, and `compute_aggregates` as a whole. */
module Accounting {
  import opened Words
  import opened Observation
  import opened Graph
  import opened Forest
  import opened Distinct
  import opened Evidence
  import opened Objects
  import opened Tarjan
  import opened Aggregates

  // ---- Specification, from the ingested entries and the facts of the stream alone

  /** The bytes an entry stands for: a directory's own allocation; for a file with identity the smallest
      known allocation over all its aliases in the target; for other files their own allocation. */
  ghost function Bytes(entries: seq<CompactEntry>, f: Facts, self: seq<u64>, x: nat): u64
    requires FactsOk(entries, f) && |self| == |entries| && x < |entries|
  {
    match entries[x].kind
    case Directory => self[x]
    case Special => 0
    case File => if f.ident[x].Some? then Weight(entries, f, f.ident[x].value) else entries[x].allocatedSize.GetOr(0)
  }

  /** Another alias of the same object lies in the subtree of `d` at a smaller index. */
  ghost predicate Counted(par: seq<nat>, f: Facts, d: nat, x: nat)
    requires IsTree(par) && |f.ident| == |par| && x < |par|
  {
    exists y :: 0 <= y < x && Under(par, d, y) && SameIdentity(f, y, x)
  }

  /** The unique bytes of the scope `d`: every entry of its subtree, each distinct object once. */
  ghost function UniqueBytes(par: seq<nat>, entries: seq<CompactEntry>, f: Facts, self: seq<u64>, d: nat, m: nat): nat
    requires IsTree(par) && FactsOk(entries, f) && |self| == |entries| == |par| && m <= |par|
    decreases m
  {
    if m == 0 then 0
    else UniqueBytes(par, entries, f, self, d, m - 1)
         + (if Under(par, d, m - 1) && !Counted(par, f, d, m - 1) then Bytes(entries, f, self, m - 1) else 0)
  }

  ghost function UniqueOf(par: seq<nat>, entries: seq<CompactEntry>, f: Facts, self: seq<u64>, d: nat): nat
    requires IsTree(par) && FactsOk(entries, f) && |self| == |entries| == |par|
  {
    UniqueBytes(par, entries, f, self, d, |par|)
  }

  /** The bytes referenced in the scope `d`: every alias counts. */
  ghost function ReferencedOf(par: seq<nat>, entries: seq<CompactEntry>, self: seq<u64>, d: nat): int
    requires IsTree(par) && |self| == |entries| == |par|
  {
    SumUnder(par, d, AllocSeq(entries, self), |par|)
  }

  ghost function LogicalSumOf(par: seq<nat>, entries: seq<CompactEntry>, d: nat): int
    requires IsTree(par) && |entries| == |par|
  {
    SumUnder(par, d, LogicalSeq(entries), |par|)
  }

  /** No special object, no file of unknown allocation and no alias of contradicted allocation in the scope. */
  ghost predicate ScopeKnown(par: seq<nat>, entries: seq<CompactEntry>, f: Facts, d: nat)
    requires IsTree(par) && FactsOk(entries, f) && |entries| == |par|
  {
    forall x :: 0 <= x < |par| && Under(par, d, x) ==>
      entries[x].kind != EntryKind.Special
      && (entries[x].kind == EntryKind.File ==> entries[x].allocatedSize.Some? && !Contradicted(entries, f, x))
  }

  /** An entry as ingestion leaves it. */
  predicate Ingested(e: CompactEntry) {
    && e.objectIndex == NO_OBJECT && LeafOk(e)
    && match e.kind
       case Directory => e.allocatedSizeKnown && e.logicalSize.None?
       case File => e.allocatedSizeKnown == e.allocatedSize.Some?
       case Special => !e.allocatedSizeKnown && e.allocatedSize.None?
  }

  ghost predicate AllIngested(entries: seq<CompactEntry>) {
    forall x :: 0 <= x < |entries| ==> Ingested(entries[x])
  }

  // ---- From object records back to identities

  ghost function WeightSeq(objects: seq<ObjectRecord>): (r: seq<int>)
    ensures |r| == |objects| && forall k :: 0 <= k < |r| ==> r[k] == objects[k].weight
  {
    seq(|objects|, k requires 0 <= k < |objects| => objects[k].weight)
  }

  lemma ResolvedEntry(entries0: seq<CompactEntry>, f: Facts, base: seq<CompactEntry>, objects: seq<ObjectRecord>, owner: seq<nat>, self: seq<u64>, x: nat)
    requires FactsOk(entries0, f) && |entries0| <= U32_MAX && |self| == |entries0| && x < |entries0|
    requires AllIngested(entries0) && Resolution(entries0, f, base, objects, owner)
    ensures AliasOf(base[x]) < |objects|
    ensures AmountOf(base[x], objects, self[x]) == Bytes(entries0, f, self, x)
    ensures AllocOf(base[x], self[x]) == AllocOf(entries0[x], self[x])
    ensures LogicalOf(base[x]) == LogicalOf(entries0[x])
    ensures LeafOk(base[x]) && base[x].kind == entries0[x].kind
    ensures f.ident[x].Some? ==> IsAlias(base[x])
    ensures base[x].kind != EntryKind.Directory ==>
      (KnownLeaf(base[x]) <==> entries0[x].kind == EntryKind.File && entries0[x].allocatedSize.Some? && !Contradicted(entries0, f, x))
    ensures base[x] == entries0[x].(objectIndex := base[x].objectIndex, allocatedSizeKnown := base[x].allocatedSizeKnown)
  {
    assert EntryResolved(entries0[x], Target(ObjectOf(entries0, f, x), Contradicted(entries0, f, x)), base[x], objects);
    assert Ingested(entries0[x]);
  }

  lemma AliasesAreIdentities(entries0: seq<CompactEntry>, f: Facts, base: seq<CompactEntry>, objects: seq<ObjectRecord>, owner: seq<nat>, self: seq<u64>, x: nat, y: nat)
    requires FactsOk(entries0, f) && |entries0| <= U32_MAX && |self| == |entries0| && x < |entries0| && y < |entries0| && x != y
    requires AllIngested(entries0) && Resolution(entries0, f, base, objects, owner)
    ensures SameObject(AliasSeq(base), y, x) <==> SameIdentity(f, y, x)
  {
    ResolvedEntry(entries0, f, base, objects, owner, self, x);
    ResolvedEntry(entries0, f, base, objects, owner, self, y);
    if SameObject(AliasSeq(base), y, x) {
      SharingIsIdentity(base, f, objects, owner, y, x);
    }
  }

  /** The counting specification in terms of object numbers and in terms of identities. */
  lemma {:induction false} DistinctSumIsUniqueBytes(par: seq<nat>, entries0: seq<CompactEntry>, f: Facts, self: seq<u64>,
                                                    obj: seq<int>, g: seq<int>, d: nat, m: nat)
    requires IsTree(par) && FactsOk(entries0, f) && |self| == |entries0| == |par| == |obj| == |g| && m <= |par|
    requires forall x, y :: 0 <= y < x < |par| ==> (SameObject(obj, y, x) <==> SameIdentity(f, y, x))
    requires forall x :: 0 <= x < |par| ==> g[x] == Bytes(entries0, f, self, x)
    ensures DistinctSum(par, obj, g, d, m) == UniqueBytes(par, entries0, f, self, d, m)
    decreases m
  {
    if m > 0 {
      DistinctSumIsUniqueBytes(par, entries0, f, self, obj, g, d, m - 1);
      assert MetBefore(par, obj, d, m - 1) <==> Counted(par, f, d, m - 1) by {
        if MetBefore(par, obj, d, m - 1) {
          var y :| 0 <= y < m - 1 && Under(par, d, y) && SameObject(obj, y, m - 1);
          assert SameIdentity(f, y, m - 1);
        }
        if Counted(par, f, d, m - 1) {
          var y :| 0 <= y < m - 1 && Under(par, d, y) && SameIdentity(f, y, m - 1);
          assert SameObject(obj, y, m - 1);
        }
      }
    }
  }

  // ---- Consequences of the specification

  /** The smallest index with the identity of `x`. */
  ghost function FirstAlias(ident: seq<Option<ObjectIdentity>>, x: nat, m: nat): (r: nat)
    requires m <= x < |ident| && forall y :: 0 <= y < m ==> ident[y] != ident[x]
    ensures m <= r <= x && ident[r] == ident[x] && forall y :: 0 <= y < r ==> ident[y] != ident[x]
    decreases x - m
  {
    if ident[m] == ident[x] then m else FirstAlias(ident, x, m + 1)
  }

  /** Identities numbered by their first entry. */
  ghost function Numbering(f: Facts): (r: seq<int>)
    ensures |r| == |f.ident|
    ensures forall x :: 0 <= x < |r| ==> r[x] == if f.ident[x].Some? then FirstAlias(f.ident, x, 0) else -1
  {
    seq(|f.ident|, x requires 0 <= x < |f.ident| => if f.ident[x].Some? then FirstAlias(f.ident, x, 0) else -1)
  }

  ghost function BytesSeq(entries: seq<CompactEntry>, f: Facts, self: seq<u64>): (r: seq<int>)
    requires FactsOk(entries, f) && |self| == |entries|
    ensures |r| == |entries| && forall x :: 0 <= x < |r| ==> r[x] == Bytes(entries, f, self, x)
  {
    seq(|entries|, x requires 0 <= x < |entries| => Bytes(entries, f, self, x))
  }

  ghost function LeaderWeights(entries: seq<CompactEntry>, f: Facts): (r: seq<int>)
    requires FactsOk(entries, f)
    ensures |r| == |entries|
    ensures forall k :: 0 <= k < |r| ==>
      r[k] == if f.ident[k].Some? && FirstAlias(f.ident, k, 0) == k then Weight(entries, f, f.ident[k].value) else 0
  {
    seq(|entries|, k requires 0 <= k < |entries| =>
      if f.ident[k].Some? && FirstAlias(f.ident, k, 0) == k then Weight(entries, f, f.ident[k].value) else 0)
  }

  lemma NumberingMeaning(f: Facts, x: nat, y: nat)
    requires x < |f.ident| && y < |f.ident|
    ensures SameObject(Numbering(f), y, x) <==> SameIdentity(f, y, x)
  {
    if SameIdentity(f, y, x) {
      var a, b := FirstAlias(f.ident, x, 0), FirstAlias(f.ident, y, 0);
      assert f.ident[a] == f.ident[b] == f.ident[x];
      assert !(a < b) && !(b < a);
    }
  }

  lemma NumberingWeighted(entries: seq<CompactEntry>, f: Facts, self: seq<u64>)
    requires FactsOk(entries, f) && |self| == |entries|
    ensures Weighted(Numbering(f), BytesSeq(entries, f, self), LeaderWeights(entries, f))
  {
    forall x | 0 <= x < |entries| && f.ident[x].Some?
      ensures FirstAlias(f.ident, FirstAlias(f.ident, x, 0), 0) == FirstAlias(f.ident, x, 0)
    {
      var a := FirstAlias(f.ident, x, 0);
      var b := FirstAlias(f.ident, a, 0);
      assert !(b < a);
    }
  }

  lemma UniqueIsDistinct(par: seq<nat>, entries: seq<CompactEntry>, f: Facts, self: seq<u64>, d: nat)
    requires IsTree(par) && FactsOk(entries, f) && |self| == |entries| == |par|
    ensures UniqueOf(par, entries, f, self, d) == DistinctSum(par, Numbering(f), BytesSeq(entries, f, self), d, |par|)
  {
    forall x, y | 0 <= y < x < |par|
      ensures SameObject(Numbering(f), y, x) <==> SameIdentity(f, y, x)
    {
      NumberingMeaning(f, x, y);
    }
    DistinctSumIsUniqueBytes(par, entries, f, self, Numbering(f), BytesSeq(entries, f, self), d, |par|);
  }

  /** A scope never has fewer unique bytes than a scope inside it. */
  lemma UniqueMonotone(par: seq<nat>, entries: seq<CompactEntry>, f: Facts, self: seq<u64>, d: nat, e: nat)
    requires IsTree(par) && FactsOk(entries, f) && |self| == |entries| == |par| && d < |par| && Under(par, e, d)
    ensures UniqueOf(par, entries, f, self, d) <= UniqueOf(par, entries, f, self, e)
  {
    UniqueIsDistinct(par, entries, f, self, d);
    UniqueIsDistinct(par, entries, f, self, e);
    NumberingWeighted(entries, f, self);
    DistinctMonotone(par, Numbering(f), BytesSeq(entries, f, self), LeaderWeights(entries, f), d, e);
  }

  // ---- When unique bytes stay within referenced bytes

  /** Whenever an object met in the scope has a known weight at all, some alias in the scope reports an allocation. */
  ghost predicate ReportedWithin(par: seq<nat>, entries: seq<CompactEntry>, f: Facts, d: nat)
    requires IsTree(par) && FactsOk(entries, f) && |entries| == |par|
  {
    forall x, z :: 0 <= x < |par| && 0 <= z < |par| && Under(par, d, x) && SameIdentity(f, z, x) && entries[z].allocatedSize.Some? ==>
      ReportedAlias(par, entries, f, d, x)
  }

  ghost predicate ReportedAlias(par: seq<nat>, entries: seq<CompactEntry>, f: Facts, d: nat, x: nat)
    requires IsTree(par) && FactsOk(entries, f) && |entries| == |par| && x < |par|
  {
    exists y :: 0 <= y < |par| && Under(par, d, y) && SameIdentity(f, y, x) && entries[y].allocatedSize.Some?
  }

  /** The weight of an identity is the allocation of one alias and at most that of every other. */
  lemma WeightIsLeast(entries: seq<CompactEntry>, f: Facts, k: nat)
    requires FactsOk(entries, f) && k < |entries| && f.ident[k].Some?
    ensures forall x :: 0 <= x < |entries| && SameIdentity(f, x, k) && entries[x].allocatedSize.Some? ==>
      Weight(entries, f, f.ident[k].value) <= entries[x].allocatedSize.value
    ensures (exists x :: 0 <= x < |entries| && SameIdentity(f, x, k) && entries[x].allocatedSize == Some(Weight(entries, f, f.ident[k].value)))
         || (Weight(entries, f, f.ident[k].value) == 0
             && forall x :: 0 <= x < |entries| && SameIdentity(f, x, k) ==> entries[x].allocatedSize.None?)
  {
    var oid := f.ident[k].value;
    var s, allocs := Aliases(f.ident, oid, |entries|), IdentityAllocs(entries, f, oid);
    AliasesMeaning(f.ident, oid, |entries|);
    MinKnownMeaning(allocs);
    forall x | 0 <= x < |entries| && SameIdentity(f, x, k)
      ensures entries[x].allocatedSize in allocs
    {
      var i :| 0 <= i < |s| && s[i] == x;
      assert allocs[i] == entries[x].allocatedSize;
    }
    if MinKnown(allocs).Some? {
      var i :| 0 <= i < |allocs| && allocs[i] == MinKnown(allocs);
      assert s[i] in s && entries[s[i]].allocatedSize == Some(Weight(entries, f, oid));
    }
  }

  lemma PresentIsCovered(par: seq<nat>, entries: seq<CompactEntry>, f: Facts, self: seq<u64>, d: nat, o: nat)
    requires IsTree(par) && FactsOk(entries, f) && |self| == |entries| == |par| && d < |par| && o < |par|
    requires ReportedWithin(par, entries, f, d)
    requires Present(par, Numbering(f), Upto(|par|), d, o) && LeaderWeights(entries, f)[o] != 0
    ensures Covers(par, Numbering(f), LeaderWeights(entries, f), AllocSeq(entries, self), d, o)
  {
    var w, num := LeaderWeights(entries, f), Numbering(f);
    PresentMembers(par, num, Upto(|par|), d, o);
    var x :| x in Upto(|par|) && Under(par, d, x) && num[x] == o;
    assert SameIdentity(f, o, x);
    WeightIsLeast(entries, f, o);
    var z :| 0 <= z < |entries| && SameIdentity(f, z, o) && entries[z].allocatedSize.Some?;
    assert SameIdentity(f, z, x) && ReportedAlias(par, entries, f, d, x);
    var y :| 0 <= y < |par| && Under(par, d, y) && SameIdentity(f, y, x) && entries[y].allocatedSize.Some?;
    NumberingMeaning(f, x, y);
    assert SameIdentity(f, y, o) && num[y] == o;
  }

  /** Then the scope's unique bytes are at most its referenced bytes. */
  lemma UniqueWithinReferenced(par: seq<nat>, entries: seq<CompactEntry>, f: Facts, self: seq<u64>, d: nat)
    requires IsTree(par) && FactsOk(entries, f) && |self| == |entries| == |par| && d < |par|
    requires ReportedWithin(par, entries, f, d)
    ensures UniqueOf(par, entries, f, self, d) <= ReferencedOf(par, entries, self, d)
  {
    var w, alloc, num := LeaderWeights(entries, f), AllocSeq(entries, self), Numbering(f);
    UniqueIsDistinct(par, entries, f, self, d);
    NumberingWeighted(entries, f, self);
    forall o | 0 <= o < |w| && Present(par, num, Upto(|par|), d, o) && w[o] != 0
      ensures Covers(par, num, w, alloc, d, o)
    {
      PresentIsCovered(par, entries, f, self, d, o);
    }
    DistinctCovered(par, num, BytesSeq(entries, f, self), w, alloc, d);
  }

  /** The same entries with other sizes: what is known stays known, what is not stays unknown. */
  ghost predicate Resized(entries: seq<CompactEntry>, other: seq<CompactEntry>) {
    && |other| == |entries|
    && forall x :: 0 <= x < |entries| ==>
         other[x].kind == entries[x].kind && other[x].allocatedSize.Some? == entries[x].allocatedSize.Some?
  }

  /** One byte for every known alias of `oid`, nothing for anything else. */
  ghost function OneByte(entries: seq<CompactEntry>, f: Facts, oid: ObjectIdentity): (r: seq<CompactEntry>)
    requires FactsOk(entries, f)
    ensures Resized(entries, r)
    ensures forall x :: 0 <= x < |r| && r[x].allocatedSize.Some? ==> r[x].allocatedSize.value == if f.ident[x] == Some(oid) then 1 else 0
  {
    seq(|entries|, x requires 0 <= x < |entries| =>
      if entries[x].allocatedSize.None? then entries[x]
      else entries[x].(allocatedSize := Some(if f.ident[x] == Some(oid) then 1 else 0)))
  }

  /** The first alias in the scope is counted in full. */
  lemma {:induction false} UniqueCountsFirst(par: seq<nat>, entries: seq<CompactEntry>, f: Facts, self: seq<u64>, d: nat, x: nat, m: nat)
    requires IsTree(par) && FactsOk(entries, f) && |self| == |entries| == |par| && x < m <= |par|
    requires Under(par, d, x) && !Counted(par, f, d, x)
    ensures Bytes(entries, f, self, x) <= UniqueBytes(par, entries, f, self, d, m)
    decreases m
  {
    if x < m - 1 {
      UniqueCountsFirst(par, entries, f, self, d, x, m - 1);
    }
  }

  /** The first alias of the object of `x` in the scope. */
  ghost function FirstWithin(par: seq<nat>, f: Facts, d: nat, x: nat): (r: nat)
    requires IsTree(par) && |f.ident| == |par| && x < |par| && Under(par, d, x) && f.ident[x].Some?
    ensures r <= x && Under(par, d, r) && SameIdentity(f, r, x) && !Counted(par, f, d, r)
    decreases x
  {
    if y: nat :| y < x && Under(par, d, y) && SameIdentity(f, y, x) then FirstWithin(par, f, d, y) else x
  }

  /** Otherwise some sizes break the bound: the object weighs one byte, every other known size is zero. */
  lemma UnreportedExceeds(par: seq<nat>, entries: seq<CompactEntry>, f: Facts, d: nat)
    returns (other: seq<CompactEntry>, self: seq<u64>)
    requires IsTree(par) && FactsOk(entries, f) && |entries| == |par| && d < |par|
    requires !ReportedWithin(par, entries, f, d)
    ensures Resized(entries, other) && |self| == |par| && FactsOk(other, f)
    ensures ReferencedOf(par, other, self, d) < UniqueOf(par, other, f, self, d)
  {
    var x, z :| 0 <= x < |par| && 0 <= z < |par| && Under(par, d, x) && SameIdentity(f, z, x) && entries[z].allocatedSize.Some?
      && !ReportedAlias(par, entries, f, d, x);
    other, self := OneByte(entries, f, f.ident[x].value), seq(|par|, _ => 0);
    forall y | 0 <= y < |par|
      ensures !Under(par, d, y) || AllocSeq(other, self)[y] == 0
    {
      assert Under(par, d, y) && SameIdentity(f, y, x) ==> entries[y].allocatedSize.None?;
    }
    SumUnderNothing(par, d, AllocSeq(other, self), |par|);
    var first := FirstWithin(par, f, d, x);
    UniqueCountsFirst(par, other, f, self, d, first, |par|);
    WeightIsLeast(other, f, first);
    assert SameIdentity(f, z, first) && other[z].allocatedSize.Some?;
  }

  lemma {:induction false} SumUnderNothing(par: seq<nat>, d: nat, f: seq<int>, m: nat)
    requires IsTree(par) && |f| == |par| && m <= |par|
    requires forall x :: 0 <= x < |par| ==> !Under(par, d, x) || f[x] == 0
    ensures SumUnder(par, d, f, m) == 0
    decreases m
  {
    if m > 0 {
      SumUnderNothing(par, d, f, m - 1);
    }
  }

  /** Unique bytes stay within referenced bytes in the scope `d`, whatever the sizes are, exactly if every
      object of known weight met in the scope is also reported there. */
  lemma UniqueWithinReferencedExactly(par: seq<nat>, entries: seq<CompactEntry>, f: Facts, d: nat)
    requires IsTree(par) && FactsOk(entries, f) && |entries| == |par| && d < |par|
    ensures ReportedWithin(par, entries, f, d)
       <==> forall other: seq<CompactEntry>, self: seq<u64> :: Resized(entries, other) && |self| == |par| ==>
              FactsOk(other, f) && UniqueOf(par, other, f, self, d) <= ReferencedOf(par, other, self, d)
  {
    if ReportedWithin(par, entries, f, d) {
      forall other: seq<CompactEntry>, self: seq<u64> | Resized(entries, other) && |self| == |par|
        ensures FactsOk(other, f) && UniqueOf(par, other, f, self, d) <= ReferencedOf(par, other, self, d)
      {
        assert ReportedWithin(par, other, f, d) by {
          forall x, z | 0 <= x < |par| && 0 <= z < |par| && Under(par, d, x) && SameIdentity(f, z, x) && other[z].allocatedSize.Some?
            ensures ReportedAlias(par, other, f, d, x)
          {
            assert ReportedAlias(par, entries, f, d, x);
          }
        }
        UniqueWithinReferenced(par, other, f, self, d);
      }
    } else {
      var other, self := UnreportedExceeds(par, entries, f, d);
    }
  }

  /** At the scan target as a whole, unique bytes never exceed referenced bytes. */
  lemma UniqueCovered(par: seq<nat>, entries: seq<CompactEntry>, f: Facts, self: seq<u64>)
    requires IsTree(par) && FactsOk(entries, f) && |self| == |entries| == |par|
    ensures UniqueOf(par, entries, f, self, 0) <= ReferencedOf(par, entries, self, 0)
  {
    forall x, z | 0 <= x < |par| && 0 <= z < |par| && Under(par, 0, x) && SameIdentity(f, z, x) && entries[z].allocatedSize.Some?
      ensures ReportedAlias(par, entries, f, 0, x)
    {
      UnderRoot(par, z);
    }
    UniqueWithinReferenced(par, entries, f, self, 0);
  }

  /** In every scope, unique bytes stay within referenced bytes if every alias reports its allocation. */
  lemma UniqueAtMostReferenced(par: seq<nat>, entries: seq<CompactEntry>, f: Facts, self: seq<u64>, d: nat)
    requires IsTree(par) && FactsOk(entries, f) && |self| == |entries| == |par| && d < |par|
    requires forall x :: 0 <= x < |entries| && f.ident[x].Some? ==> entries[x].allocatedSize.Some?
    ensures UniqueOf(par, entries, f, self, d) <= ReferencedOf(par, entries, self, d)
  {
    UniqueWithinReferenced(par, entries, f, self, d);
  }
}
