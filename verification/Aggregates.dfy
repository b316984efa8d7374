/** Phases 3 and 4 of `compute_aggregates`: amounts on the leaves, then directory totals bottom-up
    along the post-order. */
module Aggregates {
  import opened Words
  import opened Graph
  import opened Forest
  import opened Distinct
  import opened Tarjan

  function Clamp(x: int): u64
    requires 0 <= x
  {
    Min(x, U64_MAX)
  }

  // ---- What each entry contributes

  function AliasOf(e: CompactEntry): int {
    if IsAlias(e) then e.objectIndex else -1
  }

  /** The self allocation of a directory, the weight of a file's object, or the file's own allocation. */
  function AmountOf(e: CompactEntry, objects: seq<ObjectRecord>, self: u64): u64
    requires AliasOf(e) < |objects|
  {
    match e.kind
    case Directory => self
    case Special => 0
    case File => if IsAlias(e) then objects[e.objectIndex].weight else e.allocatedSize.GetOr(0)
  }

  /** What an entry adds to the allocation referenced through it. */
  function AllocOf(e: CompactEntry, self: u64): u64 {
    match e.kind
    case Directory => self
    case Special => 0
    case File => e.allocatedSize.GetOr(0)
  }

  function LogicalOf(e: CompactEntry): u64 {
    if e.kind == EntryKind.File then e.logicalSize.GetOr(0) else 0
  }

  ghost predicate AliasesInRange(entries: seq<CompactEntry>, objects: seq<ObjectRecord>) {
    forall x :: 0 <= x < |entries| ==> AliasOf(entries[x]) < |objects|
  }

  ghost function AliasSeq(entries: seq<CompactEntry>): (r: seq<int>)
    ensures |r| == |entries| && forall x :: 0 <= x < |r| ==> r[x] == AliasOf(entries[x])
  {
    seq(|entries|, x requires 0 <= x < |entries| => AliasOf(entries[x]))
  }

  ghost function AmountSeq(entries: seq<CompactEntry>, objects: seq<ObjectRecord>, self: seq<u64>): (r: seq<int>)
    requires AliasesInRange(entries, objects) && |self| == |entries|
    ensures |r| == |entries| && forall x :: 0 <= x < |r| ==> r[x] == AmountOf(entries[x], objects, self[x])
  {
    seq(|entries|, x requires 0 <= x < |entries| => AmountOf(entries[x], objects, self[x]))
  }

  ghost function AllocSeq(entries: seq<CompactEntry>, self: seq<u64>): (r: seq<int>)
    requires |self| == |entries|
    ensures |r| == |entries| && forall x :: 0 <= x < |r| ==> r[x] == AllocOf(entries[x], self[x])
  {
    seq(|entries|, x requires 0 <= x < |entries| => AllocOf(entries[x], self[x]))
  }

  ghost function LogicalSeq(entries: seq<CompactEntry>): (r: seq<int>)
    ensures |r| == |entries| && forall x :: 0 <= x < |r| ==> r[x] == LogicalOf(entries[x])
  {
    seq(|entries|, x requires 0 <= x < |entries| => LogicalOf(entries[x]))
  }

  /** The allocation of a leaf is known and uncontradicted. */
  predicate KnownLeaf(e: CompactEntry) {
    e.allocatedSizeKnown && !(e.kind == EntryKind.File && e.allocatedSize.None?)
  }

  /** Nothing in the subtree of `d` is a special object, a file of unknown allocation, or a contradicted alias. */
  ghost predicate Complete(par: seq<nat>, entries: seq<CompactEntry>, d: nat)
    requires IsTree(par) && |entries| == |par|
  {
    forall x :: 0 <= x < |par| && Under(par, d, x) && entries[x].kind != EntryKind.Directory ==> KnownLeaf(entries[x])
  }

  /** The fields a leaf carries from ingestion. */
  predicate LeafOk(e: CompactEntry) {
    match e.kind
    case Directory => true
    case File => e.logicalSize.Some? && e.referenced == e.allocatedSize.GetOr(0) && e.knownSubtotal == e.referenced
    case Special => e.logicalSize.None? && e.referenced == 0 && e.knownSubtotal == 0
  }

  // ---- Totals over the children of one directory

  /** Clamping the summands of a saturating sum changes nothing. */
  lemma {:induction false} ClampedChildren(par: seq<nat>, p: nat, f: seq<int>, f': seq<int>, self: nat, m: nat)
    requires IsTree(par) && |f| == |f'| == |par| && m <= |par|
    requires forall x :: 0 <= x < |par| ==> 0 <= f[x]
    requires forall x :: 0 < x < |par| && par[x] == p ==> f'[x] == Clamp(f[x])
    ensures 0 <= SumChildren(par, p, f, m) && 0 <= SumChildren(par, p, f', m)
    ensures Clamp(self + SumChildren(par, p, f', m)) == Clamp(self + SumChildren(par, p, f, m))
    decreases m
  {
    if m > 0 {
      ClampedChildren(par, p, f, f', self, m - 1);
    }
  }

  ghost function ReferencedSeq(entries: seq<CompactEntry>): (r: seq<int>)
    ensures |r| == |entries| && forall x :: 0 <= x < |r| ==> r[x] == entries[x].referenced
  {
    seq(|entries|, x requires 0 <= x < |entries| => entries[x].referenced)
  }

  ghost function SubtotalSeq(entries: seq<CompactEntry>): (r: seq<int>)
    ensures |r| == |entries| && forall x :: 0 <= x < |r| ==> r[x] == entries[x].knownSubtotal
  {
    seq(|entries|, x requires 0 <= x < |entries| => entries[x].knownSubtotal)
  }

  ghost function UniqueSeq(entries: seq<CompactEntry>): (r: seq<int>)
    ensures |r| == |entries| && forall x :: 0 <= x < |r| ==> r[x] == entries[x].unique
  {
    seq(|entries|, x requires 0 <= x < |entries| => entries[x].unique)
  }

  ghost function SizeSeq(entries: seq<CompactEntry>): (r: seq<int>)
    ensures |r| == |entries| && forall x :: 0 <= x < |r| ==> r[x] == entries[x].logicalSize.GetOr(0)
  {
    seq(|entries|, x requires 0 <= x < |entries| => entries[x].logicalSize.GetOr(0))
  }

  /** The sums over the children of `p` below index `m`, saturating where the source saturates. */
  ghost predicate TotalsOk(par: seq<nat>, entries: seq<CompactEntry>, p: nat, self: u64, m: nat,
                           logical: u64, referenced: u64, subtotal: u64, unique: int, allKnown: bool)
    requires IsTree(par) && |entries| == |par| && m <= |par|
  {
    && 0 <= SumChildren(par, p, SizeSeq(entries), m) && logical == Clamp(SumChildren(par, p, SizeSeq(entries), m))
    && 0 <= SumChildren(par, p, ReferencedSeq(entries), m) && referenced == Clamp(self + SumChildren(par, p, ReferencedSeq(entries), m))
    && 0 <= SumChildren(par, p, SubtotalSeq(entries), m) && subtotal == Clamp(self + SumChildren(par, p, SubtotalSeq(entries), m))
    && 0 <= unique == SumChildren(par, p, UniqueSeq(entries), m) <= m * TWO_64
    && (allKnown <==> forall c :: 0 < c < m && par[c] == p ==> KnownLeaf(entries[c]))
  }

  lemma TotalsStart(par: seq<nat>, entries: seq<CompactEntry>, p: nat, self: u64)
    requires IsTree(par) && |entries| == |par|
    ensures TotalsOk(par, entries, p, self, 0, 0, self, self, 0, true)
  {
  }

  /** Advancing over indices that are not children of `p`. */
  lemma TotalsSkip(par: seq<nat>, entries: seq<CompactEntry>, p: nat, self: u64, m: nat, k: nat,
                   logical: u64, referenced: u64, subtotal: u64, unique: int, allKnown: bool)
    requires IsTree(par) && |entries| == |par| && m <= k <= |par|
    requires TotalsOk(par, entries, p, self, m, logical, referenced, subtotal, unique, allKnown)
    requires forall x :: m <= x < k && 0 < x ==> par[x] != p
    ensures TotalsOk(par, entries, p, self, k, logical, referenced, subtotal, unique, allKnown)
  {
    SumChildrenSkip(par, p, SizeSeq(entries), m, k);
    SumChildrenSkip(par, p, ReferencedSeq(entries), m, k);
    SumChildrenSkip(par, p, SubtotalSeq(entries), m, k);
    SumChildrenSkip(par, p, UniqueSeq(entries), m, k);
  }

  lemma TotalsAdd(par: seq<nat>, entries: seq<CompactEntry>, p: nat, self: u64, c: nat,
                  logical: u64, referenced: u64, subtotal: u64, unique: int, allKnown: bool)
    requires IsTree(par) && |entries| == |par| && 0 < c < |par| && par[c] == p
    requires TotalsOk(par, entries, p, self, c, logical, referenced, subtotal, unique, allKnown)
    ensures TotalsOk(par, entries, p, self, c + 1,
                     SatAdd(logical, entries[c].logicalSize.GetOr(0)), SatAdd(referenced, entries[c].referenced),
                     SatAdd(subtotal, entries[c].knownSubtotal), unique + entries[c].unique,
                     allKnown && KnownLeaf(entries[c]))
  {
  }

  /** Advancing to the next child `c` and over it. */
  lemma TotalsNext(par: seq<nat>, entries: seq<CompactEntry>, p: nat, self: u64, m: nat, c: nat,
                   logical: u64, referenced: u64, subtotal: u64, unique: int, allKnown: bool)
    requires IsTree(par) && |entries| == |par| <= NONE && m <= c && 0 < c < |par| && par[c] == p
    requires TotalsOk(par, entries, p, self, m, logical, referenced, subtotal, unique, allKnown)
    requires forall x :: m <= x < c && 0 < x ==> par[x] != p
    ensures TotalsOk(par, entries, p, self, c + 1,
                     SatAdd(logical, entries[c].logicalSize.GetOr(0)), SatAdd(referenced, entries[c].referenced),
                     SatAdd(subtotal, entries[c].knownSubtotal), unique + entries[c].unique,
                     allKnown && KnownLeaf(entries[c]))
    ensures unique + entries[c].unique <= I128_MAX
  {
    TotalsSkip(par, entries, p, self, m, c, logical, referenced, subtotal, unique, allKnown);
    TotalsAdd(par, entries, p, self, c, logical, referenced, subtotal, unique, allKnown);
  }

  /** `c` is the next child of `p` at or above index `m`, or absent. */
  ghost predicate NextChild(par: seq<nat>, p: nat, m: nat, c: nat)
    requires IsTree(par)
  {
    && m <= |par|
    && (c == NONE || (m <= c && 0 < c < |par| && par[c] == p))
    && forall x :: m <= x < |par| && 0 < x && par[x] == p ==> c <= x
  }

  lemma NextChildStart(par: seq<nat>, fc: seq<nat>, ns: seq<nat>, p: nat)
    requires Linked(par, fc, ns) && p < |par|
    ensures NextChild(par, p, 0, fc[p])
  {
    assert FirstChildOk(par, p, fc[p]);
  }

  lemma NextChildStep(par: seq<nat>, fc: seq<nat>, ns: seq<nat>, p: nat, m: nat, c: nat)
    requires Linked(par, fc, ns) && p < |par| && NextChild(par, p, m, c) && c != NONE
    ensures NextChild(par, p, c + 1, ns[c])
  {
    assert NextSiblingOk(par, c, ns[c]);
  }

  method ChildTotals(entries: seq<CompactEntry>, firstChild: seq<nat>, nextSibling: seq<nat>, idx: nat, selfAlloc: u64, ghost par: seq<nat>)
    returns (sumLogical: u64, sumReferenced: u64, sumKnownSubtotal: u64, childUniqueSum: int, allKnown: bool)
    requires Linked(par, firstChild, nextSibling) && |entries| == |par| && idx < |par|
    ensures TotalsOk(par, entries, idx, selfAlloc, |par|, sumLogical, sumReferenced, sumKnownSubtotal, childUniqueSum, allKnown)
  {
    sumLogical, sumReferenced, sumKnownSubtotal, childUniqueSum, allKnown := 0, selfAlloc, selfAlloc, 0, true;
    var c := firstChild[idx];
    ghost var m := 0;
    TotalsStart(par, entries, idx, selfAlloc);
    NextChildStart(par, firstChild, nextSibling, idx);
    while c != NONE
      invariant NextChild(par, idx, m, c)
      invariant TotalsOk(par, entries, idx, selfAlloc, m, sumLogical, sumReferenced, sumKnownSubtotal, childUniqueSum, allKnown)
      decreases |par| - m
    {
      TotalsNext(par, entries, idx, selfAlloc, m, c, sumLogical, sumReferenced, sumKnownSubtotal, childUniqueSum, allKnown);
      NextChildStep(par, firstChild, nextSibling, idx, m, c);
      var child := entries[c];
      sumLogical := SatAdd(sumLogical, child.logicalSize.GetOr(0));
      sumReferenced := SatAdd(sumReferenced, child.referenced);
      sumKnownSubtotal := SatAdd(sumKnownSubtotal, child.knownSubtotal);
      assert childUniqueSum + child.unique <= I128_MAX;
      childUniqueSum := childUniqueSum + child.unique;
      if !child.allocatedSizeKnown {
        allKnown := false;
      }
      if child.kind == EntryKind.File && child.allocatedSize.None? {
        allKnown := false;
      }
      m := c + 1;
      c := nextSibling[c];
    }
    TotalsSkip(par, entries, idx, selfAlloc, m, |par|, sumLogical, sumReferenced, sumKnownSubtotal, childUniqueSum, allKnown);
  }

  // ---- Bottom-up along the post-order

  /** The exact quantities behind the reported fields: per-entry contributions and, for unique
      bytes, the specification values `distinct`. */
  datatype Exact = Exact(logical: seq<int>, alloc: seq<int>, net: seq<int>, distinct: seq<int>)

  ghost predicate ExactOk(par: seq<nat>, base: seq<CompactEntry>, objects: seq<ObjectRecord>, self: seq<u64>, delta: seq<int>, q: Exact)
    requires IsTree(par)
  {
    && |base| == |self| == |delta| == |par| && AliasesInRange(base, objects)
    && q.logical == LogicalSeq(base) && q.alloc == AllocSeq(base, self)
    && |q.net| == |q.distinct| == |par|
    && (forall x :: 0 <= x < |par| ==> 0 <= q.logical[x] && 0 <= q.alloc[x])
    && (forall x :: 0 <= x < |par| ==> q.net[x] == AmountOf(base[x], objects, self[x]) + delta[x])
    && (forall x :: 0 <= x < |par| ==> SumUnder(par, x, q.net, |par|) == q.distinct[x])
    && (forall x :: 0 <= x < |par| ==> 0 <= q.distinct[x] <= q.distinct[0])
    && (forall x :: 0 <= x < |par| && base[x].kind != EntryKind.Directory ==>
          q.distinct[x] == AmountOf(base[x], objects, self[x]))
  }

  /** Only directories have children, and the leaves carry their ingested fields. */
  ghost predicate BaseOk(par: seq<nat>, base: seq<CompactEntry>)
    requires IsTree(par)
  {
    && |base| == |par|
    && (forall x :: 0 < x < |par| ==> base[par[x]].kind == EntryKind.Directory)
    && (forall x :: 0 <= x < |par| ==> LeafOk(base[x]))
  }

  /** Entry `e` carries the final values of entry `x`; unique bytes are cut off at 64 bits. */
  ghost predicate Final(par: seq<nat>, base: seq<CompactEntry>, q: Exact, x: nat, e: CompactEntry)
    requires IsTree(par) && |base| == |q.logical| == |q.alloc| == |q.distinct| == |par| && x < |par|
  {
    && 0 <= SumUnder(par, x, q.logical, |par|) && 0 <= SumUnder(par, x, q.alloc, |par|)
    && e.kind == base[x].kind
    && e.logicalSize.GetOr(0) == Clamp(SumUnder(par, x, q.logical, |par|))
    && e.referenced == Clamp(SumUnder(par, x, q.alloc, |par|))
    && e.knownSubtotal == e.referenced
    && (KnownLeaf(e) <==> Complete(par, base, x))
    && e.unique == q.distinct[x] % TWO_64
  }

  lemma {:induction false} SumUnderNonNegative(par: seq<nat>, d: nat, f: seq<int>, m: nat)
    requires IsTree(par) && |f| == |par| && m <= |par|
    requires forall x :: 0 <= x < m ==> 0 <= f[x]
    ensures 0 <= SumUnder(par, d, f, m)
    decreases m
  {
    if m > 0 {
      SumUnderNonNegative(par, d, f, m - 1);
    }
  }

  /** The subtree of a childless entry is the entry. */
  lemma ChildlessUnder(par: seq<nat>, d: nat, x: nat)
    requires IsTree(par) && d < |par| && x < |par|
    requires forall y :: 0 < y < |par| ==> par[y] != d
    ensures Under(par, d, x) <==> x == d
  {
    if Under(par, d, x) && x != d {
      var c := ChildAbove(par, d, x);
    }
  }

  lemma ChildlessSum(par: seq<nat>, d: nat, f: seq<int>)
    requires IsTree(par) && |f| == |par| && d < |par|
    requires forall y :: 0 < y < |par| ==> par[y] != d
    ensures SumUnder(par, d, f, |par|) == f[d]
  {
    BottomUp(par, d, f, f);
    SumChildrenSkip(par, d, f, 0, |par|);
  }

  function LeafResult(e: CompactEntry, objects: seq<ObjectRecord>, self: u64): CompactEntry
    requires AliasOf(e) < |objects|
  {
    e.(unique := AmountOf(e, objects, self))
  }

  lemma LeafIsFinal(par: seq<nat>, base: seq<CompactEntry>, objects: seq<ObjectRecord>, self: seq<u64>, delta: seq<int>, q: Exact, x: nat)
    requires IsTree(par) && BaseOk(par, base) && ExactOk(par, base, objects, self, delta, q)
    requires x < |par| && base[x].kind != EntryKind.Directory
    ensures Final(par, base, q, x, LeafResult(base[x], objects, self[x]))
  {
    assert forall y :: 0 < y < |par| ==> par[y] != x;
    ChildlessSum(par, x, q.logical);
    ChildlessSum(par, x, q.alloc);
    forall y | 0 <= y < |par|
      ensures Under(par, x, y) <==> y == x
    {
      ChildlessUnder(par, x, y);
    }
  }

  /** A directory is complete exactly if everything under each of its children is known. */
  lemma CompleteFromChildren(par: seq<nat>, base: seq<CompactEntry>, p: nat)
    requires IsTree(par) && |base| == |par| && p < |par| && base[p].kind == EntryKind.Directory
    ensures Complete(par, base, p) <==> forall c :: 0 < c < |par| && par[c] == p ==> Complete(par, base, c)
  {
    if Complete(par, base, p) {
      forall c | 0 < c < |par| && par[c] == p
        ensures Complete(par, base, c)
      {
        forall x | 0 <= x < |par| && Under(par, c, x)
          ensures Under(par, p, x)
        {
          assert Under(par, p, c);
          UnderTransitive(par, p, c, x);
        }
      }
    }
    if forall c :: 0 < c < |par| && par[c] == p ==> Complete(par, base, c) {
      forall x | 0 <= x < |par| && Under(par, p, x) && base[x].kind != EntryKind.Directory
        ensures KnownLeaf(base[x])
      {
        var c := ChildAbove(par, p, x);
      }
    }
  }

  ghost function SumSeq(par: seq<nat>, f: seq<int>): (r: seq<int>)
    requires IsTree(par) && |f| == |par|
    ensures |r| == |par| && forall x :: 0 <= x < |r| ==> r[x] == SumUnder(par, x, f, |par|)
  {
    seq(|par|, x requires 0 <= x < |par| => SumUnder(par, x, f, |par|))
  }

  /** A saturating total over final children is the clamped subtree sum. */
  lemma SaturatedTotal(par: seq<nat>, p: nat, f: seq<int>, reported: seq<int>, self: nat)
    requires IsTree(par) && |f| == |reported| == |par| && p < |par| && f[p] == self
    requires forall x :: 0 <= x < |par| ==> 0 <= f[x]
    requires forall c :: 0 < c < |par| && par[c] == p ==>
      0 <= SumUnder(par, c, f, |par|) && reported[c] == Clamp(SumUnder(par, c, f, |par|))
    ensures 0 <= SumUnder(par, p, f, |par|) && 0 <= SumChildren(par, p, reported, |par|)
    ensures Clamp(self + SumChildren(par, p, reported, |par|)) == Clamp(SumUnder(par, p, f, |par|))
  {
    var sums := SumSeq(par, f);
    forall x | 0 <= x < |par|
      ensures 0 <= sums[x]
    {
      SumUnderNonNegative(par, x, f, |par|);
    }
    ClampedChildren(par, p, sums, reported, self, |par|);
    BottomUp(par, p, f, sums);
  }

  /** The directory's record once its children's totals are known; `unique` truncates to 64 bits. */
  function DirectoryResult(e: CompactEntry, sumLogical: u64, sumReferenced: u64, sumKnownSubtotal: u64, allKnown: bool, net: int): CompactEntry {
    e.(logicalSize := Some(sumLogical),
       referenced := sumReferenced,
       knownSubtotal := sumKnownSubtotal,
       allocatedSize := Some(sumReferenced),
       allocatedSizeKnown := allKnown,
       unique := net % TWO_64)
  }

  /** The saturating totals of a directory whose children are final. */
  lemma DirectorySizes(par: seq<nat>, base: seq<CompactEntry>, q: Exact, entries: seq<CompactEntry>, p: nat, self: u64,
                       sumLogical: u64, sumReferenced: u64, sumKnownSubtotal: u64)
    requires IsTree(par) && |base| == |entries| == |q.logical| == |q.alloc| == |q.distinct| == |par| && p < |par|
    requires forall x :: 0 <= x < |par| ==> 0 <= q.logical[x] && 0 <= q.alloc[x]
    requires q.logical[p] == 0 && q.alloc[p] == self
    requires forall c :: 0 < c < |par| && par[c] == p ==> Final(par, base, q, c, entries[c])
    requires 0 <= SumChildren(par, p, SizeSeq(entries), |par|) && sumLogical == Clamp(SumChildren(par, p, SizeSeq(entries), |par|))
    requires 0 <= SumChildren(par, p, ReferencedSeq(entries), |par|)
    requires sumReferenced == Clamp(self + SumChildren(par, p, ReferencedSeq(entries), |par|))
    requires 0 <= SumChildren(par, p, SubtotalSeq(entries), |par|)
    requires sumKnownSubtotal == Clamp(self + SumChildren(par, p, SubtotalSeq(entries), |par|))
    ensures 0 <= SumUnder(par, p, q.logical, |par|) && sumLogical == Clamp(SumUnder(par, p, q.logical, |par|))
    ensures 0 <= SumUnder(par, p, q.alloc, |par|) && sumReferenced == sumKnownSubtotal == Clamp(SumUnder(par, p, q.alloc, |par|))
  {
    var sizes, referenced, subtotals := SizeSeq(entries), ReferencedSeq(entries), SubtotalSeq(entries);
    forall c | 0 < c < |par| && par[c] == p
      ensures 0 <= SumUnder(par, c, q.logical, |par|) && sizes[c] == Clamp(SumUnder(par, c, q.logical, |par|))
      ensures 0 <= SumUnder(par, c, q.alloc, |par|) && referenced[c] == subtotals[c] == Clamp(SumUnder(par, c, q.alloc, |par|))
    {
      assert Final(par, base, q, c, entries[c]);
    }
    SaturatedTotal(par, p, q.logical, sizes, 0);
    SaturatedTotal(par, p, q.alloc, referenced, self);
    SaturatedTotal(par, p, q.alloc, subtotals, self);
  }

  // ---- Unique bytes beyond 64 bits

  ghost function CarrySeq(f: seq<int>): (r: seq<int>)
    ensures |r| == |f| && forall x :: 0 <= x < |r| ==> r[x] == f[x] / TWO_64
  {
    seq(|f|, x requires 0 <= x < |f| => f[x] / TWO_64)
  }

  /** The carries beyond 64 bits that the children of `p` lose. */
  ghost function LostBelow(par: seq<nat>, f: seq<int>, p: nat): int
    requires IsTree(par) && |f| == |par|
  {
    TWO_64 * SumChildren(par, p, CarrySeq(f), |par|)
  }

  /** The sum that the source computes for `p` from its children's cut-off values does not go below zero. */
  ghost predicate Covered(par: seq<nat>, f: seq<int>, p: nat)
    requires IsTree(par) && |f| == |par| && p < |par|
  {
    LostBelow(par, f, p) <= f[p]
  }

  lemma {:induction false} CutOffChildren(par: seq<nat>, p: nat, f: seq<int>, low: seq<int>, m: nat)
    requires IsTree(par) && |f| == |low| == |par| && m <= |par|
    requires forall c :: 0 < c < |par| && par[c] == p ==> low[c] == f[c] % TWO_64
    ensures SumChildren(par, p, f, m) == SumChildren(par, p, low, m) + TWO_64 * SumChildren(par, p, CarrySeq(f), m)
    decreases m
  {
    if m > 0 {
      CutOffChildren(par, p, f, low, m - 1);
    }
  }

  /** Without overflow nothing is lost. */
  lemma {:induction false} NothingLost(par: seq<nat>, f: seq<int>, p: nat, m: nat)
    requires IsTree(par) && |f| == |par| && m <= |par|
    requires forall x :: 0 < x < |par| ==> 0 <= f[x] <= U64_MAX
    ensures SumChildren(par, p, CarrySeq(f), m) == 0
    decreases m
  {
    if m > 0 {
      NothingLost(par, f, p, m - 1);
    }
  }

  lemma DirectoryUnique(par: seq<nat>, base: seq<CompactEntry>, q: Exact, entries: seq<CompactEntry>, p: nat, childUniqueSum: int)
    requires IsTree(par) && |base| == |entries| == |q.logical| == |q.alloc| == |q.net| == |q.distinct| == |par| && p < |par|
    requires forall x :: 0 <= x < |par| ==> SumUnder(par, x, q.net, |par|) == q.distinct[x]
    requires forall c :: 0 < c < |par| && par[c] == p ==> Final(par, base, q, c, entries[c])
    requires childUniqueSum == SumChildren(par, p, UniqueSeq(entries), |par|)
    ensures childUniqueSum + q.net[p] == q.distinct[p] - LostBelow(par, q.distinct, p)
  {
    CutOffChildren(par, p, q.distinct, UniqueSeq(entries), |par|);
    BottomUp(par, p, q.net, q.distinct);
  }

  lemma LossIsCutOff(par: seq<nat>, f: seq<int>, p: nat)
    requires IsTree(par) && |f| == |par| && p < |par|
    ensures (f[p] - LostBelow(par, f, p)) % TWO_64 == f[p] % TWO_64
  {
    CutOff(f[p], SumChildren(par, p, CarrySeq(f), |par|));
  }

  lemma CutOff(x: int, k: int)
    ensures (x - TWO_64 * k) % TWO_64 == x % TWO_64
  {
  }

  lemma DirectoryKnown(par: seq<nat>, base: seq<CompactEntry>, q: Exact, entries: seq<CompactEntry>, p: nat, allKnown: bool)
    requires IsTree(par) && |base| == |entries| == |q.logical| == |q.alloc| == |q.distinct| == |par| && p < |par|
    requires base[p].kind == EntryKind.Directory
    requires forall c :: 0 < c < |par| && par[c] == p ==> Final(par, base, q, c, entries[c])
    requires allKnown <==> forall c :: 0 < c < |par| && par[c] == p ==> KnownLeaf(entries[c])
    ensures allKnown <==> Complete(par, base, p)
  {
    CompleteFromChildren(par, base, p);
  }

  lemma AssembleFinal(par: seq<nat>, base: seq<CompactEntry>, q: Exact, p: nat,
                      sumLogical: u64, sumReferenced: u64, sumKnownSubtotal: u64, allKnown: bool, net: int)
    requires IsTree(par) && |base| == |q.logical| == |q.alloc| == |q.distinct| == |par| && p < |par|
    requires base[p].kind == EntryKind.Directory
    requires 0 <= SumUnder(par, p, q.logical, |par|) && sumLogical == Clamp(SumUnder(par, p, q.logical, |par|))
    requires 0 <= SumUnder(par, p, q.alloc, |par|) && sumReferenced == sumKnownSubtotal == Clamp(SumUnder(par, p, q.alloc, |par|))
    requires allKnown <==> Complete(par, base, p)
    requires net % TWO_64 == q.distinct[p] % TWO_64
    ensures Final(par, base, q, p, DirectoryResult(base[p], sumLogical, sumReferenced, sumKnownSubtotal, allKnown, net))
    ensures SameExceptTotals(base[p], DirectoryResult(base[p], sumLogical, sumReferenced, sumKnownSubtotal, allKnown, net))
  {
  }

  lemma DirectoryIsFinal(par: seq<nat>, base: seq<CompactEntry>, objects: seq<ObjectRecord>, self: seq<u64>, delta: seq<int>, q: Exact,
                         entries: seq<CompactEntry>, p: nat,
                         sumLogical: u64, sumReferenced: u64, sumKnownSubtotal: u64, childUniqueSum: int, allKnown: bool, net: int, e: CompactEntry)
    requires IsTree(par) && ExactOk(par, base, objects, self, delta, q) && |entries| == |par|
    requires p < |par| && base[p].kind == EntryKind.Directory
    requires forall c :: 0 < c < |par| && par[c] == p ==> Final(par, base, q, c, entries[c])
    requires TotalsOk(par, entries, p, self[p], |par|, sumLogical, sumReferenced, sumKnownSubtotal, childUniqueSum, allKnown)
    requires net == childUniqueSum + delta[p] + self[p]
    requires e == DirectoryResult(base[p], sumLogical, sumReferenced, sumKnownSubtotal, allKnown, net)
    ensures net == q.distinct[p] - LostBelow(par, q.distinct, p)
    ensures Final(par, base, q, p, e) && SameExceptTotals(base[p], e)
  {
    hide Final, LostBelow, DirectoryResult, Complete, SameExceptTotals, KnownLeaf;
    DirectorySizes(par, base, q, entries, p, self[p], sumLogical, sumReferenced, sumKnownSubtotal);
    DirectoryKnown(par, base, q, entries, p, allKnown);
    DirectoryUnique(par, base, q, entries, p, childUniqueSum);
    LossIsCutOff(par, q.distinct, p);
    AssembleFinal(par, base, q, p, sumLogical, sumReferenced, sumKnownSubtotal, allKnown, net);
  }

  // ---- The two loops over the post-order

  /** After the first `i` entries of the post-order: leaves carry their amounts, the directories among the
      first `i` are final, the other directories are untouched. */
  ghost predicate Progress(par: seq<nat>, base: seq<CompactEntry>, objects: seq<ObjectRecord>, self: seq<u64>, q: Exact,
                           post: seq<nat>, i: nat, entries: seq<CompactEntry>)
    requires IsTree(par) && |base| == |self| == |q.logical| == |q.alloc| == |q.distinct| == |par|
    requires AliasesInRange(base, objects) && Nodes(par, post)
  {
    && |entries| == |par|
    && forall j :: 0 <= j < |post| ==>
         var x := post[j];
         if base[x].kind != EntryKind.Directory then entries[x] == LeafResult(base[x], objects, self[x])
         else if j < i then Final(par, base, q, x, entries[x]) && SameExceptTotals(base[x], entries[x])
         else entries[x] == base[x]
  }

  ghost predicate SameExceptTotals(e0: CompactEntry, e: CompactEntry) {
    && e.logicalSize.Some? && e.allocatedSize == Some(e.referenced)
    && e == e0.(logicalSize := e.logicalSize, referenced := e.referenced, knownSubtotal := e.knownSubtotal,
                allocatedSize := e.allocatedSize, allocatedSizeKnown := e.allocatedSizeKnown, unique := e.unique)
  }

  /** The children of the entry at position `i` of the post-order are final. */
  lemma ChildrenFinal(par: seq<nat>, base: seq<CompactEntry>, objects: seq<ObjectRecord>, self: seq<u64>, delta: seq<int>, q: Exact,
                      post: seq<nat>, blocks: seq<nat>, i: nat, entries: seq<CompactEntry>, c: nat)
    requires IsTree(par) && BaseOk(par, base) && ExactOk(par, base, objects, self, delta, q)
    requires PostOrder(par, post, blocks) && i < |post| && 0 < c < |par| && par[c] == post[i]
    requires Progress(par, base, objects, self, q, post, i, entries)
    ensures Final(par, base, q, c, entries[c])
  {
    assert c in post;
    var j :| 0 <= j < |post| && post[j] == c;
    if base[c].kind != EntryKind.Directory {
      LeafIsFinal(par, base, objects, self, delta, q, c);
    } else {
      assert BlockOk(par, post, i, blocks[i]);
      assert Under(par, post[i], post[j]);
    }
  }

  method SetLeafAmounts(base: seq<CompactEntry>, objects: seq<ObjectRecord>, postOrder: seq<nat>, ghost self: seq<u64>, ghost par: seq<nat>)
    returns (entries: seq<CompactEntry>)
    requires IsTree(par) && |base| == |self| == |par| && AliasesInRange(base, objects)
    requires Nodes(par, postOrder) && Injective(postOrder)
    ensures |entries| == |base|
    ensures forall j :: 0 <= j < |postOrder| ==>
      var x := postOrder[j];
      entries[x] == if base[x].kind != EntryKind.Directory then LeafResult(base[x], objects, self[x]) else base[x]
  {
    entries := base;
    for i := 0 to |postOrder|
      invariant |entries| == |base|
      invariant forall j :: i <= j < |postOrder| ==> entries[postOrder[j]] == base[postOrder[j]]
      invariant forall j :: 0 <= j < i ==>
        var x := postOrder[j];
        entries[x] == if base[x].kind != EntryKind.Directory then LeafResult(base[x], objects, self[x]) else base[x]
    {
      var idx := postOrder[i];
      var compact := entries[idx];
      assert AliasOf(base[idx]) < |objects|;
      if compact.kind == EntryKind.File {
        if compact.objectIndex != NO_OBJECT {
          entries := entries[idx := compact.(unique := objects[compact.objectIndex].weight)];
        } else {
          entries := entries[idx := compact.(unique := compact.allocatedSize.GetOr(0))];
        }
      } else if compact.kind == EntryKind.Special {
        entries := entries[idx := compact.(unique := 0)];
      }
    }
  }

  /** Totals of one directory; `ok` is false where the non-negativity assertion of the source fails. */
  method SettleDirectory(entries: seq<CompactEntry>, dirSelfAlloc: seq<u64>, firstChild: seq<nat>, nextSibling: seq<nat>, treeDelta: seq<int>, idx: nat,
                         ghost par: seq<nat>, ghost base: seq<CompactEntry>, ghost objects: seq<ObjectRecord>, ghost q: Exact)
    returns (ok: bool, entry: CompactEntry)
    requires Linked(par, firstChild, nextSibling) && |entries| == |par|
    requires ExactOk(par, base, objects, dirSelfAlloc, treeDelta, q)
    requires forall v :: 0 <= v < |treeDelta| ==> -(|par| * TWO_64) <= treeDelta[v] <= 0
    requires idx < |par| && base[idx].kind == EntryKind.Directory && entries[idx] == base[idx]
    requires forall c :: 0 < c < |par| && par[c] == idx ==> Final(par, base, q, c, entries[c])
    ensures ok <==> Covered(par, q.distinct, idx)
    ensures ok ==> Final(par, base, q, idx, entry) && SameExceptTotals(base[idx], entry)
  {
    var sumLogical, sumReferenced, sumKnownSubtotal, childUniqueSum, allKnown :=
      ChildTotals(entries, firstChild, nextSibling, idx, dirSelfAlloc[idx], par);
    var netUnique := childUniqueSum + treeDelta[idx] + dirSelfAlloc[idx];
    assert I128_MIN <= childUniqueSum + treeDelta[idx] && netUnique <= I128_MAX;
    ok := netUnique >= 0;
    entry := DirectoryResult(entries[idx], sumLogical, sumReferenced, sumKnownSubtotal, allKnown, netUnique);
    DirectoryIsFinal(par, base, objects, dirSelfAlloc, treeDelta, q, entries, idx,
                     sumLogical, sumReferenced, sumKnownSubtotal, childUniqueSum, allKnown, netUnique, entry);
  }

  method AggregateDirectories(leaves: seq<CompactEntry>, dirSelfAlloc: seq<u64>, firstChild: seq<nat>, nextSibling: seq<nat>,
                              postOrder: seq<nat>, treeDelta: seq<int>,
                              ghost par: seq<nat>, ghost base: seq<CompactEntry>, ghost objects: seq<ObjectRecord>, ghost blocks: seq<nat>, ghost q: Exact)
    returns (ok: bool, entries: seq<CompactEntry>)
    requires Linked(par, firstChild, nextSibling) && BaseOk(par, base)
    requires ExactOk(par, base, objects, dirSelfAlloc, treeDelta, q)
    requires forall v :: 0 <= v < |treeDelta| ==> -(|par| * TWO_64) <= treeDelta[v] <= 0
    requires PostOrder(par, postOrder, blocks)
    requires Progress(par, base, objects, dirSelfAlloc, q, postOrder, 0, leaves)
    ensures ok <==> forall p :: 0 <= p < |par| && base[p].kind == EntryKind.Directory ==> Covered(par, q.distinct, p)
    ensures ok ==> Progress(par, base, objects, dirSelfAlloc, q, postOrder, |postOrder|, entries)
  {
    ok, entries := true, leaves;
    assert |base| == |dirSelfAlloc| == |q.logical| == |q.alloc| == |q.distinct| == |par| && AliasesInRange(base, objects);
    hide Final, Covered, ExactOk, BaseOk, Linked, AliasesInRange, SameExceptTotals, LeafResult;
    for i := 0 to |postOrder|
      invariant ok
      invariant Progress(par, base, objects, dirSelfAlloc, q, postOrder, i, entries)
      invariant forall j :: 0 <= j < i && base[postOrder[j]].kind == EntryKind.Directory ==> Covered(par, q.distinct, postOrder[j])
    {
      var idx := postOrder[i];
      if entries[idx].kind == EntryKind.Directory {
        forall c | 0 < c < |par| && par[c] == idx
          ensures Final(par, base, q, c, entries[c])
        {
          ChildrenFinal(par, base, objects, dirSelfAlloc, treeDelta, q, postOrder, blocks, i, entries, c);
        }
        var entry;
        ok, entry := SettleDirectory(entries, dirSelfAlloc, firstChild, nextSibling, treeDelta, idx, par, base, objects, q);
        if !ok {
          return;
        }
        entries := entries[idx := entry];
      }
    }
    forall p | 0 <= p < |par| && base[p].kind == EntryKind.Directory
      ensures Covered(par, q.distinct, p)
    {
      assert p in postOrder;
    }
  }
}
