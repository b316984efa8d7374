/** Phase 5 of `compute_aggregates`: the children of every directory, deterministically ordered, in one
    shared vector of slices. `lower` stands for the case folding of names. */
module ChildOrder {
  import opened Words
  import opened Graph
  import opened Forest
  import opened Distinct

  // ---- The comparison

  /** Lexicographic order of names by code point. */
  predicate NameLess(a: string, b: string) {
    b != [] && (a == [] || a[0] < b[0] || (a[0] == b[0] && NameLess(a[1..], b[1..])))
  }

  lemma {:induction false} NameLessTotal(a: string, b: string)
    ensures a == b || NameLess(a, b) || NameLess(b, a)
    ensures !(NameLess(a, b) && NameLess(b, a)) && (NameLess(a, b) ==> a != b)
    decreases |a|
  {
    if a != [] && b != [] && a[0] == b[0] {
      NameLessTotal(a[1..], b[1..]);
      assert a == [a[0]] + a[1..] && b == [b[0]] + b[1..];
    }
  }

  lemma {:induction false} NameLessTransitive(a: string, b: string, c: string)
    requires NameLess(a, b) && NameLess(b, c)
    ensures NameLess(a, c)
    decreases |a|
  {
    if a != [] && a[0] == b[0] == c[0] {
      NameLessTransitive(a[1..], b[1..], c[1..]);
    }
  }

  /** One name comes before another exactly if it continues their common start with nothing or a smaller character. */
  lemma {:induction false} NameLessMeaning(a: string, b: string)
    ensures NameLess(a, b) <==>
      exists k :: 0 <= k <= |a| && k < |b| && a[..k] == b[..k] && (k == |a| || a[k] < b[k])
    decreases |a|
  {
    if NameLess(a, b) {
      var k := Divergence(a, b);
      assert a[..k] == b[..k];
    }
    if k :| 0 <= k <= |a| && k < |b| && a[..k] == b[..k] && (k == |a| || a[k] < b[k]) {
      DivergesLess(a, b, k);
    }
  }

  lemma {:induction false} Divergence(a: string, b: string) returns (k: nat)
    requires NameLess(a, b)
    ensures k <= |a| && k < |b| && a[..k] == b[..k] && (k == |a| || a[k] < b[k])
    decreases |a|
  {
    if a == [] || a[0] < b[0] {
      k := 0;
    } else {
      var j := Divergence(a[1..], b[1..]);
      k := j + 1;
      assert a[..k] == [a[0]] + a[1..][..j] && b[..k] == [b[0]] + b[1..][..j];
    }
  }

  lemma {:induction false} DivergesLess(a: string, b: string, k: nat)
    requires k <= |a| && k < |b| && a[..k] == b[..k] && (k == |a| || a[k] < b[k])
    ensures NameLess(a, b)
    decreases k
  {
    if k > 0 {
      assert a[0] == a[..k][0] == b[..k][0] == b[0];
      assert a[1..][..k - 1] == a[..k][1..] && b[1..][..k - 1] == b[..k][1..];
      DivergesLess(a[1..], b[1..], k - 1);
    }
  }

  /** Directories first, larger logical size first, then names without and with case, then ids. */
  predicate Precedes(lower: string -> string, a: CompactEntry, b: CompactEntry) {
    var aDir, bDir := a.kind == EntryKind.Directory, b.kind == EntryKind.Directory;
    var aSize, bSize := a.logicalSize.GetOr(0), b.logicalSize.GetOr(0);
    if aDir != bDir then aDir
    else if aSize != bSize then bSize < aSize
    else if lower(a.name) != lower(b.name) then NameLess(lower(a.name), lower(b.name))
    else if a.name != b.name then NameLess(a.name, b.name)
    else a.id < b.id
  }

  lemma PrecedesTotal(lower: string -> string, a: CompactEntry, b: CompactEntry)
    ensures a.id != b.id ==> Precedes(lower, a, b) || Precedes(lower, b, a)
    ensures !(Precedes(lower, a, b) && Precedes(lower, b, a))
  {
    NameLessTotal(lower(a.name), lower(b.name));
    NameLessTotal(a.name, b.name);
  }

  lemma PrecedesTransitive(lower: string -> string, a: CompactEntry, b: CompactEntry, c: CompactEntry)
    requires Precedes(lower, a, b) && Precedes(lower, b, c)
    ensures Precedes(lower, a, c)
  {
    if NameLess(lower(a.name), lower(b.name)) && NameLess(lower(b.name), lower(c.name)) {
      NameLessTransitive(lower(a.name), lower(b.name), lower(c.name));
    }
    if NameLess(a.name, b.name) && NameLess(b.name, c.name) {
      NameLessTransitive(a.name, b.name, c.name);
    }
    NameLessTotal(lower(a.name), lower(b.name));
    NameLessTotal(lower(b.name), lower(c.name));
    NameLessTotal(a.name, b.name);
    NameLessTotal(b.name, c.name);
  }

  /** Directories first; then the larger logical size; then the name without and with case, by the first character in which
      names differ; then the smaller id. */
  ghost predicate InDisplayOrder(lower: string -> string, a: CompactEntry, b: CompactEntry) {
    var m, n := if a.logicalSize.Some? then a.logicalSize.value else 0, if b.logicalSize.Some? then b.logicalSize.value else 0;
    && (b.kind.Directory? ==> a.kind.Directory?)
    && ((a.kind.Directory? <==> b.kind.Directory?) ==>
          && m >= n
          && (m == n ==>
                && !NameLess(lower(b.name), lower(a.name))
                && (lower(a.name) == lower(b.name) ==> !NameLess(b.name, a.name) && (a.name == b.name ==> a.id < b.id))))
  }

  lemma SortedMeaning(lower: string -> string, entries: seq<CompactEntry>, s: seq<nat>, i: nat, j: nat)
    requires Sorted(lower, entries, s) && i < j < |s|
    ensures InDisplayOrder(lower, entries[s[i]], entries[s[j]])
  {
    var a, b := entries[s[i]], entries[s[j]];
    assert Precedes(lower, a, b);
    NameLessTotal(lower(a.name), lower(b.name));
    NameLessTotal(a.name, b.name);
  }

  // ---- Sorting the children of one directory

  ghost predicate InRange(entries: seq<CompactEntry>, s: seq<nat>) {
    forall i :: 0 <= i < |s| ==> s[i] < |entries|
  }

  ghost predicate Sorted(lower: string -> string, entries: seq<CompactEntry>, s: seq<nat>) {
    InRange(entries, s)
    && forall i, j :: 0 <= i < j < |s| ==> Precedes(lower, entries[s[i]], entries[s[j]])
  }

  ghost predicate DistinctIds(entries: seq<CompactEntry>) {
    forall x, y :: 0 <= x < y < |entries| ==> entries[x].id != entries[y].id
  }

  ghost predicate SameMembers(s: seq<nat>, t: seq<nat>) {
    forall x :: x in s <==> x in t
  }

  /** The place of `x` in a sorted list. */
  method Insert(lower: string -> string, entries: seq<CompactEntry>, s: seq<nat>, x: nat) returns (t: seq<nat>)
    requires Sorted(lower, entries, s) && DistinctIds(entries) && x < |entries| && x !in s
    ensures Sorted(lower, entries, t) && SameMembers(t, s + [x]) && |t| == |s| + 1
  {
    var i := 0;
    while i < |s| && Precedes(lower, entries[s[i]], entries[x])
      invariant i <= |s|
      invariant forall k :: 0 <= k < i ==> Precedes(lower, entries[s[k]], entries[x])
    {
      i := i + 1;
    }
    t := s[..i] + [x] + s[i..];
    FitsAt(lower, entries, s, x, i);
    SortedWith(lower, entries, s, x, i);
    hide Sorted, Precedes;
    assert s == s[..i] + s[i..];
  }

  lemma SortedWith(lower: string -> string, entries: seq<CompactEntry>, s: seq<nat>, x: nat, i: nat)
    requires Sorted(lower, entries, s) && x < |entries| && i <= |s|
    requires forall k :: 0 <= k < i ==> Precedes(lower, entries[s[k]], entries[x])
    requires forall k :: i <= k < |s| ==> Precedes(lower, entries[x], entries[s[k]])
    ensures Sorted(lower, entries, s[..i] + [x] + s[i..])
  {
    hide Precedes;
  }

  /** The first entry of `s` not before `x`, and all after it, come after `x`. */
  lemma FitsAt(lower: string -> string, entries: seq<CompactEntry>, s: seq<nat>, x: nat, i: nat)
    requires Sorted(lower, entries, s) && DistinctIds(entries) && x < |entries| && x !in s && i <= |s|
    requires i < |s| ==> !Precedes(lower, entries[s[i]], entries[x])
    ensures forall k :: i <= k < |s| ==> Precedes(lower, entries[x], entries[s[k]])
  {
    hide Precedes;
    forall k | i <= k < |s|
      ensures Precedes(lower, entries[x], entries[s[k]])
    {
      assert s[i] in s;
      PrecedesTotal(lower, entries[s[i]], entries[x]);
      if i < k {
        PrecedesTransitive(lower, entries[x], entries[s[i]], entries[s[k]]);
      }
    }
  }

  method SortChildren(lower: string -> string, entries: seq<CompactEntry>, s: seq<nat>) returns (t: seq<nat>)
    requires InRange(entries, s) && DistinctIds(entries)
    requires forall i, j :: 0 <= i < j < |s| ==> s[i] != s[j]
    ensures Sorted(lower, entries, t) && SameMembers(t, s) && |t| == |s|
  {
    t := [];
    for k := 0 to |s|
      invariant Sorted(lower, entries, t) && SameMembers(t, s[..k]) && |t| == k
    {
      assert s[k] !in s[..k];
      t := Insert(lower, entries, t, s[k]);
      assert s[..k + 1] == s[..k] + [s[k]];
    }
    assert s[..|s|] == s;
  }

  /** The order is determined: given children have exactly one sorted arrangement. */
  lemma {:induction false} SortedUnique(lower: string -> string, entries: seq<CompactEntry>, s: seq<nat>, t: seq<nat>)
    requires Sorted(lower, entries, s) && Sorted(lower, entries, t) && SameMembers(s, t)
    ensures s == t
    decreases |s|
  {
    if s == [] {
      assert forall i :: 0 <= i < |t| ==> t[i] in s;
    } else {
      SameHead(lower, entries, s, t);
      assert SameMembers(s[1..], t[1..]) by {
        SortedTail(lower, entries, s);
        SortedTail(lower, entries, t);
      }
      SortedUnique(lower, entries, s[1..], t[1..]);
      assert s == [s[0]] + s[1..] && t == [t[0]] + t[1..];
    }
  }

  lemma SameHead(lower: string -> string, entries: seq<CompactEntry>, s: seq<nat>, t: seq<nat>)
    requires Sorted(lower, entries, s) && Sorted(lower, entries, t) && SameMembers(s, t) && s != []
    ensures t != [] && s[0] == t[0]
  {
    assert s[0] in t;
    assert t[0] in s;
    var i :| 0 <= i < |t| && t[i] == s[0];
    var j :| 0 <= j < |s| && s[j] == t[0];
    PrecedesTotal(lower, entries[s[0]], entries[t[0]]);
  }

  lemma SortedTail(lower: string -> string, entries: seq<CompactEntry>, s: seq<nat>)
    requires Sorted(lower, entries, s) && s != []
    ensures forall x :: x in s[1..] <==> x in s && x != s[0]
  {
    assert s == [s[0]] + s[1..];
    forall x | x in s[1..]
      ensures x != s[0]
    {
      var i :| 1 <= i < |s| && s[i] == x;
      PrecedesTotal(lower, entries[s[0]], entries[s[i]]);
    }
  }

  // ---- The slices

  /** The children of `p` below index `m`, in arrival order. */
  ghost function ChildList(par: seq<nat>, p: nat, m: nat): (r: seq<nat>)
    requires m <= |par|
    ensures forall i :: 0 <= i < |r| ==> r[i] < m
  {
    if m == 0 then []
    else if m - 1 > 0 && par[m - 1] == p then ChildList(par, p, m - 1) + [m - 1]
    else ChildList(par, p, m - 1)
  }

  ghost predicate Increasing(s: seq<nat>) {
    forall i, j :: 0 <= i < j < |s| ==> s[i] < s[j]
  }

  lemma {:induction false} ChildListMeaning(par: seq<nat>, p: nat, m: nat)
    requires m <= |par|
    ensures forall x: nat :: x in ChildList(par, p, m) <==> 0 < x < m && par[x] == p
    ensures Increasing(ChildList(par, p, m))
    decreases m
  {
    if m > 0 {
      ChildListMeaning(par, p, m - 1);
    }
  }

  lemma {:induction false} ChildListSkip(par: seq<nat>, p: nat, m: nat, k: nat)
    requires m <= k <= |par|
    requires forall x :: m <= x < k && 0 < x ==> par[x] != p
    ensures ChildList(par, p, k) == ChildList(par, p, m)
    decreases k
  {
    if m < k {
      ChildListSkip(par, p, m, k - 1);
    }
  }

  method CollectChildren(firstChild: seq<nat>, nextSibling: seq<nat>, idx: nat, ghost par: seq<nat>) returns (children: seq<nat>)
    requires Linked(par, firstChild, nextSibling) && idx < |par|
    ensures children == ChildList(par, idx, |par|)
  {
    children := [];
    var c := firstChild[idx];
    ghost var m := 0;
    assert FirstChildOk(par, idx, c);
    while c != NONE
      invariant m <= |par|
      invariant c == NONE || (m <= c && 0 < c < |par| && par[c] == idx)
      invariant forall x :: m <= x < |par| && 0 < x && par[x] == idx ==> c <= x
      invariant children == ChildList(par, idx, m)
      decreases |par| - m
    {
      ChildListSkip(par, idx, m, c);
      children := children + [c];
      assert NextSiblingOk(par, c, nextSibling[c]);
      m := c + 1;
      c := nextSibling[c];
    }
    ChildListSkip(par, idx, m, |par|);
  }

  /** Only directories have children. */
  ghost predicate ParentsAreDirectories(par: seq<nat>, entries: seq<CompactEntry>)
    requires IsTree(par) && |entries| == |par|
  {
    forall x :: 0 < x < |par| ==> entries[par[x]].kind == EntryKind.Directory
  }

  /** The slice of entry `p`: its children, sorted, at `childStart`. */
  ghost predicate SliceOk(lower: string -> string, par: seq<nat>, entries: seq<CompactEntry>, order: seq<nat>, p: nat, e: CompactEntry)
    requires IsTree(par) && |entries| == |par|
  {
    && e.childStart + e.childCount <= |order|
    && SortedChildren(lower, par, entries, p, order[e.childStart..e.childStart + e.childCount])
  }

  /** Exactly the children of `p`, in order. */
  ghost predicate SortedChildren(lower: string -> string, par: seq<nat>, entries: seq<CompactEntry>, p: nat, slice: seq<nat>)
    requires IsTree(par) && |entries| == |par|
  {
    && Sorted(lower, entries, slice)
    && forall x :: x in slice <==> 0 < x < |par| && par[x] == p
  }

  /** `order` lists the indices behind `allChildren`; the slices of smaller entries come first. */
  ghost predicate SlicesOk(lower: string -> string, par: seq<nat>, entries: seq<CompactEntry>, order: seq<nat>, k: nat, sliced: seq<CompactEntry>)
    requires IsTree(par) && |entries| == |par| && k <= |par|
  {
    && |sliced| == |entries|
    && InRange(entries, order) && Injective(order)
    && (forall x :: x in order <==> 0 < x < |par| && par[x] < k)
    && (forall x :: 0 <= x < |par| ==> sliced[x] == entries[x].(childStart := sliced[x].childStart, childCount := sliced[x].childCount))
    && (forall p :: 0 <= p < k ==> SliceOk(lower, par, entries, order, p, sliced[p]))
    && (forall p, q :: 0 <= p < q < k && entries[p].kind == entries[q].kind == EntryKind.Directory ==>
          sliced[p].childStart + sliced[p].childCount <= sliced[q].childStart)
  }

  lemma ChildlessList(par: seq<nat>, entries: seq<CompactEntry>, p: nat)
    requires IsTree(par) && |entries| == |par| && ParentsAreDirectories(par, entries)
    requires p < |par| && entries[p].kind != EntryKind.Directory
    ensures ChildList(par, p, |par|) == []
  {
    ChildListSkip(par, p, 0, |par|);
  }

  /** A slice stays what it is when more slices are appended. */
  lemma SliceKept(lower: string -> string, par: seq<nat>, entries: seq<CompactEntry>, order: seq<nat>, p: nat, e: CompactEntry, slice: seq<nat>)
    requires IsTree(par) && |entries| == |par| && SliceOk(lower, par, entries, order, p, e)
    ensures SliceOk(lower, par, entries, order + slice, p, e)
  {
    assert (order + slice)[e.childStart..e.childStart + e.childCount] == order[e.childStart..e.childStart + e.childCount];
  }

  lemma SliceAppended(lower: string -> string, par: seq<nat>, entries: seq<CompactEntry>, order: seq<nat>, k: nat, slice: seq<nat>,
                      start: u32, count: u32)
    requires IsTree(par) && |entries| == |par| && k < |par|
    requires SortedChildren(lower, par, entries, k, slice)
    requires count == |slice| && (start == |order| || (start == 0 && slice == []))
    ensures SliceOk(lower, par, entries, order + slice, k, entries[k].(childStart := start, childCount := count))
  {
    assert (order + slice)[start..start + count] == slice;
  }

  function Sliced(e: CompactEntry, start: u32, count: u32): CompactEntry {
    e.(childStart := start, childCount := count)
  }

  lemma OrderStep(lower: string -> string, par: seq<nat>, entries: seq<CompactEntry>, order: seq<nat>, k: nat, slice: seq<nat>)
    requires IsTree(par) && |entries| == |par| && k < |par| && InRange(entries, order) && Injective(order)
    requires forall x :: x in order <==> 0 < x < |par| && par[x] < k
    requires SortedChildren(lower, par, entries, k, slice)
    ensures InRange(entries, order + slice) && Injective(order + slice)
    ensures forall x :: x in order + slice <==> 0 < x < |par| && par[x] < k + 1
    ensures |order + slice| <= |par|
  {
    var t := order + slice;
    forall i, j | 0 <= i < j < |t|
      ensures t[i] != t[j]
    {
      if j < |order| {
      } else if i < |order| {
        assert order[i] in order && slice[j - |order|] in slice;
      } else {
        PrecedesTotal(lower, entries[t[i]], entries[t[j]]);
      }
    }
    InjectiveLength(t, |par|);
  }

  /** Appending the sorted slice of entry `k`. */
  lemma SlicesStep(lower: string -> string, par: seq<nat>, entries: seq<CompactEntry>, order: seq<nat>, k: nat, sliced: seq<CompactEntry>,
                   slice: seq<nat>, start: u32, count: u32)
    requires IsTree(par) && |entries| == |par| && k < |par| && SlicesOk(lower, par, entries, order, k, sliced)
    requires SortedChildren(lower, par, entries, k, slice)
    requires count == |slice| && if entries[k].kind == EntryKind.Directory then start == |order| else start == 0 == count
    ensures SlicesOk(lower, par, entries, order + slice, k + 1, sliced[k := Sliced(entries[k], start, count)])
  {
    var sliced', order' := sliced[k := Sliced(entries[k], start, count)], order + slice;
    SliceAppended(lower, par, entries, order, k, slice, start, count);
    forall p | 0 <= p < k + 1
      ensures SliceOk(lower, par, entries, order', p, sliced'[p])
    {
      if p < k {
        SliceKept(lower, par, entries, order, p, sliced[p], slice);
      }
    }
    OrderStep(lower, par, entries, order, k, slice);
  }

  /** The sorted slice of one entry and where it goes. */
  method BuildSlice(lower: string -> string, entries: seq<CompactEntry>, firstChild: seq<nat>, nextSibling: seq<nat>, idx: nat, used: nat,
                    ghost par: seq<nat>, ghost order: seq<nat>, ghost sliced: seq<CompactEntry>)
    returns (slice: seq<nat>, start: u32, count: u32)
    requires Linked(par, firstChild, nextSibling) && |entries| == |par| && DistinctIds(entries) && idx < |par|
    requires ParentsAreDirectories(par, entries) && SlicesOk(lower, par, entries, order, idx, sliced) && used == |order|
    ensures count == |slice| && InRange(entries, slice)
    ensures SlicesOk(lower, par, entries, order + slice, idx + 1, sliced[idx := Sliced(entries[idx], start, count)])
  {
    if entries[idx].kind == EntryKind.Directory {
      var children := CollectChildren(firstChild, nextSibling, idx, par);
      ChildListMeaning(par, idx, |par|);
      slice := SortChildren(lower, entries, children);
      OrderStep(lower, par, entries, order, idx, slice);
      start, count := used, |slice|;
    } else {
      ChildlessList(par, entries, idx);
      slice, start, count := [], 0, 0;
      ChildListMeaning(par, idx, |par|);
    }
    SlicesStep(lower, par, entries, order, idx, sliced, slice, start, count);
  }

  method BuildSlices(lower: string -> string, entries: seq<CompactEntry>, firstChild: seq<nat>, nextSibling: seq<nat>, ghost par: seq<nat>)
    returns (sliced: seq<CompactEntry>, allChildren: seq<u32>, ghost order: seq<nat>)
    requires Linked(par, firstChild, nextSibling) && |entries| == |par| && DistinctIds(entries)
    requires ParentsAreDirectories(par, entries)
    ensures SlicesOk(lower, par, entries, order, |par|, sliced)
    ensures |allChildren| == |order| && forall i :: 0 <= i < |order| ==> allChildren[i] == entries[order[i]].id
    ensures |sliced| == |entries|
    ensures forall x :: 0 <= x < |entries| ==> sliced[x] == Sliced(entries[x], sliced[x].childStart, sliced[x].childCount)
  {
    hide SlicesOk, ParentsAreDirectories, DistinctIds, FirstChildOk, NextSiblingOk;
    sliced, allChildren, order := entries, [], [];
    NoSlices(lower, par, entries);
    for idx := 0 to |entries|
      invariant SlicesOk(lower, par, entries, order, idx, sliced) && |sliced| == |entries| && InRange(entries, order)
      invariant |allChildren| == |order| && forall i :: 0 <= i < |order| ==> allChildren[i] == entries[order[i]].id
    {
      var slice, start, count := BuildSlice(lower, entries, firstChild, nextSibling, idx, |allChildren|, par, order, sliced);
      sliced := sliced[idx := Sliced(entries[idx], start, count)];
      allChildren := allChildren + seq(|slice|, i requires 0 <= i < |slice| => entries[slice[i]].id);
      order := order + slice;
    }
    SlicesShape(lower, par, entries, order, |par|, sliced);
  }

  lemma NoSlices(lower: string -> string, par: seq<nat>, entries: seq<CompactEntry>)
    requires IsTree(par) && |entries| == |par|
    ensures SlicesOk(lower, par, entries, [], 0, entries)
  {
  }

  lemma SlicesShape(lower: string -> string, par: seq<nat>, entries: seq<CompactEntry>, order: seq<nat>, k: nat, sliced: seq<CompactEntry>)
    requires IsTree(par) && |entries| == |par| && k <= |par| && SlicesOk(lower, par, entries, order, k, sliced)
    ensures |sliced| == |entries| && forall x :: 0 <= x < |entries| ==> sliced[x] == Sliced(entries[x], sliced[x].childStart, sliced[x].childCount)
  {
    hide SliceOk;
  }
}
