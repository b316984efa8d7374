/** The directory tree as an array of parent indices, the sibling links the builder keeps
    over it, and sums over subtrees. Entry 0 is the root; every other entry arrives after
    its parent, so a parent index is always the smaller one. */
module Forest {

  /** The value of an absent link: the largest 32-bit index, above every entry index. */
  const NONE: nat := 0xFFFF_FFFF

  ghost predicate IsTree(par: seq<nat>) {
    && 0 < |par|
    && par[0] == 0
    && forall x :: 0 < x < |par| ==> par[x] < x
  }

  /** `x` lies in the subtree of `d` (which contains `d`). */
  ghost predicate Under(par: seq<nat>, d: nat, x: nat)
    requires IsTree(par) && x < |par|
    decreases x
  {
    d == x || (x > 0 && Under(par, d, par[x]))
  }

  lemma {:induction false} UnderLeq(par: seq<nat>, d: nat, x: nat)
    requires IsTree(par) && x < |par|
    requires Under(par, d, x)
    ensures d <= x
    decreases x
  {
    if d != x {
      UnderLeq(par, d, par[x]);
    }
  }

  lemma {:induction false} UnderRoot(par: seq<nat>, x: nat)
    requires IsTree(par) && x < |par|
    ensures Under(par, 0, x)
    decreases x
  {
    if x > 0 {
      UnderRoot(par, par[x]);
    }
  }

  lemma {:induction false} UnderTransitive(par: seq<nat>, a: nat, b: nat, x: nat)
    requires IsTree(par) && x < |par| && b < |par|
    requires Under(par, a, b) && Under(par, b, x)
    ensures Under(par, a, x)
    decreases x
  {
    if b != x {
      UnderTransitive(par, a, b, par[x]);
    }
  }

  /** What the builder's `first_child` and `next_sibling` vectors mean: the children of each
      entry, each once, in increasing index order. Absent links are above every index, so
      "no child below `fc[p]`" also says that a childless entry has none at all. */
  ghost predicate Linked(par: seq<nat>, fc: seq<nat>, ns: seq<nat>) {
    && IsTree(par)
    && |fc| == |par| && |ns| == |par| && |par| <= NONE
    && (forall p :: 0 <= p < |par| ==> FirstChildOk(par, p, fc[p]))
    && (forall c :: 0 <= c < |par| ==> NextSiblingOk(par, c, ns[c]))
  }

  ghost predicate FirstChildOk(par: seq<nat>, p: nat, first: nat)
    requires IsTree(par)
  {
    && (first == NONE || (0 < first < |par| && par[first] == p))
    && forall x :: 0 < x < |par| && par[x] == p ==> first <= x
  }

  ghost predicate NextSiblingOk(par: seq<nat>, c: nat, next: nat)
    requires IsTree(par) && c < |par|
  {
    && (next == NONE || (c < next < |par| && par[next] == par[c]))
    && forall x :: c < x < |par| && par[x] == par[c] && c > 0 ==> next <= x
  }

  // ---- Sums over a subtree

  /** The sum of `f` over the entries below index `m` in the subtree of `d`. */
  ghost function SumUnder(par: seq<nat>, d: nat, f: seq<int>, m: nat): int
    requires IsTree(par) && |f| == |par| && m <= |par|
    decreases m
  {
    if m == 0 then 0
    else SumUnder(par, d, f, m - 1) + (if Under(par, d, m - 1) then f[m - 1] else 0)
  }

  /** The sum of `f` over the children of `p` below index `m`. */
  ghost function SumChildren(par: seq<nat>, p: nat, f: seq<int>, m: nat): int
    requires IsTree(par) && |f| == |par| && m <= |par|
    decreases m
  {
    if m == 0 then 0
    else SumChildren(par, p, f, m - 1) + (if m - 1 > 0 && par[m - 1] == p then f[m - 1] else 0)
  }

  lemma {:induction false} SumUnderUpdate(par: seq<nat>, d: nat, f: seq<int>, v: nat, y: int, m: nat)
    requires IsTree(par) && |f| == |par| && m <= |par| && v < |par|
    ensures SumUnder(par, d, f[v := y], m)
         == SumUnder(par, d, f, m) + (if v < m && Under(par, d, v) then y - f[v] else 0)
    decreases m
  {
    if m > 0 {
      SumUnderUpdate(par, d, f, v, y, m - 1);
    }
  }

  lemma {:induction false} SumUnderAdd(par: seq<nat>, d: nat, f: seq<int>, g: seq<int>, h: seq<int>, m: nat)
    requires IsTree(par) && |f| == |g| == |h| == |par| && m <= |par|
    requires forall x :: 0 <= x < m ==> h[x] == f[x] + g[x]
    ensures SumUnder(par, d, h, m) == SumUnder(par, d, f, m) + SumUnder(par, d, g, m)
    decreases m
  {
    if m > 0 {
      SumUnderAdd(par, d, f, g, h, m - 1);
    }
  }

  lemma {:induction false} SumUnderMonotone(par: seq<nat>, d: nat, e: nat, f: seq<int>, g: seq<int>, m: nat)
    requires IsTree(par) && |f| == |g| == |par| && m <= |par| && d < |par|
    requires Under(par, e, d)
    requires forall x :: 0 <= x < m ==> 0 <= g[x] && f[x] <= g[x]
    ensures SumUnder(par, d, f, m) <= SumUnder(par, e, g, m)
    decreases m
  {
    if m > 0 {
      SumUnderMonotone(par, d, e, f, g, m - 1);
      if Under(par, d, m - 1) {
        UnderTransitive(par, e, d, m - 1);
      }
    }
  }

  /** `f` summed over the subtrees of the children of `p` below index `k`, counting the
      entries below index `m`. */
  ghost function SumSubtrees(par: seq<nat>, p: nat, f: seq<int>, k: nat, m: nat): int
    requires IsTree(par) && |f| == |par| && k <= |par| && m <= |par|
    decreases k
  {
    if k == 0 then 0
    else SumSubtrees(par, p, f, k - 1, m)
         + (if k - 1 > 0 && par[k - 1] == p then SumUnder(par, k - 1, f, m) else 0)
  }

  /** An entry strictly under `p` is under exactly one child of `p`. */
  lemma {:induction false} ChildAbove(par: seq<nat>, p: nat, x: nat) returns (c: nat)
    requires IsTree(par) && x < |par| && Under(par, p, x) && p != x
    ensures 0 < c <= x && par[c] == p && Under(par, c, x)
    ensures forall c' :: 0 < c' < |par| && par[c'] == p && Under(par, c', x) ==> c' == c
    decreases x
  {
    if par[x] == p {
      c := x;
      forall c' | 0 < c' < |par| && par[c'] == p && Under(par, c', x)
        ensures c' == c
      {
        if c' != x {
          UnderLeq(par, c', par[x]);
        }
      }
    } else {
      c := ChildAbove(par, p, par[x]);
      forall c' | 0 < c' < |par| && par[c'] == p && Under(par, c', x)
        ensures c' == c
      {
        assert c' != x;
      }
    }
  }

  /** Counting one more entry `m` adds `f[m]` to the one child subtree that holds it. */
  lemma {:induction false} SumSubtreesStep(par: seq<nat>, p: nat, f: seq<int>, k: nat, m: nat)
    requires IsTree(par) && |f| == |par| && k <= |par| && m < |par|
    ensures SumSubtrees(par, p, f, k, m + 1)
         == SumSubtrees(par, p, f, k, m)
          + (if exists c :: 0 < c < k && par[c] == p && Under(par, c, m) then f[m] else 0)
    decreases k
  {
    if k > 0 {
      SumSubtreesStep(par, p, f, k - 1, m);
      var last := k - 1;
      if last > 0 && par[last] == p && Under(par, last, m) {
        UnderTransitive(par, p, last, m);
        UnderLeq(par, last, m);
        var c := ChildAbove(par, p, m);
        assert c == last;
      }
    }
  }

  lemma {:induction false} SumSubtreesEmpty(par: seq<nat>, p: nat, f: seq<int>, k: nat)
    requires IsTree(par) && |f| == |par| && k <= |par|
    ensures SumSubtrees(par, p, f, k, 0) == 0
    decreases k
  {
    if k > 0 {
      SumSubtreesEmpty(par, p, f, k - 1);
    }
  }

  /** The sum over a subtree is the root's own value plus the sums over the subtrees of its children. */
  lemma {:induction false} SubtreeSplit(par: seq<nat>, p: nat, f: seq<int>, m: nat)
    requires IsTree(par) && |f| == |par| && p < |par| && m <= |par|
    ensures SumUnder(par, p, f, m)
         == (if p < m then f[p] else 0) + SumSubtrees(par, p, f, |par|, m)
    decreases m
  {
    if m == 0 {
      SumSubtreesEmpty(par, p, f, |par|);
    } else {
      SubtreeSplit(par, p, f, m - 1);
      SumSubtreesStep(par, p, f, |par|, m - 1);
      var x := m - 1;
      if Under(par, p, x) && p != x {
        var c := ChildAbove(par, p, x);
      } else if exists c :: 0 < c < |par| && par[c] == p && Under(par, c, x) {
        var c :| 0 < c < |par| && par[c] == p && Under(par, c, x);
        assert Under(par, p, c);
        UnderTransitive(par, p, c, x);
        UnderLeq(par, c, x);
      }
    }
  }

  lemma {:induction false} SumSubtreesAsChildren(par: seq<nat>, p: nat, f: seq<int>, g: seq<int>, k: nat)
    requires IsTree(par) && |f| == |g| == |par| && k <= |par|
    requires forall c :: 0 < c < k && par[c] == p ==> g[c] == SumUnder(par, c, f, |par|)
    ensures SumSubtrees(par, p, f, k, |par|) == SumChildren(par, p, g, k)
    decreases k
  {
    if k > 0 {
      SumSubtreesAsChildren(par, p, f, g, k - 1);
    }
  }

  /** The bottom-up rule: if `g` already holds the subtree sums of `f` at the children of `p`,
      then `f[p]` plus the sum of `g` over the children is the subtree sum at `p`. */
  lemma BottomUp(par: seq<nat>, p: nat, f: seq<int>, g: seq<int>)
    requires IsTree(par) && |f| == |g| == |par| && p < |par|
    requires forall c :: 0 < c < |par| && par[c] == p ==> g[c] == SumUnder(par, c, f, |par|)
    ensures SumUnder(par, p, f, |par|) == f[p] + SumChildren(par, p, g, |par|)
  {
    SubtreeSplit(par, p, f, |par|);
    SumSubtreesAsChildren(par, p, f, g, |par|);
  }

  /** Indices without a child of `p` do not change the sum over the children of `p`. */
  lemma {:induction false} SumChildrenSkip(par: seq<nat>, p: nat, f: seq<int>, m: nat, k: nat)
    requires IsTree(par) && |f| == |par| && m <= k <= |par|
    requires forall x :: m <= x < k && 0 < x ==> par[x] != p
    ensures SumChildren(par, p, f, k) == SumChildren(par, p, f, m)
    decreases k
  {
    if m < k {
      SumChildrenSkip(par, p, f, m, k - 1);
    }
  }
}
