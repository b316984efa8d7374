/** Counting every distinct object of a subtree exactly once. `obj[x]` is the object an entry
    refers to (negative: none), `g[x]` the amount the entry contributes; aliases of one object
    contribute the same amount. */
module Distinct {
  import opened Forest

  ghost predicate SameObject(obj: seq<int>, x: nat, y: nat)
    requires x < |obj| && y < |obj|
  {
    0 <= obj[x] && obj[x] == obj[y]
  }

  /** The specification: over the subtree of `d`, the amount of every entry that is not an
      alias of an object already met at a smaller index of that same subtree. */
  ghost function DistinctSum(par: seq<nat>, obj: seq<int>, g: seq<int>, d: nat, m: nat): int
    requires IsTree(par) && |obj| == |g| == |par| && m <= |par|
    decreases m
  {
    if m == 0 then 0
    else DistinctSum(par, obj, g, d, m - 1)
         + (if Under(par, d, m - 1) && !MetBefore(par, obj, d, m - 1) then g[m - 1] else 0)
  }

  ghost predicate MetBefore(par: seq<nat>, obj: seq<int>, d: nat, x: nat)
    requires IsTree(par) && |obj| == |par| && x < |par|
  {
    exists y :: 0 <= y < x && Under(par, d, y) && SameObject(obj, y, x)
  }

  // ---- The same sum along an arbitrary visiting order

  ghost predicate Nodes(par: seq<nat>, s: seq<nat>) {
    forall i :: 0 <= i < |s| ==> s[i] < |par|
  }

  ghost predicate Injective(s: seq<nat>) {
    forall i, j :: 0 <= i < j < |s| ==> s[i] != s[j]
  }

  /** Pigeonhole: distinct numbers below `n`. */
  lemma {:induction false} InjectiveLength(s: seq<nat>, n: nat)
    requires Injective(s) && forall i :: 0 <= i < |s| ==> s[i] < n
    ensures |s| <= n
    ensures (forall x: nat :: x < n ==> x in s) ==> |s| == n
    decreases n
  {
    if s == [] {
      assert n > 0 ==> 0 !in s;
    } else {
      assert s[0] < n;
      if n - 1 in s {
        var i :| 0 <= i < |s| && s[i] == n - 1;
        var t := s[..i] + s[i + 1..];
        forall x: nat | x in s && x != n - 1
          ensures x in t
        {
          var j :| 0 <= j < |s| && s[j] == x;
          assert t[if j < i then j else j - 1] == x;
        }
        InjectiveLength(t, n - 1);
      } else {
        InjectiveLength(s, n - 1);
      }
    }
  }

  /** An alias of the object of `x` inside the subtree of `d` was already visited in `s`. */
  ghost predicate Seen(par: seq<nat>, obj: seq<int>, s: seq<nat>, d: nat, x: nat)
    requires IsTree(par) && |obj| == |par| && Nodes(par, s) && x < |par|
  {
    exists i :: 0 <= i < |s| && Under(par, d, s[i]) && SameObject(obj, s[i], x)
  }

  ghost function Firsts(par: seq<nat>, obj: seq<int>, g: seq<int>, s: seq<nat>, d: nat): int
    requires IsTree(par) && |obj| == |g| == |par| && Nodes(par, s)
    decreases |s|
  {
    if |s| == 0 then 0
    else
      var x, r := s[|s| - 1], s[..|s| - 1];
      Firsts(par, obj, g, r, d) + (if Under(par, d, x) && !Seen(par, obj, r, d, x) then g[x] else 0)
  }

  ghost function Repeats(par: seq<nat>, obj: seq<int>, g: seq<int>, s: seq<nat>, d: nat): int
    requires IsTree(par) && |obj| == |g| == |par| && Nodes(par, s)
    decreases |s|
  {
    if |s| == 0 then 0
    else
      var x, r := s[|s| - 1], s[..|s| - 1];
      Repeats(par, obj, g, r, d) + (if Under(par, d, x) && Seen(par, obj, r, d, x) then g[x] else 0)
  }

  lemma RepeatsAppend(par: seq<nat>, obj: seq<int>, g: seq<int>, s: seq<nat>, x: nat, d: nat)
    requires IsTree(par) && |obj| == |g| == |par| && Nodes(par, s) && x < |par|
    ensures Nodes(par, s + [x])
    ensures Repeats(par, obj, g, s + [x], d)
         == Repeats(par, obj, g, s, d) + (if Under(par, d, x) && Seen(par, obj, s, d, x) then g[x] else 0)
  {
    assert (s + [x])[..|s|] == s;
  }

  /** `g` restricted to the entries of `s`. */
  ghost function Masked(g: seq<int>, s: seq<nat>): (r: seq<int>)
    ensures |r| == |g| && forall x :: 0 <= x < |g| ==> r[x] == if x in s then g[x] else 0
  {
    seq(|g|, x requires 0 <= x < |g| => if x in s then g[x] else 0)
  }

  lemma MaskedAppend(g: seq<int>, r: seq<nat>, x: nat)
    requires x < |g|
    ensures Masked(g, r + [x]) == Masked(g, r)[x := g[x]]
  {
  }

  lemma {:induction false} SumAlong(par: seq<nat>, obj: seq<int>, g: seq<int>, s: seq<nat>, d: nat)
    requires IsTree(par) && |obj| == |g| == |par| && Nodes(par, s) && Injective(s)
    ensures Firsts(par, obj, g, s, d) + Repeats(par, obj, g, s, d) == SumUnder(par, d, Masked(g, s), |par|)
    decreases |s|
  {
    if |s| == 0 {
      SumUnderZero(par, d, Masked(g, s), |par|);
    } else {
      var x, r := s[|s| - 1], s[..|s| - 1];
      SumAlong(par, obj, g, r, d);
      SumUnderUpdate(par, d, Masked(g, r), x, g[x], |par|);
      assert s == r + [x];
      MaskedAppend(g, r, x);
    }
  }

  lemma {:induction false} SumUnderZero(par: seq<nat>, d: nat, f: seq<int>, m: nat)
    requires IsTree(par) && |f| == |par| && m <= |par|
    requires forall x :: 0 <= x < m ==> f[x] == 0
    ensures SumUnder(par, d, f, m) == 0
    decreases m
  {
    if m > 0 {
      SumUnderZero(par, d, f, m - 1);
    }
  }

  // ---- The sum does not depend on the visiting order

  /** Some alias of object `o` in the subtree of `d` occurs in `s`. */
  ghost predicate Present(par: seq<nat>, obj: seq<int>, s: seq<nat>, d: nat, o: nat)
    requires IsTree(par) && |obj| == |par| && Nodes(par, s)
  {
    exists i :: 0 <= i < |s| && Under(par, d, s[i]) && obj[s[i]] == o
  }

  /** The weights of the objects below number `k` that are present. */
  ghost function PerObject(par: seq<nat>, obj: seq<int>, w: seq<int>, s: seq<nat>, d: nat, k: nat): int
    requires IsTree(par) && |obj| == |par| && Nodes(par, s) && k <= |w|
    decreases k
  {
    if k == 0 then 0
    else PerObject(par, obj, w, s, d, k - 1) + (if Present(par, obj, s, d, k - 1) then w[k - 1] else 0)
  }

  ghost predicate Weighted(obj: seq<int>, g: seq<int>, w: seq<int>) {
    && |obj| == |g|
    && forall x :: 0 <= x < |obj| ==> obj[x] < |w| && (0 <= obj[x] ==> g[x] == w[obj[x]])
  }

  ghost function Alone(obj: seq<int>, g: seq<int>): (r: seq<int>)
    requires |obj| == |g|
    ensures |r| == |g| && forall x :: 0 <= x < |g| ==> r[x] == if obj[x] < 0 then g[x] else 0
  {
    seq(|g|, x requires 0 <= x < |g| => if obj[x] < 0 then g[x] else 0)
  }

  lemma {:induction false} PerObjectStep(par: seq<nat>, obj: seq<int>, w: seq<int>, s: seq<nat>, x: nat, d: nat, k: nat)
    requires IsTree(par) && |obj| == |par| && Nodes(par, s) && x < |par| && k <= |w|
    ensures Nodes(par, s + [x])
    ensures PerObject(par, obj, w, s + [x], d, k)
         == PerObject(par, obj, w, s, d, k)
            + (if 0 <= obj[x] < k && Under(par, d, x) && !Present(par, obj, s, d, obj[x]) then w[obj[x]] else 0)
    decreases k
  {
    if k > 0 {
      PerObjectStep(par, obj, w, s, x, d, k - 1);
      var o, t := k - 1, s + [x];
      assert Present(par, obj, t, d, o) <==> Present(par, obj, s, d, o) || (Under(par, d, x) && obj[x] == o) by {
        if Present(par, obj, s, d, o) {
          var i :| 0 <= i < |s| && Under(par, d, s[i]) && obj[s[i]] == o;
          assert t[i] == s[i];
        }
        assert t[|s|] == x;
      }
    }
  }

  lemma {:induction false} FirstsPerObject(par: seq<nat>, obj: seq<int>, g: seq<int>, w: seq<int>, s: seq<nat>, d: nat)
    requires IsTree(par) && |obj| == |g| == |par| && Nodes(par, s) && Injective(s) && Weighted(obj, g, w)
    ensures Firsts(par, obj, g, s, d)
         == SumUnder(par, d, Masked(Alone(obj, g), s), |par|) + PerObject(par, obj, w, s, d, |w|)
    decreases |s|
  {
    if |s| == 0 {
      SumUnderZero(par, d, Masked(Alone(obj, g), s), |par|);
      PerObjectEmpty(par, obj, w, d, |w|);
    } else {
      var x, r := s[|s| - 1], s[..|s| - 1];
      var a := Alone(obj, g);
      assert s == r + [x];
      FirstsPerObject(par, obj, g, w, r, d);
      SumUnderUpdate(par, d, Masked(a, r), x, a[x], |par|);
      MaskedAppend(a, r, x);
      PerObjectStep(par, obj, w, r, x, d, |w|);
      assert 0 <= obj[x] ==> (Seen(par, obj, r, d, x) <==> Present(par, obj, r, d, obj[x]));
    }
  }

  lemma {:induction false} PerObjectEmpty(par: seq<nat>, obj: seq<int>, w: seq<int>, d: nat, k: nat)
    requires IsTree(par) && |obj| == |par| && k <= |w|
    ensures PerObject(par, obj, w, [], d, k) == 0
    decreases k
  {
    if k > 0 {
      PerObjectEmpty(par, obj, w, d, k - 1);
    }
  }

  lemma {:induction false} PerObjectSameNodes(par: seq<nat>, obj: seq<int>, w: seq<int>, s: seq<nat>, t: seq<nat>, d: nat, k: nat)
    requires IsTree(par) && |obj| == |par| && Nodes(par, s) && Nodes(par, t) && k <= |w|
    requires forall x :: x in s <==> x in t
    ensures PerObject(par, obj, w, s, d, k) == PerObject(par, obj, w, t, d, k)
    decreases k
  {
    if k > 0 {
      PerObjectSameNodes(par, obj, w, s, t, d, k - 1);
      PresentMembers(par, obj, s, d, k - 1);
      PresentMembers(par, obj, t, d, k - 1);
    }
  }

  lemma PresentMembers(par: seq<nat>, obj: seq<int>, s: seq<nat>, d: nat, o: nat)
    requires IsTree(par) && |obj| == |par| && Nodes(par, s)
    ensures Present(par, obj, s, d, o) <==> exists x :: x in s && Under(par, d, x) && obj[x] == o
  {
    if exists x :: x in s && Under(par, d, x) && obj[x] == o {
      var x :| x in s && Under(par, d, x) && obj[x] == o;
      var i :| 0 <= i < |s| && s[i] == x;
    }
    if Present(par, obj, s, d, o) {
      var i :| 0 <= i < |s| && Under(par, d, s[i]) && obj[s[i]] == o;
      assert s[i] in s;
    }
  }

  lemma FirstsOrderIndependent(par: seq<nat>, obj: seq<int>, g: seq<int>, w: seq<int>, s: seq<nat>, t: seq<nat>, d: nat)
    requires IsTree(par) && |obj| == |g| == |par| && Weighted(obj, g, w)
    requires Nodes(par, s) && Injective(s) && Nodes(par, t) && Injective(t)
    requires forall x :: x in s <==> x in t
    ensures Firsts(par, obj, g, s, d) == Firsts(par, obj, g, t, d)
  {
    FirstsPerObject(par, obj, g, w, s, d);
    FirstsPerObject(par, obj, g, w, t, d);
    PerObjectSameNodes(par, obj, w, s, t, d, |w|);
    assert Masked(Alone(obj, g), s) == Masked(Alone(obj, g), t);
  }

  ghost function Upto(m: nat): (r: seq<nat>)
    ensures |r| == m && forall i :: 0 <= i < m ==> r[i] == i
  {
    seq(m, i requires 0 <= i < m => i)
  }

  lemma {:induction false} DistinctSumIsFirsts(par: seq<nat>, obj: seq<int>, g: seq<int>, d: nat, m: nat)
    requires IsTree(par) && |obj| == |g| == |par| && m <= |par|
    ensures DistinctSum(par, obj, g, d, m) == Firsts(par, obj, g, Upto(m), d)
    decreases m
  {
    if m > 0 {
      DistinctSumIsFirsts(par, obj, g, d, m - 1);
      var r := Upto(m - 1);
      assert Upto(m)[..m - 1] == r;
      assert MetBefore(par, obj, d, m - 1) <==> Seen(par, obj, r, d, m - 1) by {
        if MetBefore(par, obj, d, m - 1) {
          var y :| 0 <= y < m - 1 && Under(par, d, y) && SameObject(obj, y, m - 1);
          assert r[y] == y;
        }
      }
    }
  }

  /** A visiting order `s` of all entries, with a correction `delta` that takes every repeat back. */
  lemma CorrectedSumIsDistinct(par: seq<nat>, obj: seq<int>, g: seq<int>, w: seq<int>, s: seq<nat>, delta: seq<int>, d: nat)
    requires IsTree(par) && |obj| == |g| == |par| == |delta| && Weighted(obj, g, w)
    requires Nodes(par, s) && Injective(s)
    requires forall x: nat :: x < |par| ==> x in s
    requires SumUnder(par, d, delta, |par|) == -Repeats(par, obj, g, s, d)
    ensures SumUnder(par, d, g, |par|) + SumUnder(par, d, delta, |par|)
         == DistinctSum(par, obj, g, d, |par|)
  {
    var t := Upto(|par|);
    assert forall x :: x in t <==> x in s by {
      forall x: nat | x in s ensures x in t { assert t[x] == x; }
    }
    SumAlong(par, obj, g, s, d);
    assert Masked(g, s) == g;
    FirstsOrderIndependent(par, obj, g, w, s, t, d);
    DistinctSumIsFirsts(par, obj, g, d, |par|);
  }

  // ---- Bounds

  lemma {:induction false} DistinctNonNegative(par: seq<nat>, obj: seq<int>, g: seq<int>, d: nat, m: nat)
    requires IsTree(par) && |obj| == |g| == |par| && m <= |par|
    requires forall x :: 0 <= x < m ==> 0 <= g[x]
    ensures 0 <= DistinctSum(par, obj, g, d, m)
    decreases m
  {
    if m > 0 {
      DistinctNonNegative(par, obj, g, d, m - 1);
    }
  }

  lemma MaskedAll(f: seq<int>)
    ensures Masked(f, Upto(|f|)) == f
  {
    forall x | 0 <= x < |f|
      ensures x in Upto(|f|)
    {
      assert Upto(|f|)[x] == x;
    }
  }

  lemma DistinctPerObject(par: seq<nat>, obj: seq<int>, g: seq<int>, w: seq<int>, d: nat)
    requires IsTree(par) && |obj| == |g| == |par| && Weighted(obj, g, w)
    ensures DistinctSum(par, obj, g, d, |par|)
         == SumUnder(par, d, Alone(obj, g), |par|) + PerObject(par, obj, w, Upto(|par|), d, |w|)
  {
    DistinctSumIsFirsts(par, obj, g, d, |par|);
    FirstsPerObject(par, obj, g, w, Upto(|par|), d);
    MaskedAll(Alone(obj, g));
  }

  lemma {:induction false} PerObjectMonotone(par: seq<nat>, obj: seq<int>, w: seq<int>, s: seq<nat>, d: nat, e: nat, k: nat)
    requires IsTree(par) && |obj| == |par| && Nodes(par, s) && k <= |w| && d < |par| && Under(par, e, d)
    requires forall o :: 0 <= o < |w| ==> 0 <= w[o]
    ensures PerObject(par, obj, w, s, d, k) <= PerObject(par, obj, w, s, e, k)
    decreases k
  {
    if k > 0 {
      PerObjectMonotone(par, obj, w, s, d, e, k - 1);
      if Present(par, obj, s, d, k - 1) {
        var i :| 0 <= i < |s| && Under(par, d, s[i]) && obj[s[i]] == k - 1;
        UnderTransitive(par, e, d, s[i]);
      }
    }
  }

  /** A larger scope never counts less. */
  lemma DistinctMonotone(par: seq<nat>, obj: seq<int>, g: seq<int>, w: seq<int>, d: nat, e: nat)
    requires IsTree(par) && |obj| == |g| == |par| && Weighted(obj, g, w) && d < |par| && Under(par, e, d)
    requires forall x :: 0 <= x < |g| ==> 0 <= g[x]
    requires forall o :: 0 <= o < |w| ==> 0 <= w[o]
    ensures DistinctSum(par, obj, g, d, |par|) <= DistinctSum(par, obj, g, e, |par|)
  {
    DistinctPerObject(par, obj, g, w, d);
    DistinctPerObject(par, obj, g, w, e);
    PerObjectMonotone(par, obj, w, Upto(|par|), d, e, |w|);
    SumUnderMonotone(par, d, e, Alone(obj, g), Alone(obj, g), |par|);
  }

  lemma {:induction false} DistinctChildless(par: seq<nat>, obj: seq<int>, g: seq<int>, d: nat, m: nat)
    requires IsTree(par) && |obj| == |g| == |par| && m <= |par| && d < |par|
    requires forall x :: 0 <= x < |par| ==> (Under(par, d, x) <==> x == d)
    ensures DistinctSum(par, obj, g, d, m) == if d < m then g[d] else 0
    decreases m
  {
    if m > 0 {
      DistinctChildless(par, obj, g, d, m - 1);
    }
  }

  /** `f` restricted to entries whose object number lies below `k`. */
  ghost function ObjectsBelow(obj: seq<int>, f: seq<int>, k: nat): (r: seq<int>)
    requires |obj| == |f|
    ensures |r| == |f| && forall x :: 0 <= x < |f| ==> r[x] == if 0 <= obj[x] < k then f[x] else 0
  {
    seq(|f|, x requires 0 <= x < |f| => if 0 <= obj[x] < k then f[x] else 0)
  }

  /** Some alias of object `o` in the subtree of `d` refers to at least the weight of `o`. */
  ghost predicate Covers(par: seq<nat>, obj: seq<int>, w: seq<int>, f: seq<int>, d: nat, o: nat)
    requires IsTree(par) && |obj| == |f| == |par| && o < |w|
  {
    exists x :: 0 <= x < |par| && Under(par, d, x) && obj[x] == o && w[o] <= f[x]
  }

  /** The weight of every present object is covered by one of its aliases in the subtree. */
  lemma {:induction false} PerObjectCovered(par: seq<nat>, obj: seq<int>, w: seq<int>, f: seq<int>, s: seq<nat>, d: nat, k: nat)
    requires IsTree(par) && |obj| == |f| == |par| && Nodes(par, s) && k <= |w| && d < |par|
    requires forall x :: 0 <= x < |par| ==> 0 <= f[x]
    requires forall o :: 0 <= o < |w| && Present(par, obj, s, d, o) ==> w[o] == 0 || Covers(par, obj, w, f, d, o)
    ensures PerObject(par, obj, w, s, d, k) <= SumUnder(par, d, ObjectsBelow(obj, f, k), |par|)
    decreases k
  {
    if k == 0 {
      SumUnderZero(par, d, ObjectsBelow(obj, f, 0), |par|);
    } else {
      PerObjectCovered(par, obj, w, f, s, d, k - 1);
      var a, b := ObjectsBelow(obj, f, k - 1), ObjectsBelow(obj, f, k);
      if Present(par, obj, s, d, k - 1) && w[k - 1] != 0 {
        var x :| 0 <= x < |par| && Under(par, d, x) && obj[x] == k - 1 && w[k - 1] <= f[x];
        SumUnderUpdate(par, d, a, x, f[x], |par|);
        SumUnderMonotone(par, d, d, a[x := f[x]], b, |par|);
      } else {
        SumUnderMonotone(par, d, d, a, b, |par|);
      }
    }
  }

  /** Counting each object of a subtree once at its weight does not exceed what the entries there refer to,
      if one alias there covers the weight. */
  lemma DistinctCovered(par: seq<nat>, obj: seq<int>, g: seq<int>, w: seq<int>, f: seq<int>, d: nat)
    requires IsTree(par) && |obj| == |g| == |f| == |par| && Weighted(obj, g, w) && d < |par|
    requires forall x :: 0 <= x < |par| ==> 0 <= f[x] && (obj[x] < 0 ==> g[x] <= f[x])
    requires forall o :: 0 <= o < |w| && Present(par, obj, Upto(|par|), d, o) ==> w[o] == 0 || Covers(par, obj, w, f, d, o)
    ensures DistinctSum(par, obj, g, d, |par|) <= SumUnder(par, d, f, |par|)
  {
    DistinctPerObject(par, obj, g, w, d);
    PerObjectCovered(par, obj, w, f, Upto(|par|), d, |w|);
    var below := ObjectsBelow(obj, f, |w|);
    SumUnderAdd(par, d, Alone(obj, f), below, f, |par|);
    SumUnderMonotone(par, d, d, Alone(obj, g), Alone(obj, f), |par|);
  }
}
