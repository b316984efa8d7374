/** Phase 2 of `compute_aggregates`: one iterative depth-first search that yields the post-order
    and, through an offline lowest-common-ancestor computation, one negative correction for every
    repeated alias of an object. */
module Tarjan {
  import opened Words
  import opened Graph
  import opened Forest
  import opened Distinct
  import opened UnionFind

  /** A stack frame: an entry on the current path and its next child to visit. */
  datatype Frame = Frame(idx: nat, next: nat)

  /** Where the traversal is with an entry: untouched, at a position of the path, or at a
      position of the post-order. */
  datatype Mark = Fresh | Open(k: nat) | Done(i: nat)

  /** The traversal state the invariants speak about. `starts[k]` is the length of the
      post-order when frame `k` was pushed; `blocks[i]` is where the block of `post[i]` begins. */
  datatype Walk = Walk(
    stack: seq<Frame>,
    starts: seq<nat>,
    post: seq<nat>,
    blocks: seq<nat>,
    mark: seq<Mark>)

  /** The marks, the path and the post-order describe one another. */
  ghost predicate MarksOk(n: nat, w: Walk) {
    && |w.mark| == n
    && (forall k :: 0 <= k < |w.stack| ==> w.stack[k].idx < n && w.mark[w.stack[k].idx] == Open(k))
    && (forall i :: 0 <= i < |w.post| ==> w.post[i] < n && w.mark[w.post[i]] == Done(i))
    && (forall x :: 0 <= x < n ==> MarkOk(w, x))
  }

  ghost predicate MarkOk(w: Walk, x: nat)
    requires x < |w.mark|
  {
    match w.mark[x]
    case Fresh => true
    case Open(k) => k < |w.stack| && w.stack[k].idx == x
    case Done(i) => i < |w.post| && w.post[i] == x
  }

  /** The stack is a path from the root; touched entries have touched parents and finished
      entries have finished children. */
  ghost predicate ShapeOk(par: seq<nat>, w: Walk)
    requires IsTree(par) && MarksOk(|par|, w)
  {
    && (|w.stack| > 0 ==> w.stack[0].idx == 0)
    && (forall j, k :: 0 <= j && j + 1 == k < |w.stack| ==>
          w.stack[k].idx > 0 && par[w.stack[k].idx] == w.stack[j].idx)
    && (forall x :: 0 < x < |par| ==> LinkOk(par, w, x))
    && !w.mark[0].Fresh?
  }

  ghost predicate LinkOk(par: seq<nat>, w: Walk, x: nat)
    requires IsTree(par) && MarksOk(|par|, w) && 0 < x < |par|
  {
    && (!w.mark[x].Fresh? ==> !w.mark[par[x]].Fresh?)
    && (w.mark[par[x]].Done? ==> w.mark[x].Done?)
  }

  /** Among the children of path entry `k`, those before `next` are done (or are the next entry
      of the path) and the others are untouched. */
  ghost predicate PendingOk(par: seq<nat>, w: Walk, k: nat)
    requires IsTree(par) && MarksOk(|par|, w) && k < |w.stack|
  {
    var f := w.stack[k];
    && (f.next == NONE || (0 < f.next < |par| && par[f.next] == f.idx))
    && forall c :: 0 < c < |par| && par[c] == f.idx ==>
         if c < f.next then w.mark[c].Done? || w.mark[c] == Open(k + 1) else w.mark[c].Fresh?
  }

  /** Subtrees occupy contiguous blocks of the post-order: of an entry on the path the finished
      part is a suffix, of a finished entry the whole block ends at the entry. */
  ghost predicate BlocksOk(par: seq<nat>, w: Walk)
    requires IsTree(par) && MarksOk(|par|, w)
  {
    && |w.starts| == |w.stack| && |w.blocks| == |w.post|
    && (forall k :: 0 <= k < |w.stack| ==> SuffixOk(par, w.stack[k].idx, w.starts[k], w.post))
    && (forall i :: 0 <= i < |w.post| ==> BlockOk(par, w.post, i, w.blocks[i]))
  }

  ghost predicate SuffixOk(par: seq<nat>, d: nat, start: nat, post: seq<nat>)
    requires IsTree(par) && Nodes(par, post)
  {
    && start <= |post|
    && forall i :: 0 <= i < |post| ==> (Under(par, d, post[i]) <==> start <= i)
  }

  ghost predicate BlockOk(par: seq<nat>, post: seq<nat>, i: nat, start: nat)
    requires IsTree(par) && Nodes(par, post) && i < |post|
  {
    forall j :: 0 <= j < |post| ==> (Under(par, post[i], post[j]) <==> start <= j <= i)
  }

  ghost predicate WalkOk(par: seq<nat>, fc: seq<nat>, ns: seq<nat>, w: Walk) {
    && Linked(par, fc, ns)
    && MarksOk(|par|, w)
    && ShapeOk(par, w)
    && (forall k :: 0 <= k < |w.stack| ==> PendingOk(par, w, k))
    && BlocksOk(par, w)
  }

  // ---- The three moves of the traversal

  ghost function StartWalk(n: nat, first: nat): Walk
    requires n > 0
  {
    Walk([Frame(0, first)], [0], [], [], seq(n, x => if x == 0 then Open(0) else Fresh))
  }

  lemma StartIsOk(par: seq<nat>, fc: seq<nat>, ns: seq<nat>)
    requires Linked(par, fc, ns)
    ensures WalkOk(par, fc, ns, StartWalk(|par|, fc[0]))
  {
    assert FirstChildOk(par, 0, fc[0]);
  }

  ghost function Top(w: Walk): Frame
    requires |w.stack| > 0
  {
    w.stack[|w.stack| - 1]
  }

  /** Move the top frame on to the sibling of its next child `c` and put `c` on the path. */
  ghost function Push(w: Walk, fc: seq<nat>, ns: seq<nat>, c: nat): Walk
    requires |w.stack| > 0 && c < |ns| && c < |fc| && c < |w.mark|
  {
    var t := |w.stack| - 1;
    w.(stack := w.stack[t := Frame(w.stack[t].idx, ns[c])] + [Frame(c, fc[c])],
       starts := w.starts + [|w.post|],
       mark := w.mark[c := Open(|w.stack|)])
  }

  /** Finish the top frame. */
  ghost function Pop(w: Walk): Walk
    requires |w.stack| > 0 && |w.starts| == |w.stack| && Top(w).idx < |w.mark|
  {
    var t := |w.stack| - 1;
    var x := w.stack[t].idx;
    w.(stack := w.stack[..t],
       starts := w.starts[..t],
       post := w.post + [x],
       blocks := w.blocks + [w.starts[t]],
       mark := w.mark[x := Done(|w.post|)])
  }

  lemma {:induction false} TouchedUp(par: seq<nat>, w: Walk, a: nat, x: nat)
    requires IsTree(par) && MarksOk(|par|, w) && ShapeOk(par, w)
    requires x < |par| && Under(par, a, x) && !w.mark[x].Fresh?
    ensures a < |par| && !w.mark[a].Fresh?
    decreases x
  {
    if a != x {
      assert LinkOk(par, w, x);
      TouchedUp(par, w, a, par[x]);
    }
  }

  lemma {:induction false} FinishedDown(par: seq<nat>, w: Walk, a: nat, x: nat)
    requires IsTree(par) && MarksOk(|par|, w) && ShapeOk(par, w)
    requires a < |par| && x < |par| && Under(par, a, x) && w.mark[a].Done?
    ensures w.mark[x].Done?
    decreases x
  {
    if a != x {
      FinishedDown(par, w, a, par[x]);
      assert LinkOk(par, w, x);
    }
  }

  lemma {:induction false} PathUnder(par: seq<nat>, w: Walk, j: nat, k: nat)
    requires IsTree(par) && MarksOk(|par|, w) && ShapeOk(par, w) && j <= k < |w.stack|
    ensures Under(par, w.stack[j].idx, w.stack[k].idx)
    decreases k
  {
    if j < k {
      PathUnder(par, w, j, k - 1);
    }
  }

  /** The next child of the top frame has never been visited. */
  lemma NextIsFresh(par: seq<nat>, fc: seq<nat>, ns: seq<nat>, w: Walk)
    requires WalkOk(par, fc, ns, w) && |w.stack| > 0 && Top(w).next != NONE
    ensures 0 < Top(w).next < |par| && par[Top(w).next] == Top(w).idx && w.mark[Top(w).next].Fresh?
  {
    assert PendingOk(par, w, |w.stack| - 1);
  }

  lemma PushKeepsShape(par: seq<nat>, fc: seq<nat>, ns: seq<nat>, w: Walk, c: nat)
    requires WalkOk(par, fc, ns, w) && |w.stack| > 0 && Top(w).next == c != NONE
    ensures 0 < c < |par| && MarksOk(|par|, Push(w, fc, ns, c)) && ShapeOk(par, Push(w, fc, ns, c))
  {
    NextIsFresh(par, fc, ns, w);
    var w' := Push(w, fc, ns, c);
    forall x | 0 <= x < |par|
      ensures MarkOk(w', x)
    {
      assert MarkOk(w, x);
    }
    assert MarksOk(|par|, w');
    forall x | 0 < x < |par|
      ensures LinkOk(par, w', x)
    {
      assert LinkOk(par, w, x);
      assert LinkOk(par, w, c);
    }
  }

  lemma PushKeepsPending(par: seq<nat>, fc: seq<nat>, ns: seq<nat>, w: Walk, c: nat, k: nat)
    requires WalkOk(par, fc, ns, w) && |w.stack| > 0 && Top(w).next == c != NONE
    requires c < |par| && MarksOk(|par|, Push(w, fc, ns, c)) && k <= |w.stack|
    ensures PendingOk(par, Push(w, fc, ns, c), k)
  {
    NextIsFresh(par, fc, ns, w);
    var w' := Push(w, fc, ns, c);
    var t := |w.stack| - 1;
    if k < t {
      assert PendingOk(par, w, k);
      assert w'.stack[k] == w.stack[k];
      assert w.mark[w.stack[k].idx] == Open(k) && w.mark[w.stack[t].idx] == Open(t);
    } else if k == t {
      assert PendingOk(par, w, t);
      assert NextSiblingOk(par, c, ns[c]);
    } else {
      assert FirstChildOk(par, c, fc[c]);
      forall x | 0 < x < |par| && par[x] == c
        ensures w'.mark[x].Fresh?
      {
        assert LinkOk(par, w, x);
      }
    }
  }

  lemma PushIsOk(par: seq<nat>, fc: seq<nat>, ns: seq<nat>, w: Walk, c: nat)
    requires WalkOk(par, fc, ns, w) && |w.stack| > 0 && Top(w).next == c != NONE
    ensures 0 < c < |par| && WalkOk(par, fc, ns, Push(w, fc, ns, c))
  {
    PushKeepsShape(par, fc, ns, w, c);
    var w' := Push(w, fc, ns, c);
    forall k | 0 <= k < |w'.stack|
      ensures PendingOk(par, w', k)
    {
      PushKeepsPending(par, fc, ns, w, c, k);
    }
    NextIsFresh(par, fc, ns, w);
    forall i | 0 <= i < |w.post|
      ensures !Under(par, c, w.post[i])
    {
      if Under(par, c, w.post[i]) {
        TouchedUp(par, w, c, w.post[i]);
      }
    }
    assert BlocksOk(par, w') by {
      forall k | 0 <= k < |w'.stack|
        ensures SuffixOk(par, w'.stack[k].idx, w'.starts[k], w'.post)
      {
        if k < |w.stack| {
          assert SuffixOk(par, w.stack[k].idx, w.starts[k], w.post);
        }
      }
    }
  }

  lemma PopKeepsMarks(par: seq<nat>, w: Walk)
    requires IsTree(par) && MarksOk(|par|, w) && |w.stack| > 0 && |w.starts| == |w.stack|
    ensures MarksOk(|par|, Pop(w))
  {
    var w' := Pop(w);
    forall x | 0 <= x < |par|
      ensures MarkOk(w', x)
    {
      assert MarkOk(w, x);
    }
  }

  /** All children of a top frame without a next child are finished. */
  lemma ChildrenDone(par: seq<nat>, fc: seq<nat>, ns: seq<nat>, w: Walk, x: nat)
    requires WalkOk(par, fc, ns, w) && |w.stack| > 0 && Top(w).next == NONE
    requires 0 < x < |par| && par[x] == Top(w).idx
    ensures w.mark[x].Done?
  {
    assert PendingOk(par, w, |w.stack| - 1);
    assert MarkOk(w, x);
  }

  lemma PopKeepsShape(par: seq<nat>, fc: seq<nat>, ns: seq<nat>, w: Walk)
    requires WalkOk(par, fc, ns, w) && |w.stack| > 0 && Top(w).next == NONE
    requires MarksOk(|par|, Pop(w))
    ensures ShapeOk(par, Pop(w))
  {
    var w' := Pop(w);
    forall x | 0 < x < |par|
      ensures LinkOk(par, w', x)
    {
      assert LinkOk(par, w, x);
      if par[x] == Top(w).idx {
        ChildrenDone(par, fc, ns, w, x);
      }
    }
    forall j, k | 0 <= j && j + 1 == k < |w'.stack|
      ensures w'.stack[k].idx > 0 && par[w'.stack[k].idx] == w'.stack[j].idx
    {
      assert w'.stack[k] == w.stack[k] && w'.stack[j] == w.stack[j];
    }
  }

  lemma PopKeepsBlocks(par: seq<nat>, fc: seq<nat>, ns: seq<nat>, w: Walk)
    requires WalkOk(par, fc, ns, w) && |w.stack| > 0
    requires MarksOk(|par|, Pop(w))
    ensures BlocksOk(par, Pop(w))
  {
    var w' := Pop(w);
    forall k | 0 <= k < |w'.stack|
      ensures SuffixOk(par, w'.stack[k].idx, w'.starts[k], w'.post)
    {
      OldSuffix(par, fc, ns, w, k);
    }
    forall i | 0 <= i < |w'.post|
      ensures BlockOk(par, w'.post, i, w'.blocks[i])
    {
      if i < |w.post| {
        OldBlock(par, fc, ns, w, i);
      } else {
        NewBlock(par, fc, ns, w);
      }
    }
  }

  lemma OldSuffix(par: seq<nat>, fc: seq<nat>, ns: seq<nat>, w: Walk, k: nat)
    requires WalkOk(par, fc, ns, w) && k < |w.stack| - 1
    ensures Nodes(par, w.post + [Top(w).idx])
    ensures SuffixOk(par, w.stack[k].idx, w.starts[k], w.post + [Top(w).idx])
  {
    assert SuffixOk(par, w.stack[k].idx, w.starts[k], w.post);
    PathUnder(par, w, k, |w.stack| - 1);
  }

  lemma NewBlock(par: seq<nat>, fc: seq<nat>, ns: seq<nat>, w: Walk)
    requires WalkOk(par, fc, ns, w) && |w.stack| > 0
    ensures Nodes(par, w.post + [Top(w).idx])
    ensures BlockOk(par, w.post + [Top(w).idx], |w.post|, w.starts[|w.stack| - 1])
  {
    assert SuffixOk(par, Top(w).idx, w.starts[|w.stack| - 1], w.post);
  }

  /** The block of an entry finished earlier does not grow. */
  lemma OldBlock(par: seq<nat>, fc: seq<nat>, ns: seq<nat>, w: Walk, i: nat)
    requires WalkOk(par, fc, ns, w) && |w.stack| > 0 && i < |w.post|
    ensures Nodes(par, w.post + [Top(w).idx])
    ensures BlockOk(par, w.post + [Top(w).idx], i, w.blocks[i])
  {
    assert BlockOk(par, w.post, i, w.blocks[i]);
    if Under(par, w.post[i], Top(w).idx) {
      FinishedDown(par, w, w.post[i], Top(w).idx);
    }
  }

  lemma PopIsOk(par: seq<nat>, fc: seq<nat>, ns: seq<nat>, w: Walk)
    requires WalkOk(par, fc, ns, w) && |w.stack| > 0 && Top(w).next == NONE
    ensures WalkOk(par, fc, ns, Pop(w))
  {
    PopKeepsMarks(par, w);
    PopKeepsShape(par, fc, ns, w);
    PopKeepsBlocks(par, fc, ns, w);
    var w' := Pop(w);
    forall k | 0 <= k < |w'.stack|
      ensures PendingOk(par, w', k)
    {
      assert PendingOk(par, w, k);
    }
  }

  /** With an empty path every entry is finished. */
  lemma {:induction false} AllFinished(par: seq<nat>, fc: seq<nat>, ns: seq<nat>, w: Walk, x: nat)
    requires WalkOk(par, fc, ns, w) && w.stack == [] && x < |par|
    ensures w.mark[x].Done?
    decreases x
  {
    if x == 0 {
      assert MarkOk(w, 0);
    } else {
      AllFinished(par, fc, ns, w, par[x]);
      assert LinkOk(par, w, x);
    }
  }

  // ---- Representatives: the lowest unfinished ancestor

  ghost function Rep(par: seq<nat>, mark: seq<Mark>, x: nat): (r: nat)
    requires IsTree(par) && |mark| == |par| && x < |par|
    ensures r <= x
    decreases x
  {
    if x == 0 || !mark[x].Done? then x else Rep(par, mark, par[x])
  }

  lemma {:induction false} RepIsAncestor(par: seq<nat>, mark: seq<Mark>, x: nat)
    requires IsTree(par) && |mark| == |par| && x < |par|
    ensures Under(par, Rep(par, mark, x), x)
    ensures Rep(par, mark, x) == 0 || !mark[Rep(par, mark, x)].Done?
    decreases x
  {
    if x > 0 && mark[x].Done? {
      RepIsAncestor(par, mark, par[x]);
    }
  }

  lemma {:induction false} RepIsLowest(par: seq<nat>, mark: seq<Mark>, d: nat, x: nat)
    requires IsTree(par) && |mark| == |par| && x < |par| && d < |par|
    requires Under(par, d, x) && !mark[d].Done?
    ensures Under(par, d, Rep(par, mark, x))
    decreases x
  {
    if x > 0 && mark[x].Done? {
      RepIsLowest(par, mark, d, par[x]);
    }
  }

  /** Finishing `c` hands everything it represented to its parent. */
  lemma {:induction false} RepFinish(par: seq<nat>, mark: seq<Mark>, c: nat, i: nat, x: nat)
    requires IsTree(par) && |mark| == |par| && x < |par| && 0 < c < |par|
    requires !mark[c].Done? && !mark[par[c]].Done?
    ensures Rep(par, mark[c := Done(i)], x)
         == if Rep(par, mark, x) == c then par[c] else Rep(par, mark, x)
    decreases x
  {
    if x > 0 && (mark[x].Done? || x == c) {
      RepFinish(par, mark, c, i, par[x]);
      RepIsAncestor(par, mark, par[x]);
    }
  }

  lemma {:induction false} RepSame(par: seq<nat>, mark: seq<Mark>, mark': seq<Mark>, x: nat)
    requires IsTree(par) && |mark| == |mark'| == |par| && x < |par|
    requires forall y :: 0 < y < |par| ==> (mark[y].Done? <==> mark'[y].Done?)
    ensures Rep(par, mark', x) == Rep(par, mark, x)
    decreases x
  {
    if x > 0 && mark[x].Done? {
      RepSame(par, mark, mark', par[x]);
    }
  }

  /** The union-find forest represents every entry by its lowest unfinished ancestor. */
  ghost predicate UfOk(par: seq<nat>, mark: seq<Mark>, uf: seq<nat>)
    requires IsTree(par) && |mark| == |par|
  {
    && |uf| == |par| && Descending(uf)
    && forall x :: 0 <= x < |par| ==> Root(uf, x) == Rep(par, mark, x)
  }

  /** Every ancestor of the top of the path is on the path. */
  lemma {:induction false} AncestorsOpen(par: seq<nat>, w: Walk, d: nat, k: nat)
    requires IsTree(par) && MarksOk(|par|, w) && ShapeOk(par, w) && k < |w.stack|
    requires Under(par, d, w.stack[k].idx)
    ensures d < |par| && w.mark[d].Open?
    decreases k
  {
    if d != w.stack[k].idx {
      AncestorsOpen(par, w, d, k - 1);
    }
  }

  /** The representative of a finished entry is its lowest common ancestor with the top of the path. */
  lemma RepIsLca(par: seq<nat>, w: Walk, x: nat)
    requires IsTree(par) && MarksOk(|par|, w) && ShapeOk(par, w) && |w.stack| > 0
    requires x < |par| && w.mark[x].Done?
    ensures var lca := Rep(par, w.mark, x);
      && Under(par, lca, x) && Under(par, lca, Top(w).idx)
      && forall d :: 0 <= d < |par| && Under(par, d, x) && Under(par, d, Top(w).idx) ==> Under(par, d, lca)
  {
    var lca := Rep(par, w.mark, x);
    RepIsAncestor(par, w.mark, x);
    TouchedUp(par, w, lca, x);
    assert w.mark[0] == Open(0);
    assert MarkOk(w, lca);
    PathUnder(par, w, w.mark[lca].k, |w.stack| - 1);
    forall d | 0 <= d < |par| && Under(par, d, x) && Under(par, d, Top(w).idx)
      ensures Under(par, d, lca)
    {
      AncestorsOpen(par, w, d, |w.stack| - 1);
      RepIsLowest(par, w.mark, d, x);
    }
  }

  // ---- The corrections

  /** In every subtree the corrections so far take back exactly the repeats finished so far. */
  ghost predicate DeltaOk(par: seq<nat>, obj: seq<int>, g: seq<int>, delta: seq<int>, post: seq<nat>)
    requires IsTree(par) && |obj| == |g| == |par| && Nodes(par, post)
  {
    && |delta| == |par|
    && forall d :: 0 <= d < |par| ==> SumUnder(par, d, delta, |par|) == -Repeats(par, obj, g, post, d)
  }

  /** `last` is the last finished alias of object `o`; objects without weight are not recorded. */
  ghost predicate LastOk(par: seq<nat>, obj: seq<int>, g: seq<int>, post: seq<nat>, o: nat, last: Option<nat>)
    requires |obj| == |g| == |par| && Nodes(par, post)
  {
    match last
    case None => forall i :: 0 <= i < |post| && obj[post[i]] == o ==> g[post[i]] == 0
    case Some(p) => p < |g| && g[p] != 0 && exists q :: LastAt(par, obj, post, o, p, q)
  }

  ghost predicate LastAt(par: seq<nat>, obj: seq<int>, post: seq<nat>, o: nat, p: nat, q: nat)
    requires |obj| == |par| && Nodes(par, post)
  {
    && q < |post| && post[q] == p && obj[p] == o
    && forall j :: q < j < |post| ==> obj[post[j]] != o
  }

  /** A repeat at the top of the path is a repeat for exactly the ancestors of its lowest common
      ancestor with the last alias: any earlier alias in a subtree of the path comes no later in
      the post-order than the last one, so it puts the last one in that subtree too. */
  lemma RepeatAtLca(par: seq<nat>, fc: seq<nat>, ns: seq<nat>, w: Walk, obj: seq<int>, g: seq<int>, p: nat, d: nat)
    requires WalkOk(par, fc, ns, w) && |w.stack| > 0 && |obj| == |g| == |par| && d < |par|
    requires 0 <= obj[Top(w).idx] && LastOk(par, obj, g, w.post, obj[Top(w).idx], Some(p))
    ensures p < |par|
    ensures Under(par, d, Rep(par, w.mark, p))
       <==> Under(par, d, Top(w).idx) && Seen(par, obj, w.post, d, Top(w).idx)
  {
    var x := Top(w).idx;
    var q: nat :| LastAt(par, obj, w.post, obj[x], p, q);
    var lca := Rep(par, w.mark, p);
    RepIsLca(par, w, p);
    if Under(par, d, lca) {
      UnderTransitive(par, d, lca, p);
      UnderTransitive(par, d, lca, x);
      assert Under(par, d, w.post[q]) && SameObject(obj, w.post[q], x);
    }
    if Under(par, d, x) && Seen(par, obj, w.post, d, x) {
      var i :| 0 <= i < |w.post| && Under(par, d, w.post[i]) && SameObject(obj, w.post[i], x);
      AncestorsOpen(par, w, d, |w.stack| - 1);
      assert MarkOk(w, d);
      var k := w.mark[d].k;
      assert SuffixOk(par, w.stack[k].idx, w.starts[k], w.post);
      assert i <= q;
      assert Under(par, d, w.post[q]);
    }
  }

  /** A correction at `lca` accounts for one more visit of `x`, if it reaches exactly the subtrees
      in which `x` is a repeat. */
  lemma DeltaRepeat(par: seq<nat>, obj: seq<int>, g: seq<int>, delta: seq<int>, post: seq<nat>, x: nat, lca: nat)
    requires IsTree(par) && |obj| == |g| == |par| && Nodes(par, post) && x < |par| && lca < |par|
    requires DeltaOk(par, obj, g, delta, post)
    requires forall d :: 0 <= d < |par| ==> (Under(par, d, lca) <==> Under(par, d, x) && Seen(par, obj, post, d, x))
    ensures Nodes(par, post + [x]) && DeltaOk(par, obj, g, delta[lca := delta[lca] - g[x]], post + [x])
  {
    var delta' := delta[lca := delta[lca] - g[x]];
    forall d | 0 <= d < |par|
      ensures SumUnder(par, d, delta', |par|) == -Repeats(par, obj, g, post + [x], d)
    {
      SumUnderUpdate(par, d, delta, lca, delta[lca] - g[x], |par|);
      RepeatsAppend(par, obj, g, post, x, d);
    }
  }

  lemma DeltaFirst(par: seq<nat>, obj: seq<int>, g: seq<int>, delta: seq<int>, post: seq<nat>, x: nat)
    requires IsTree(par) && |obj| == |g| == |par| && Nodes(par, post) && x < |par|
    requires DeltaOk(par, obj, g, delta, post)
    requires 0 <= obj[x] ==> g[x] == 0 || forall i :: 0 <= i < |post| ==> obj[post[i]] != obj[x]
    ensures Nodes(par, post + [x]) && DeltaOk(par, obj, g, delta, post + [x])
  {
    forall d | 0 <= d < |par|
      ensures SumUnder(par, d, delta, |par|) == -Repeats(par, obj, g, post + [x], d)
    {
      RepeatsAppend(par, obj, g, post, x, d);
    }
  }

  // ---- The traversal itself

  /** The object of every file entry that has one, and the weight it contributes. */
  ghost predicate AliasData(entries: seq<CompactEntry>, objects: seq<ObjectRecord>, obj: seq<int>, g: seq<int>) {
    && |obj| == |g| == |entries|
    && forall x :: 0 <= x < |entries| ==>
         && obj[x] == (if IsAlias(entries[x]) then entries[x].objectIndex else -1)
         && obj[x] < |objects|
         && (0 <= obj[x] ==> g[x] == objects[obj[x]].weight)
  }

  predicate IsAlias(e: CompactEntry) {
    e.kind == EntryKind.File && e.objectIndex != NO_OBJECT
  }

  /** All entries, each once, every subtree a contiguous block that ends with its root. */
  ghost predicate PostOrder(par: seq<nat>, post: seq<nat>, blocks: seq<nat>)
    requires IsTree(par)
  {
    && Nodes(par, post) && Injective(post)
    && (forall x: nat :: x < |par| ==> x in post)
    && |blocks| == |post| == |par|
    && forall i :: 0 <= i < |post| ==> BlockOk(par, post, i, blocks[i])
  }

  lemma PostInjective(par: seq<nat>, w: Walk)
    requires IsTree(par) && MarksOk(|par|, w)
    ensures Injective(w.post)
  {
    forall i, j | 0 <= i < j < |w.post|
      ensures w.post[i] != w.post[j]
    {
      assert w.mark[w.post[i]] == Done(i) && w.mark[w.post[j]] == Done(j);
    }
  }

  lemma FinalOrder(par: seq<nat>, fc: seq<nat>, ns: seq<nat>, w: Walk)
    requires WalkOk(par, fc, ns, w) && w.stack == []
    ensures PostOrder(par, w.post, w.blocks)
  {
    forall x: nat | x < |par|
      ensures x in w.post
    {
      AllFinished(par, fc, ns, w, x);
      assert MarkOk(w, x);
    }
    PostInjective(par, w);
    InjectiveLength(w.post, |par|);
  }

  ghost function FreshCount(mark: seq<Mark>): nat {
    if |mark| == 0 then 0 else FreshCount(mark[..|mark| - 1]) + (if mark[|mark| - 1].Fresh? then 1 else 0)
  }

  lemma {:induction false} FreshCountUpdate(mark: seq<Mark>, x: nat, m: Mark)
    requires x < |mark| && !m.Fresh?
    ensures FreshCount(mark[x := m]) == FreshCount(mark) - (if mark[x].Fresh? then 1 else 0)
    decreases |mark|
  {
    var r := mark[..|mark| - 1];
    if x == |mark| - 1 {
      assert mark[x := m][..|mark| - 1] == r;
    } else {
      assert mark[x := m][..|mark| - 1] == r[x := m];
      FreshCountUpdate(r, x, m);
    }
  }

  ghost predicate VisitedOk(mark: seq<Mark>, visited: seq<bool>) {
    |visited| == |mark| && forall x :: 0 <= x < |mark| ==> (visited[x] <==> !mark[x].Fresh?)
  }

  /** `ancestor[find_uf(x)]` is the representative of `x`: the ancestor vector never leaves the identity. */
  ghost predicate RepsOk(par: seq<nat>, mark: seq<Mark>, ancestor: seq<nat>, uf: seq<nat>)
    requires IsTree(par) && |mark| == |par|
  {
    && |ancestor| == |par| && (forall x :: 0 <= x < |par| ==> ancestor[x] == x)
    && UfOk(par, mark, uf)
  }

  /** What the vectors over the post-order hold. */
  ghost predicate PostVectorsOk(par: seq<nat>, obj: seq<int>, g: seq<int>, post: seq<nat>, last: seq<Option<nat>>, delta: seq<int>)
    requires IsTree(par) && |obj| == |g| == |par| && Nodes(par, post)
  {
    && (forall o :: 0 <= o < |last| ==> LastOk(par, obj, g, post, o, last[o]))
    && DeltaOk(par, obj, g, delta, post)
    && (forall v :: 0 <= v < |delta| ==> -(|post| * TWO_64) <= delta[v] <= 0)
  }

  lemma PushKeepsReps(par: seq<nat>, mark: seq<Mark>, ancestor: seq<nat>, uf: seq<nat>, c: nat, k: nat)
    requires IsTree(par) && |mark| == |par| && 0 < c < |par| && mark[c].Fresh?
    requires RepsOk(par, mark, ancestor, uf)
    ensures RepsOk(par, mark[c := Open(k)], ancestor, uf)
  {
    forall x | 0 <= x < |par|
      ensures Root(uf, x) == Rep(par, mark[c := Open(k)], x)
    {
      RepSame(par, mark, mark[c := Open(k)], x);
    }
  }

  /** Uniting a finished entry with its parent. */
  lemma FinishKeepsReps(par: seq<nat>, mark: seq<Mark>, ancestor: seq<nat>, uf: seq<nat>, c: nat, i: nat)
    requires IsTree(par) && |mark| == |par| && 0 < c < |par|
    requires mark[c].Open? && mark[par[c]].Open?
    requires RepsOk(par, mark, ancestor, uf)
    ensures Root(uf, c) == c && Root(uf, par[c]) == par[c]
    ensures RepsOk(par, mark[c := Done(i)], ancestor, uf[c := par[c]])
  {
    assert Root(uf, c) == c && Root(uf, par[c]) == par[c];
    LinkRoots(uf, c, par[c], c);
    var uf', mark' := uf[c := par[c]], mark[c := Done(i)];
    forall x | 0 <= x < |par|
      ensures Root(uf', x) == Rep(par, mark', x)
    {
      LinkRoots(uf, c, par[c], x);
      RepFinish(par, mark, c, i, x);
    }
  }

  lemma FinishRootKeepsReps(par: seq<nat>, mark: seq<Mark>, ancestor: seq<nat>, uf: seq<nat>, i: nat)
    requires IsTree(par) && |mark| == |par| && mark[0].Open?
    requires RepsOk(par, mark, ancestor, uf)
    ensures RepsOk(par, mark[0 := Done(i)], ancestor, uf)
  {
    forall x | 0 <= x < |par|
      ensures Root(uf, x) == Rep(par, mark[0 := Done(i)], x)
    {
      RepSame(par, mark, mark[0 := Done(i)], x);
    }
  }

  /** Finishing `x` when its object is not recorded: it has none, or one without weight. */
  lemma LastSkip(par: seq<nat>, obj: seq<int>, g: seq<int>, post: seq<nat>, x: nat, o: nat, last: Option<nat>)
    requires |obj| == |g| == |par| && Nodes(par, post) && x < |par|
    requires LastOk(par, obj, g, post, o, last)
    requires obj[x] != o || (last.None? && g[x] == 0)
    ensures Nodes(par, post + [x]) && LastOk(par, obj, g, post + [x], o, last)
  {
    if last.Some? {
      var q: nat :| LastAt(par, obj, post, o, last.value, q);
      assert LastAt(par, obj, post + [x], o, last.value, q);
    }
  }

  lemma LastRecord(par: seq<nat>, obj: seq<int>, g: seq<int>, post: seq<nat>, x: nat, o: nat)
    requires |obj| == |g| == |par| && Nodes(par, post) && x < |par| && obj[x] == o && g[x] != 0
    ensures Nodes(par, post + [x]) && LastOk(par, obj, g, post + [x], o, Some(x))
  {
    assert LastAt(par, obj, post + [x], o, x, |post|);
  }

  /** Every vector over the post-order survives finishing an entry that is not recorded. */
  lemma SkipKeepsPost(par: seq<nat>, obj: seq<int>, g: seq<int>, post: seq<nat>, x: nat, last: seq<Option<nat>>, delta: seq<int>)
    requires IsTree(par) && |obj| == |g| == |par| && Nodes(par, post) && x < |par|
    requires PostVectorsOk(par, obj, g, post, last, delta)
    requires obj[x] < 0 || g[x] == 0
    requires forall y :: 0 <= y < |par| && 0 <= obj[y] == obj[x] ==> g[y] == g[x]
    ensures Nodes(par, post + [x]) && PostVectorsOk(par, obj, g, post + [x], last, delta)
  {
    DeltaFirst(par, obj, g, delta, post, x);
    forall o | 0 <= o < |last|
      ensures LastOk(par, obj, g, post + [x], o, last[o])
    {
      assert LastOk(par, obj, g, post, o, last[o]);
      LastSkip(par, obj, g, post, x, o, last[o]);
    }
  }

  lemma RecordKeepsPost(par: seq<nat>, obj: seq<int>, g: seq<int>, post: seq<nat>, x: nat,
                        last: seq<Option<nat>>, delta: seq<int>, delta': seq<int>)
    requires IsTree(par) && |obj| == |g| == |par| && Nodes(par, post) && x < |par|
    requires PostVectorsOk(par, obj, g, post, last, delta)
    requires 0 <= obj[x] < |last| && g[x] != 0
    requires Nodes(par, post + [x]) && DeltaOk(par, obj, g, delta', post + [x])
    requires forall v :: 0 <= v < |delta'| ==> -((|post| + 1) * TWO_64) <= delta'[v] <= 0
    ensures PostVectorsOk(par, obj, g, post + [x], last[obj[x] := Some(x)], delta')
  {
    var last' := last[obj[x] := Some(x)];
    forall o | 0 <= o < |last'|
      ensures LastOk(par, obj, g, post + [x], o, last'[o])
    {
      if o == obj[x] {
        LastRecord(par, obj, g, post, x, o);
      } else {
        assert LastOk(par, obj, g, post, o, last[o]);
        LastSkip(par, obj, g, post, x, o, last[o]);
      }
    }
  }

  /** One correction at the representative of the last alias accounts for the top of the path. */
  lemma RepeatKeepsPost(par: seq<nat>, fc: seq<nat>, ns: seq<nat>, w: Walk, obj: seq<int>, g: seq<int>,
                        last: seq<Option<nat>>, delta: seq<int>, prev: nat)
    requires WalkOk(par, fc, ns, w) && |w.stack| > 0 && |obj| == |g| == |par|
    requires PostVectorsOk(par, obj, g, w.post, last, delta)
    requires 0 <= obj[Top(w).idx] < |last| && last[obj[Top(w).idx]] == Some(prev) && 0 < g[Top(w).idx] <= U64_MAX
    ensures prev < |par| && Nodes(par, w.post + [Top(w).idx])
    ensures var curr, lca := Top(w).idx, Rep(par, w.mark, prev);
      && -((|w.post| + 1) * TWO_64) <= delta[lca] - g[curr]
      && PostVectorsOk(par, obj, g, w.post + [curr], last[obj[curr] := Some(curr)], delta[lca := delta[lca] - g[curr]])
  {
    var curr := Top(w).idx;
    assert LastOk(par, obj, g, w.post, obj[curr], Some(prev));
    var lca := Rep(par, w.mark, prev);
    forall d | 0 <= d < |par|
      ensures Under(par, d, lca) <==> Under(par, d, curr) && Seen(par, obj, w.post, d, curr)
    {
      RepeatAtLca(par, fc, ns, w, obj, g, prev, d);
    }
    DeltaRepeat(par, obj, g, delta, w.post, curr, lca);
    RecordKeepsPost(par, obj, g, w.post, curr, last, delta, delta[lca := delta[lca] - g[curr]]);
  }

  lemma FirstKeepsPost(par: seq<nat>, obj: seq<int>, g: seq<int>, post: seq<nat>, x: nat, last: seq<Option<nat>>, delta: seq<int>)
    requires IsTree(par) && |obj| == |g| == |par| && Nodes(par, post) && x < |par|
    requires PostVectorsOk(par, obj, g, post, last, delta)
    requires 0 <= obj[x] < |last| && last[obj[x]] == None && 0 < g[x]
    requires forall y :: 0 <= y < |par| && 0 <= obj[y] == obj[x] ==> g[y] == g[x]
    ensures Nodes(par, post + [x]) && PostVectorsOk(par, obj, g, post + [x], last[obj[x] := Some(x)], delta)
  {
    assert LastOk(par, obj, g, post, obj[x], None);
    DeltaFirst(par, obj, g, delta, post, x);
    RecordKeepsPost(par, obj, g, post, x, last, delta, delta);
  }

  lemma AliasWeights(entries: seq<CompactEntry>, objects: seq<ObjectRecord>, obj: seq<int>, g: seq<int>, x: nat)
    requires AliasData(entries, objects, obj, g) && x < |entries|
    ensures forall y :: 0 <= y < |entries| && 0 <= obj[y] == obj[x] ==> g[y] == g[x]
    ensures IsAlias(entries[x]) ==>
      0 <= obj[x] < |objects| && obj[x] == entries[x].objectIndex && g[x] == objects[obj[x]].weight
    ensures !IsAlias(entries[x]) ==> obj[x] == -1
  {
  }

  /** The object bookkeeping for the entry at the top of the path, just before it is finished. */
  method Settle(curr: nat, entries: seq<CompactEntry>, objects: seq<ObjectRecord>, ancestor: seq<nat>, ufParent: array<nat>,
                lastOccurrence: seq<Option<nat>>, treeDelta: seq<int>,
                ghost par: seq<nat>, ghost fc: seq<nat>, ghost ns: seq<nat>, ghost obj: seq<int>, ghost g: seq<int>, ghost w: Walk)
    returns (delta: seq<int>, last: seq<Option<nat>>)
    requires WalkOk(par, fc, ns, w) && |w.stack| > 0 && Top(w).idx == curr
    requires |entries| == |par| && AliasData(entries, objects, obj, g) && |w.post| <= |par|
    requires RepsOk(par, w.mark, ancestor, ufParent[..])
    requires |lastOccurrence| == |objects| && PostVectorsOk(par, obj, g, w.post, lastOccurrence, treeDelta)
    modifies ufParent
    ensures RepsOk(par, w.mark, ancestor, ufParent[..])
    ensures |last| == |objects|
    ensures Nodes(par, w.post + [curr]) && PostVectorsOk(par, obj, g, w.post + [curr], last, delta)
  {
    delta, last := treeDelta, lastOccurrence;
    var compact := entries[curr];
    AliasWeights(entries, objects, obj, g, curr);
    if compact.kind == EntryKind.File && compact.objectIndex != NO_OBJECT {
      var objIdx := compact.objectIndex;
      var weight := objects[objIdx].weight;
      if weight > 0 {
        if last[objIdx].Some? {
          var prev := last[objIdx].value;
          RepeatKeepsPost(par, fc, ns, w, obj, g, last, delta, prev);
          var rep := FindUf(ufParent, prev);
          var lca := ancestor[rep];
          assert I128_MIN <= delta[lca] - weight <= I128_MAX;
          delta := delta[lca := delta[lca] - weight];
        } else {
          FirstKeepsPost(par, obj, g, w.post, curr, last, delta);
        }
        last := last[objIdx := Some(curr)];
      } else {
        SkipKeepsPost(par, obj, g, w.post, curr, last, delta);
      }
    } else {
      SkipKeepsPost(par, obj, g, w.post, curr, last, delta);
    }
  }

  /** The union of a finished entry with its parent, which is now at the top of the path. */
  method Unite(curr: nat, parentIdx: nat, ancestor: seq<nat>, ufParent: array<nat>, ghost par: seq<nat>, ghost mark: seq<Mark>, ghost i: nat)
    returns (ancestor': seq<nat>)
    requires IsTree(par) && |mark| == |par| && 0 < curr < |par| && parentIdx == par[curr]
    requires mark[curr].Open? && mark[parentIdx].Open?
    requires RepsOk(par, mark, ancestor, ufParent[..])
    modifies ufParent
    ensures RepsOk(par, mark[curr := Done(i)], ancestor', ufParent[..])
  {
    var rootP := FindUf(ufParent, parentIdx);
    var rootC := FindUf(ufParent, curr);
    FinishKeepsReps(par, mark, ancestor, ufParent[..], curr, i);
    ghost var uf := ufParent[..];
    ufParent[rootC] := rootP;
    assert ufParent[..] == uf[curr := parentIdx];
    ancestor' := ancestor[rootP := parentIdx];
  }

  lemma StartVectors(par: seq<nat>, obj: seq<int>, g: seq<int>, mark: seq<Mark>, ancestor: seq<nat>, uf: seq<nat>,
                     last: seq<Option<nat>>, delta: seq<int>)
    requires IsTree(par) && |obj| == |g| == |par| && |mark| == |ancestor| == |uf| == |delta| == |par|
    requires forall x :: 0 <= x < |par| ==> !mark[x].Done? && ancestor[x] == x && uf[x] == x && delta[x] == 0
    requires forall o :: 0 <= o < |last| ==> last[o] == None
    ensures RepsOk(par, mark, ancestor, uf) && PostVectorsOk(par, obj, g, [], last, delta)
  {
    forall d | 0 <= d < |par|
      ensures SumUnder(par, d, delta, |par|) == 0
    {
      SumUnderZero(par, d, delta, |par|);
    }
  }

  /** At most one position of the post-order per entry. */
  lemma PostFits(par: seq<nat>, w: Walk)
    requires IsTree(par) && MarksOk(|par|, w)
    ensures |w.post| <= |par|
  {
    PostInjective(par, w);
    InjectiveLength(w.post, |par|);
  }

  /** Descending to the next child `c` of the top entry. */
  lemma Descend(par: seq<nat>, fc: seq<nat>, ns: seq<nat>, w: Walk, c: nat, visited: seq<bool>, ancestor: seq<nat>, uf: seq<nat>)
    requires WalkOk(par, fc, ns, w) && |w.stack| > 0 && Top(w).next == c != NONE
    requires VisitedOk(w.mark, visited) && RepsOk(par, w.mark, ancestor, uf)
    ensures 0 < c < |par| && !visited[c]
    ensures var w' := Push(w, fc, ns, c);
      && WalkOk(par, fc, ns, w')
      && VisitedOk(w'.mark, visited[c := true])
      && RepsOk(par, w'.mark, ancestor, uf)
      && FreshCount(w'.mark) < FreshCount(w.mark)
  {
    NextIsFresh(par, fc, ns, w);
    PushIsOk(par, fc, ns, w, c);
    PushKeepsReps(par, w.mark, ancestor, uf, c, |w.stack|);
    FreshCountUpdate(w.mark, c, Open(|w.stack|));
  }

  /** Finishing the top entry: below it on the path is its parent, or it was the root. */
  lemma Ascend(par: seq<nat>, fc: seq<nat>, ns: seq<nat>, w: Walk, visited: seq<bool>)
    requires WalkOk(par, fc, ns, w) && |w.stack| > 0 && Top(w).next == NONE
    requires VisitedOk(w.mark, visited)
    ensures |w.post| <= |par|
    ensures WalkOk(par, fc, ns, Pop(w)) && VisitedOk(Pop(w).mark, visited)
    ensures FreshCount(Pop(w).mark) == FreshCount(w.mark)
    ensures var curr := Top(w).idx;
      && w.mark[curr].Open?
      && if |w.stack| == 1 then curr == 0
         else curr > 0 && w.stack[|w.stack| - 2].idx == par[curr] && w.mark[par[curr]].Open?
  {
    PostFits(par, w);
    PopIsOk(par, fc, ns, w);
    FreshCountUpdate(w.mark, Top(w).idx, Done(|w.post|));
  }

  method Traverse(entries: seq<CompactEntry>, objects: seq<ObjectRecord>, firstChild: seq<nat>, nextSibling: seq<nat>,
                  ghost par: seq<nat>, ghost obj: seq<int>, ghost g: seq<int>)
    returns (postOrder: seq<nat>, treeDelta: seq<int>, ghost blocks: seq<nat>)
    requires Linked(par, firstChild, nextSibling) && |entries| == |par|
    requires AliasData(entries, objects, obj, g)
    ensures PostOrder(par, postOrder, blocks)
    ensures DeltaOk(par, obj, g, treeDelta, postOrder)
    ensures forall v :: 0 <= v < |treeDelta| ==> -(|par| * TWO_64) <= treeDelta[v] <= 0
  {
    var n := |entries|;
    treeDelta := seq(n, _ => 0);
    var ufParent := new nat[n](i => i);
    var ancestor: seq<nat> := seq(n, i => i);
    postOrder := [];
    var lastOccurrence: seq<Option<nat>> := seq(|objects|, _ => None);
    var visited := seq(n, _ => false);
    visited := visited[0 := true];
    var stack: seq<Frame> := [Frame(0, firstChild[0])];
    ghost var w := StartWalk(n, firstChild[0]);
    StartIsOk(par, firstChild, nextSibling);
    StartVectors(par, obj, g, w.mark, ancestor, ufParent[..], lastOccurrence, treeDelta);
    while stack != []
      invariant w.stack == stack && w.post == postOrder
      invariant WalkOk(par, firstChild, nextSibling, w)
      invariant fresh(ufParent)
      invariant VisitedOk(w.mark, visited)
      invariant RepsOk(par, w.mark, ancestor, ufParent[..])
      invariant |lastOccurrence| == |objects|
      invariant PostVectorsOk(par, obj, g, postOrder, lastOccurrence, treeDelta)
      decreases FreshCount(w.mark), |stack|
    {
      var top := |stack| - 1;
      var curr, nextChild := stack[top].idx, stack[top].next;
      if nextChild != NONE {
        var child := nextChild;
        Descend(par, firstChild, nextSibling, w, child, visited, ancestor, ufParent[..]);
        stack := stack[top := Frame(curr, nextSibling[child])];
        if !visited[child] {
          visited := visited[child := true];
          stack := stack + [Frame(child, firstChild[child])];
          w := Push(w, firstChild, nextSibling, child);
        } else {
          assert false;
        }
      } else {
        Ascend(par, firstChild, nextSibling, w, visited);
        treeDelta, lastOccurrence := Settle(curr, entries, objects, ancestor, ufParent, lastOccurrence, treeDelta,
                                            par, firstChild, nextSibling, obj, g, w);
        stack := stack[..top];
        postOrder := postOrder + [curr];
        if stack != [] {
          ancestor := Unite(curr, stack[|stack| - 1].idx, ancestor, ufParent, par, w.mark, |w.post|);
        } else {
          FinishRootKeepsReps(par, w.mark, ancestor, ufParent[..], |w.post|);
        }
        w := Pop(w);
      }
    }
    FinalOrder(par, firstChild, nextSibling, w);
    blocks := w.blocks;
    if |postOrder| < n {
      // The loop over disconnected components: every accepted stream is one tree.
      assert false;
    }
  }
}
