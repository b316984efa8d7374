/** The view models of the tree view, by handle, and the flattening of the expanded part. */
module TreeStore {
  import opened Words

  /** One row per view model ever created: a child is created after its parent. */
  datatype Store = Store(level: seq<nat>, parent: seq<Option<nat>>, expanded: seq<bool>, children: seq<seq<nat>>) {
    function Size(): nat { |level| }
  }

  ghost predicate RowsOk(s: Store) {
    && |s.parent| == |s.expanded| == |s.children| == |s.level|
    && forall x :: 0 <= x < |s.level| && s.parent[x].Some? ==> s.parent[x].value < x && s.level[x] == s.level[s.parent[x].value] + 1
  }

  ghost predicate ChildrenOk(s: Store, h: nat)
    requires RowsOk(s) && h < s.Size()
  {
    && (forall k :: 0 <= k < |s.children[h]| ==> h < s.children[h][k] < s.Size() && s.parent[s.children[h][k]] == Some(h))
    && forall j, k :: 0 <= j < k < |s.children[h]| ==> s.children[h][j] < s.children[h][k]
  }

  ghost predicate StoreOk(s: Store) {
    RowsOk(s) && forall h :: 0 <= h < s.Size() ==> ChildrenOk(s, h)
  }

  /** The visible items of the subtree of `h`, in preorder. */
  ghost function Flatten(s: Store, h: nat): seq<nat>
    requires StoreOk(s) && h < s.Size()
    decreases s.Size() - h, |s.children[h]| + 1
  {
    [h] + if s.expanded[h] then FlattenFrom(s, h, 0) else []
  }

  /** The subtrees of the children of `h` from the `k`-th on. */
  ghost function FlattenFrom(s: Store, h: nat, k: nat): seq<nat>
    requires StoreOk(s) && h < s.Size() && k <= |s.children[h]|
    decreases s.Size() - h, |s.children[h]| - k
  {
    if k == |s.children[h]| then []
    else
      assert ChildrenOk(s, h);
      Flatten(s, s.children[h][k]) + FlattenFrom(s, h, k + 1)
  }

  // ---- Descent

  ghost predicate Below(s: Store, h: nat, x: nat)
    requires RowsOk(s) && x < s.Size()
    decreases x
  {
    h == x || (s.parent[x].Some? && Below(s, h, s.parent[x].value))
  }

  lemma {:induction false} BelowLevel(s: Store, h: nat, x: nat)
    requires RowsOk(s) && x < s.Size() && Below(s, h, x)
    ensures h <= x && (h != x ==> s.level[x] > s.level[h])
    decreases x
  {
    if h != x {
      BelowLevel(s, h, s.parent[x].value);
    }
  }

  lemma {:induction false} BelowUnique(s: Store, a: nat, b: nat, x: nat)
    requires RowsOk(s) && x < s.Size() && Below(s, a, x) && Below(s, b, x) && a < s.Size() && b < s.Size()
    requires s.level[a] == s.level[b]
    ensures a == b
    decreases x
  {
    if a == x {
      BelowLevel(s, b, x);
    } else if b == x {
      BelowLevel(s, a, x);
    } else {
      BelowUnique(s, a, b, s.parent[x].value);
    }
  }

  lemma {:induction false} BelowTransitive(s: Store, a: nat, b: nat, x: nat)
    requires RowsOk(s) && x < s.Size() && b < s.Size() && Below(s, a, b) && Below(s, b, x)
    ensures Below(s, a, x)
    decreases x
  {
    if b != x {
      BelowTransitive(s, a, b, s.parent[x].value);
    }
  }

  // ---- Who is in a flattening

  ghost predicate AllBelow(s: Store, h: nat, v: seq<nat>)
    requires RowsOk(s)
  {
    forall i :: 0 <= i < |v| ==> v[i] < s.Size() && Below(s, h, v[i])
  }

  ghost predicate Distinct(v: seq<nat>) {
    forall i, j :: 0 <= i < j < |v| ==> v[i] != v[j]
  }

  lemma {:induction false} FlattenBelow(s: Store, h: nat)
    requires StoreOk(s) && h < s.Size()
    ensures AllBelow(s, h, Flatten(s, h))
    decreases s.Size() - h, |s.children[h]| + 1
  {
    FlattenFromBelow(s, h, 0);
  }

  /** Everything from the `k`-th child on lies below one of these children, and so below `h`. */
  lemma {:induction false} FlattenFromBelow(s: Store, h: nat, k: nat)
    requires StoreOk(s) && h < s.Size() && k <= |s.children[h]|
    ensures AllBelow(s, h, FlattenFrom(s, h, k))
    ensures forall i :: 0 <= i < |FlattenFrom(s, h, k)| ==>
      exists j :: k <= j < |s.children[h]| && Below(s, s.children[h][j], FlattenFrom(s, h, k)[i])
    decreases s.Size() - h, |s.children[h]| - k
  {
    if k < |s.children[h]| {
      assert ChildrenOk(s, h);
      var c := s.children[h][k];
      FlattenBelow(s, c);
      FlattenFromBelow(s, h, k + 1);
      var first, rest := Flatten(s, c), FlattenFrom(s, h, k + 1);
      forall i | 0 <= i < |first|
        ensures Below(s, h, first[i])
      {
        assert Below(s, h, c);
        BelowTransitive(s, h, c, first[i]);
      }
    }
  }

  lemma SiblingsDisjoint(s: Store, h: nat, k: nat, x: nat)
    requires StoreOk(s) && h < s.Size() && k < |s.children[h]| && x in FlattenFrom(s, h, k + 1)
    ensures s.children[h][k] < s.Size() && x !in Flatten(s, s.children[h][k])
  {
    assert ChildrenOk(s, h);
    FlattenFromBelow(s, h, k + 1);
    FlattenBelow(s, s.children[h][k]);
    if x in Flatten(s, s.children[h][k]) {
      var j :| k + 1 <= j < |s.children[h]| && Below(s, s.children[h][j], x);
      BelowUnique(s, s.children[h][k], s.children[h][j], x);
    }
  }

  /** No item is visible twice. */
  lemma {:induction false} FlattenDistinct(s: Store, h: nat)
    requires StoreOk(s) && h < s.Size()
    ensures Distinct(Flatten(s, h))
    decreases s.Size() - h, |s.children[h]| + 1
  {
    FlattenFromDistinct(s, h, 0);
    FlattenFromBelow(s, h, 0);
    var rest := FlattenFrom(s, h, 0);
    forall i | 0 <= i < |rest|
      ensures rest[i] != h
    {
      var j :| 0 <= j < |s.children[h]| && Below(s, s.children[h][j], rest[i]);
      assert ChildrenOk(s, h);
      BelowLevel(s, s.children[h][j], rest[i]);
    }
  }

  lemma {:induction false} FlattenFromDistinct(s: Store, h: nat, k: nat)
    requires StoreOk(s) && h < s.Size() && k <= |s.children[h]|
    ensures Distinct(FlattenFrom(s, h, k))
    decreases s.Size() - h, |s.children[h]| - k
  {
    if k < |s.children[h]| {
      assert ChildrenOk(s, h);
      var first, rest := Flatten(s, s.children[h][k]), FlattenFrom(s, h, k + 1);
      FlattenDistinct(s, s.children[h][k]);
      FlattenFromDistinct(s, h, k + 1);
      forall i, j | 0 <= i < |first| && 0 <= j < |rest|
        ensures first[i] != rest[j]
      {
        assert rest[j] in rest;
        SiblingsDisjoint(s, h, k, rest[j]);
      }
    }
  }

  /** The parent of a visible item is visible. */
  lemma {:induction false} ParentVisible(s: Store, h: nat, x: nat)
    requires StoreOk(s) && h < s.Size() && x in Flatten(s, h) && x != h
    ensures x < s.Size() && s.parent[x].Some? && s.parent[x].value in Flatten(s, h)
    decreases s.Size() - h, |s.children[h]| + 1
  {
    ParentVisibleFrom(s, h, 0, x);
  }

  lemma {:induction false} ParentVisibleFrom(s: Store, h: nat, k: nat, x: nat)
    requires StoreOk(s) && h < s.Size() && k <= |s.children[h]| && x in FlattenFrom(s, h, k)
    ensures x < s.Size() && s.parent[x].Some? && (s.parent[x].value == h || s.parent[x].value in FlattenFrom(s, h, k))
    decreases s.Size() - h, |s.children[h]| - k
  {
    assert ChildrenOk(s, h);
    var c := s.children[h][k];
    if x in Flatten(s, c) {
      if x != c {
        ParentVisible(s, c, x);
      }
    } else {
      ParentVisibleFrom(s, h, k + 1, x);
    }
  }

  // ---- Changing one item

  /** `s'` differs from `s` at most in the row of `h` and in new rows. */
  ghost predicate ChangedAt(s: Store, s': Store, h: nat) {
    && RowsOk(s) && RowsOk(s') && s.Size() <= s'.Size()
    && forall x :: 0 <= x < s.Size() ==>
         && s'.level[x] == s.level[x] && s'.parent[x] == s.parent[x]
         && (x != h ==> s'.expanded[x] == s.expanded[x] && s'.children[x] == s.children[x])
  }

  lemma {:induction false} FlattenKept(s: Store, s': Store, h: nat, x: nat)
    requires StoreOk(s) && StoreOk(s') && ChangedAt(s, s', h) && x < s.Size() && h !in Flatten(s, x)
    ensures Flatten(s', x) == Flatten(s, x)
    decreases s.Size() - x, |s.children[x]| + 1
  {
    assert x in Flatten(s, x);
    if s.expanded[x] {
      FlattenFromKept(s, s', h, x, 0);
    }
  }

  lemma {:induction false} FlattenFromKept(s: Store, s': Store, h: nat, x: nat, k: nat)
    requires StoreOk(s) && StoreOk(s') && ChangedAt(s, s', h) && x < s.Size() && x != h
    requires k <= |s.children[x]| && h !in FlattenFrom(s, x, k)
    ensures |s'.children[x]| == |s.children[x]| && FlattenFrom(s', x, k) == FlattenFrom(s, x, k)
    decreases s.Size() - x, |s.children[x]| - k
  {
    if k < |s.children[x]| {
      assert ChildrenOk(s, x);
      FlattenKept(s, s', h, s.children[x][k]);
      FlattenFromKept(s, s', h, x, k + 1);
    }
  }

  /** The flattening around `h`: what comes before and after the subtree of `h` does not depend on the row of `h`, and
      what follows is not deeper than `h`. */
  ghost predicate Around(s: Store, s': Store, h: nat, whole: seq<nat>, whole': seq<nat>, pre: seq<nat>, post: seq<nat>)
    requires StoreOk(s) && StoreOk(s') && h < s.Size() && h < s'.Size()
  {
    && whole == pre + Flatten(s, h) + post && whole' == pre + Flatten(s', h) + post
    && (post != [] ==> post[0] < s.Size() && s.level[post[0]] <= s.level[h])
  }

  lemma {:induction false} Locate(s: Store, s': Store, h: nat, x: nat) returns (pre: seq<nat>, post: seq<nat>)
    requires StoreOk(s) && StoreOk(s') && ChangedAt(s, s', h) && x < s.Size() && h < s.Size() && h in Flatten(s, x)
    ensures Around(s, s', h, Flatten(s, x), Flatten(s', x), pre, post)
    decreases s.Size() - x, |s.children[x]| + 1
  {
    hide Around;
    if x == h {
      pre, post := [], [];
      AroundItself(s, s', h);
    } else {
      var inner;
      inner, post := LocateFrom(s, s', h, x, 0);
      pre := [x] + inner;
      AroundPrepend(s, s', h, FlattenFrom(s, x, 0), FlattenFrom(s', x, 0), inner, post, [x]);
    }
  }

  lemma AroundAppend(s: Store, s': Store, h: nat, whole: seq<nat>, whole': seq<nat>, pre: seq<nat>, post: seq<nat>, rest: seq<nat>)
    requires StoreOk(s) && StoreOk(s') && h < s.Size() && h < s'.Size() && Around(s, s', h, whole, whole', pre, post)
    requires post + rest != [] ==> (post + rest)[0] < s.Size() && s.level[(post + rest)[0]] <= s.level[h]
    ensures Around(s, s', h, whole + rest, whole' + rest, pre, post + rest)
  {
    hide StoreOk, Flatten;
    assert pre + Flatten(s, h) + post + rest == pre + Flatten(s, h) + (post + rest);
    assert pre + Flatten(s', h) + post + rest == pre + Flatten(s', h) + (post + rest);
  }

  lemma AroundItself(s: Store, s': Store, h: nat)
    requires StoreOk(s) && StoreOk(s') && h < s.Size() && h < s'.Size()
    ensures Around(s, s', h, Flatten(s, h), Flatten(s', h), [], [])
  {
    hide StoreOk, Flatten;
    assert [] + Flatten(s, h) + [] == Flatten(s, h);
    assert [] + Flatten(s', h) + [] == Flatten(s', h);
  }

  lemma AroundPost(s: Store, s': Store, h: nat, whole: seq<nat>, whole': seq<nat>, pre: seq<nat>, post: seq<nat>)
    requires StoreOk(s) && StoreOk(s') && h < s.Size() && h < s'.Size() && Around(s, s', h, whole, whole', pre, post)
    ensures post != [] ==> post[0] < s.Size() && s.level[post[0]] <= s.level[h]
  {
  }

  lemma AroundPrepend(s: Store, s': Store, h: nat, whole: seq<nat>, whole': seq<nat>, pre: seq<nat>, post: seq<nat>, first: seq<nat>)
    requires StoreOk(s) && StoreOk(s') && h < s.Size() && h < s'.Size() && Around(s, s', h, whole, whole', pre, post)
    ensures Around(s, s', h, first + whole, first + whole', first + pre, post)
  {
    hide StoreOk, Flatten;
    assert first + (pre + Flatten(s, h) + post) == first + pre + Flatten(s, h) + post;
    assert first + (pre + Flatten(s', h) + post) == first + pre + Flatten(s', h) + post;
  }

  lemma {:induction false} LocateFrom(s: Store, s': Store, h: nat, x: nat, k: nat) returns (pre: seq<nat>, post: seq<nat>)
    requires StoreOk(s) && StoreOk(s') && ChangedAt(s, s', h) && x < s.Size() && h < s.Size() && x != h
    requires k <= |s.children[x]| && h in FlattenFrom(s, x, k)
    ensures |s'.children[x]| == |s.children[x]|
    ensures Around(s, s', h, FlattenFrom(s, x, k), FlattenFrom(s', x, k), pre, post)
    decreases s.Size() - x, |s.children[x]| - k
  {
    hide Around;
    assert ChildrenOk(s, x);
    var c := s.children[x][k];
    var rest := FlattenFrom(s, x, k + 1);
    if h in Flatten(s, c) {
      if h in rest {
        SiblingsDisjoint(s, x, k, h);
      }
      FlattenFromKept(s, s', h, x, k + 1);
      var inner;
      pre, inner := Locate(s, s', h, c);
      post := inner + rest;
      AroundPost(s, s', h, Flatten(s, c), Flatten(s', c), pre, inner);
      FollowedBySibling(s, h, x, k, inner);
      AroundAppend(s, s', h, Flatten(s, c), Flatten(s', c), pre, inner, rest);
    } else {
      FlattenKept(s, s', h, c);
      var inner;
      inner, post := LocateFrom(s, s', h, x, k + 1);
      pre := Flatten(s, c) + inner;
      AroundPrepend(s, s', h, rest, FlattenFrom(s', x, k + 1), inner, post, Flatten(s, c));
    }
  }

  /** After the last item of a child's subtree comes the next sibling of that child. */
  lemma FollowedBySibling(s: Store, h: nat, x: nat, k: nat, inner: seq<nat>)
    requires StoreOk(s) && x < s.Size() && h < s.Size() && k < |s.children[x]| && s.children[x][k] < s.Size()
    requires h in Flatten(s, s.children[x][k])
    requires inner != [] ==> inner[0] < s.Size() && s.level[inner[0]] <= s.level[h]
    ensures var post := inner + FlattenFrom(s, x, k + 1);
      post != [] ==> post[0] < s.Size() && s.level[post[0]] <= s.level[h]
  {
    assert ChildrenOk(s, x);
    var c := s.children[x][k];
    FlattenBelow(s, c);
    BelowLevel(s, c, h);
    if inner == [] && k + 1 < |s.children[x]| {
      assert FlattenFrom(s, x, k + 1)[0] == s.children[x][k + 1];
    }
  }

  /** Everything below `h` is deeper than `h`. */
  lemma DeeperThanTop(s: Store, h: nat)
    requires StoreOk(s) && h < s.Size()
    ensures forall i :: 0 < i < |Flatten(s, h)| ==> Flatten(s, h)[i] < s.Size() && s.level[Flatten(s, h)[i]] > s.level[h]
  {
    var v := Flatten(s, h);
    FlattenBelow(s, h);
    FlattenDistinct(s, h);
    forall i | 0 < i < |v|
      ensures v[i] < s.Size() && s.level[v[i]] > s.level[h]
    {
      assert v[0] == h;
      BelowLevel(s, h, v[i]);
    }
  }

  // ---- Which items are shown

  /** Item `x` is shown below `h`: it is `h`, or a current child of an expanded item that is shown. */
  ghost predicate Shown(s: Store, h: nat, x: nat)
    requires RowsOk(s) && x < s.Size()
    decreases x
  {
    h == x
    || (s.parent[x].Some? && x in s.children[s.parent[x].value] && s.expanded[s.parent[x].value] && Shown(s, h, s.parent[x].value))
  }

  /** Seen from the top: `h` itself, or, if it is expanded, whatever is shown below one of its children. */
  lemma {:induction false} ShownFromTop(s: Store, h: nat, x: nat)
    requires StoreOk(s) && h < s.Size() && x < s.Size()
    ensures Shown(s, h, x) <==>
      h == x || (s.expanded[h] && exists j :: 0 <= j < |s.children[h]| && s.children[h][j] < s.Size() && Shown(s, s.children[h][j], x))
    decreases x
  {
    assert ChildrenOk(s, h);
    if s.parent[x].Some? {
      var p := s.parent[x].value;
      ShownFromTop(s, h, p);
      if h != x && Shown(s, h, x) && p == h {
        var j :| 0 <= j < |s.children[h]| && s.children[h][j] == x;
        assert Shown(s, s.children[h][j], x);
      } else if h != x && Shown(s, h, x) {
        var j :| 0 <= j < |s.children[h]| && s.children[h][j] < s.Size() && Shown(s, s.children[h][j], p);
        assert Shown(s, s.children[h][j], x);
      }
    }
    if j :| 0 <= j < |s.children[h]| && s.children[h][j] < s.Size() && Shown(s, s.children[h][j], x) && s.expanded[h] {
      if s.children[h][j] != x {
        assert Shown(s, s.children[h][j], s.parent[x].value);
      } else {
        assert Shown(s, h, h);
      }
    }
  }

  /** The flattening holds exactly the items that are shown. */
  lemma {:induction false} FlattenIsShown(s: Store, h: nat, x: nat)
    requires StoreOk(s) && h < s.Size() && x < s.Size()
    ensures x in Flatten(s, h) <==> Shown(s, h, x)
    decreases s.Size() - h, |s.children[h]| + 1
  {
    ShownFromTop(s, h, x);
    FlattenFromIsShown(s, h, 0, x);
  }

  lemma {:induction false} FlattenFromIsShown(s: Store, h: nat, k: nat, x: nat)
    requires StoreOk(s) && h < s.Size() && k <= |s.children[h]| && x < s.Size()
    ensures x in FlattenFrom(s, h, k) <==>
      exists j :: k <= j < |s.children[h]| && s.children[h][j] < s.Size() && Shown(s, s.children[h][j], x)
    decreases s.Size() - h, |s.children[h]| - k
  {
    hide Shown;
    if k < |s.children[h]| {
      assert ChildrenOk(s, h);
      FlattenIsShown(s, s.children[h][k], x);
      FlattenFromIsShown(s, h, k + 1, x);
    }
  }

  // ---- In which order

  /** No item comes before one it lies below. */
  ghost predicate TopDown(s: Store, v: seq<nat>)
    requires RowsOk(s)
  {
    forall i, j :: 0 <= i < j < |v| && v[i] < s.Size() && Below(s, v[j], v[i]) ==> v[i] == v[j]
  }

  /** Children of one item come in the order in which they are listed. */
  ghost predicate SiblingsInOrder(s: Store, v: seq<nat>)
    requires RowsOk(s)
  {
    forall i, j :: 0 <= i < j < |v| && v[i] < s.Size() && v[j] < s.Size() && s.parent[v[i]].Some? && s.parent[v[i]] == s.parent[v[j]] ==>
      v[i] <= v[j]
  }

  lemma {:induction false} FlattenOrder(s: Store, h: nat)
    requires StoreOk(s) && h < s.Size()
    ensures TopDown(s, Flatten(s, h)) && SiblingsInOrder(s, Flatten(s, h))
    decreases s.Size() - h, |s.children[h]| + 1
  {
    FlattenFromOrder(s, h, 0);
    FlattenFromBelow(s, h, 0);
    HeadInOrder(s, h, FlattenFrom(s, h, 0));
  }

  /** Putting an item before items below it. */
  lemma HeadInOrder(s: Store, h: nat, rest: seq<nat>)
    requires StoreOk(s) && h < s.Size() && AllBelow(s, h, rest) && TopDown(s, rest) && SiblingsInOrder(s, rest)
    ensures TopDown(s, [h] + rest) && SiblingsInOrder(s, [h] + rest)
    ensures TopDown(s, [h] + []) && SiblingsInOrder(s, [h] + [])
  {
    var v := [h] + rest;
    forall j | 0 < j < |v|
      ensures Below(s, v[j], h) ==> v[j] == h
      ensures h <= v[j]
    {
      BelowLevel(s, h, v[j]);
      if Below(s, v[j], h) {
        BelowLevel(s, v[j], h);
      }
    }
  }

  lemma {:induction false} FlattenFromOrder(s: Store, h: nat, k: nat)
    requires StoreOk(s) && h < s.Size() && k <= |s.children[h]|
    ensures TopDown(s, FlattenFrom(s, h, k)) && SiblingsInOrder(s, FlattenFrom(s, h, k))
    decreases s.Size() - h, |s.children[h]| - k
  {
    if k < |s.children[h]| {
      assert ChildrenOk(s, h);
      var c := s.children[h][k];
      FlattenOrder(s, c);
      FlattenFromOrder(s, h, k + 1);
      FlattenBelow(s, c);
      FlattenFromBelow(s, h, k + 1);
      var first, rest := Flatten(s, c), FlattenFrom(s, h, k + 1);
      forall i, j | 0 <= i < |first| && 0 <= j < |rest|
        ensures Below(s, rest[j], first[i]) ==> first[i] == rest[j]
        ensures s.parent[first[i]].Some? && s.parent[first[i]] == s.parent[rest[j]] ==> first[i] <= rest[j]
      {
        AcrossSiblings(s, h, k, first[i], rest[j]);
      }
      OrderConcat(s, first, rest);
    }
  }

  lemma OrderConcat(s: Store, first: seq<nat>, rest: seq<nat>)
    requires RowsOk(s) && TopDown(s, first) && TopDown(s, rest) && SiblingsInOrder(s, first) && SiblingsInOrder(s, rest)
    requires forall i :: 0 <= i < |first| ==> first[i] < s.Size()
    requires forall j :: 0 <= j < |rest| ==> rest[j] < s.Size()
    requires forall i, j :: 0 <= i < |first| && 0 <= j < |rest| ==>
      (Below(s, rest[j], first[i]) ==> first[i] == rest[j])
      && (s.parent[first[i]].Some? && s.parent[first[i]] == s.parent[rest[j]] ==> first[i] <= rest[j])
    ensures TopDown(s, first + rest) && SiblingsInOrder(s, first + rest)
  {
    hide Below;
  }

  /** Items below different children of `h`: neither lies below the other, and if they have one parent it is `h` itself. */
  lemma AcrossSiblings(s: Store, h: nat, k: nat, x: nat, y: nat)
    requires StoreOk(s) && h < s.Size() && k < |s.children[h]| && s.children[h][k] < s.Size()
    requires x < s.Size() && y < s.Size() && Below(s, s.children[h][k], x)
    requires exists j :: k + 1 <= j < |s.children[h]| && Below(s, s.children[h][j], y)
    ensures Below(s, y, x) ==> x == y
    ensures s.parent[x].Some? && s.parent[x] == s.parent[y] ==> x <= y
  {
    assert ChildrenOk(s, h);
    var c := s.children[h][k];
    var j :| k + 1 <= j < |s.children[h]| && Below(s, s.children[h][j], y);
    var d := s.children[h][j];
    if Below(s, y, x) {
      BelowTransitive(s, d, y, x);
      BelowUnique(s, c, d, x);
    }
    if s.parent[x].Some? && s.parent[x] == s.parent[y] {
      var p := s.parent[x].value;
      if x != c && y != d {
        BelowUnique(s, c, d, p);
      } else if x != c {
        BelowLevel(s, c, p);
      } else if y != d {
        BelowLevel(s, d, p);
      }
    }
  }
}
