/** The flattened tree projection: the visible rows of the tree view under interleaved expansion, collapse and reset. */
module Projection {
  import opened Words
  import opened TreeStore

  /** A child as the page provider reports it. */
  datatype NodeData = NodeData(isDirectory: bool, hasChildren: bool)

  function DirectoryFlags(nodes: seq<NodeData>): (r: seq<bool>)
    ensures |r| == |nodes| && forall k :: 0 <= k < |r| ==> r[k] == nodes[k].isDirectory
  {
    seq(|nodes|, k requires 0 <= k < |nodes| => nodes[k].isDirectory)
  }

  function ChildrenFlags(nodes: seq<NodeData>): (r: seq<bool>)
    ensures |r| == |nodes| && forall k :: 0 <= k < |r| ==> r[k] == nodes[k].hasChildren
  {
    seq(|nodes|, k requires 0 <= k < |nodes| => nodes[k].hasChildren)
  }

  // ---- Positions

  /** The first position of `h`, or -1. */
  function IndexIn(v: seq<nat>, h: nat): (r: int)
    ensures -1 <= r < |v|
    ensures r >= 0 ==> v[r] == h && forall i :: 0 <= i < r ==> v[i] != h
    ensures r < 0 <==> h !in v
  {
    if v == [] then -1
    else if v[0] == h then 0
    else
      var r := IndexIn(v[1..], h);
      assert h in v <==> h in v[1..];
      if r < 0 then -1 else r + 1
  }

  lemma IndexAt(v: seq<nat>, pre: seq<nat>, h: nat, rest: seq<nat>)
    requires v == pre + [h] + rest && Distinct(v)
    ensures IndexIn(v, h) == |pre|
  {
    assert v[|pre|] == h;
    assert h in v;
  }

  function NewHandles(n: nat, k: nat): (r: seq<nat>)
    ensures |r| == k && forall i :: 0 <= i < k ==> r[i] == n + i
  {
    seq(k, i => n + i)
  }

  // ---- The store after one operation

  /** New rows for the children of `h`. */
  function WithChildren(s: Store, h: nat, k: nat): Store
    requires h < s.Size() && |s.parent| == |s.expanded| == |s.children| == s.Size()
  {
    Store(s.level + seq(k, _ => s.level[h] + 1),
          s.parent + seq(k, _ => Some(h)),
          s.expanded[h := true] + seq(k, _ => false),
          s.children[h := NewHandles(s.Size(), k)] + seq(k, _ => []))
  }

  lemma WithChildrenOk(s: Store, h: nat, k: nat)
    requires StoreOk(s) && h < s.Size()
    ensures StoreOk(WithChildren(s, h, k)) && ChangedAt(s, WithChildren(s, h, k), h)
  {
    var s' := WithChildren(s, h, k);
    forall x | 0 <= x < s'.Size()
      ensures ChildrenOk(s', x)
    {
      if x < s.Size() {
        assert ChildrenOk(s, x);
      }
    }
  }

  lemma ExpandedRows(s: Store, h: nat, k: nat)
    requires StoreOk(s) && h < s.Size()
    ensures var s' := WithChildren(s, h, k);
      && s'.Size() == s.Size() + k && |s'.parent| == |s'.expanded| == s'.Size()
      && (forall x :: 0 <= x < s.Size() ==> s'.parent[x] == s.parent[x] && (x != h ==> s'.expanded[x] == s.expanded[x]))
      && forall x :: s.Size() <= x < s'.Size() ==> !s'.expanded[x]
  {
  }

  lemma CollapsedOk(s: Store, h: nat)
    requires StoreOk(s) && h < s.Size()
    ensures StoreOk(s.(expanded := s.expanded[h := false])) && ChangedAt(s, s.(expanded := s.expanded[h := false]), h)
  {
    var s' := s.(expanded := s.expanded[h := false]);
    forall x | 0 <= x < s'.Size()
      ensures ChildrenOk(s', x)
    {
      assert ChildrenOk(s, x);
    }
  }

  /** Unexpanded children flatten to themselves. */
  lemma {:induction false} FreshChildren(s: Store, h: nat, k: nat)
    requires StoreOk(s) && h < s.Size() && k <= |s.children[h]|
    requires forall j :: 0 <= j < |s.children[h]| ==> s.children[h][j] < s.Size() && !s.expanded[s.children[h][j]]
    ensures FlattenFrom(s, h, k) == s.children[h][k..]
    decreases |s.children[h]| - k
  {
    if k < |s.children[h]| {
      FreshChildren(s, h, k + 1);
      assert ChildrenOk(s, h);
    }
  }

  /** The flattening after `h` has been expanded. */
  lemma ExpandedFlattening(s: Store, h: nat, k: nat, root: nat)
    requires StoreOk(s) && root < s.Size() && h < s.Size() && !s.expanded[h] && h in Flatten(s, root)
    ensures StoreOk(WithChildren(s, h, k))
    ensures var v, i := Flatten(s, root), IndexIn(Flatten(s, root), h);
      0 <= i && Flatten(WithChildren(s, h, k), root) == v[..i + 1] + NewHandles(s.Size(), k) + v[i + 1..]
  {
    hide ChildrenOk, Flatten, WithChildren;
    var s' := WithChildren(s, h, k);
    WithChildrenOk(s, h, k);
    var pre, post := Locate(s, s', h, root);
    Unexpanded(s, h);
    NewlyExpanded(s, h, k);
    FlattenDistinct(s, root);
    Spliced(Flatten(s, root), pre, h, NewHandles(s.Size(), k), post);
  }

  lemma Unexpanded(s: Store, h: nat)
    requires StoreOk(s) && h < s.Size() && !s.expanded[h]
    ensures Flatten(s, h) == [h]
  {
  }

  lemma NewlyExpanded(s: Store, h: nat, k: nat)
    requires StoreOk(s) && h < s.Size()
    ensures StoreOk(WithChildren(s, h, k)) && Flatten(WithChildren(s, h, k), h) == [h] + NewHandles(s.Size(), k)
  {
    WithChildrenOk(s, h, k);
    var s' := WithChildren(s, h, k);
    FreshChildren(s', h, 0);
    assert s'.children[h][0..] == NewHandles(s.Size(), k);
  }

  lemma Spliced(v: seq<nat>, pre: seq<nat>, h: nat, more: seq<nat>, post: seq<nat>)
    requires v == pre + [h] + post && Distinct(v)
    ensures var i := IndexIn(v, h); 0 <= i && pre + ([h] + more) + post == v[..i + 1] + more + v[i + 1..]
  {
    IndexAt(v, pre, h, post);
    assert v[..|pre| + 1] == pre + [h] && v[|pre| + 1..] == post;
  }

  /** What the level scan of a collapse relies on: the rows below `h` follow it directly, all of them are deeper, and the
      row after them is not. */
  ghost predicate ScanOk(s: Store, h: nat, v: seq<nat>, i: nat, count: nat, v': seq<nat>)
    requires RowsOk(s) && h < s.Size()
  {
    && i + 1 + count <= |v| && v[i] == h
    && (forall j :: i < j <= i + count ==> v[j] < s.Size() && s.level[v[j]] > s.level[h])
    && (i + 1 + count < |v| ==> v[i + 1 + count] < s.Size() && s.level[v[i + 1 + count]] <= s.level[h])
    && v' == v[..i + 1] + v[i + 1 + count..]
  }

  lemma CollapsedFlattening(s: Store, h: nat, root: nat) returns (count: nat)
    requires StoreOk(s) && root < s.Size() && h < s.Size() && h in Flatten(s, root)
    ensures StoreOk(s.(expanded := s.expanded[h := false])) && IndexIn(Flatten(s, root), h) >= 0
    ensures ScanOk(s, h, Flatten(s, root), IndexIn(Flatten(s, root), h), count, Flatten(s.(expanded := s.expanded[h := false]), root))
  {
    hide ChildrenOk, Flatten;
    var s' := s.(expanded := s.expanded[h := false]);
    CollapsedOk(s, h);
    var pre, post := Locate(s, s', h, root);
    StartsWithSelf(s, h);
    count := |Flatten(s, h)| - 1;
    Unexpanded(s', h);
    DeeperThanTop(s, h);
    FlattenDistinct(s, root);
    Removed(s, h, Flatten(s, root), Flatten(s', root), pre, Flatten(s, h), post);
  }

  lemma StartsWithSelf(s: Store, h: nat)
    requires StoreOk(s) && h < s.Size()
    ensures Flatten(s, h) != [] && Flatten(s, h)[0] == h
  {
  }

  lemma Removed(s: Store, h: nat, v: seq<nat>, v': seq<nat>, pre: seq<nat>, sub: seq<nat>, post: seq<nat>)
    requires RowsOk(s) && h < s.Size() && v == pre + sub + post && v' == pre + [h] + post && Distinct(v)
    requires sub != [] && sub[0] == h && forall i :: 0 < i < |sub| ==> sub[i] < s.Size() && s.level[sub[i]] > s.level[h]
    requires post != [] ==> post[0] < s.Size() && s.level[post[0]] <= s.level[h]
    ensures IndexIn(v, h) >= 0 && ScanOk(s, h, v, IndexIn(v, h), |sub| - 1, v')
  {
    assert v == pre + [h] + (sub[1..] + post);
    IndexAt(v, pre, h, sub[1..] + post);
    var i := |pre|;
    assert v[..i + 1] == pre + [h] && v[i + |sub|..] == post;
    forall j | i < j <= i + |sub| - 1
      ensures v[j] < s.Size() && s.level[v[j]] > s.level[h]
    {
      assert v[j] == sub[j - i];
    }
  }

  class FlattenedTreeProjection {
    var store: Store
    var isDirectory: seq<bool>
    var hasChildren: seq<bool>
    var isLoading: seq<bool>
    var root: Option<nat>
    var visibleItems: seq<nat>
    var selectedItem: Option<nat>

    ghost predicate Valid()
      reads this
    {
      && StoreOk(store) && |isDirectory| == |hasChildren| == |isLoading| == store.Size()
      && (forall h :: 0 <= h < store.Size() && isLoading[h] ==> !store.expanded[h])
      && (match root
          case None => visibleItems == []
          case Some(r) => r < store.Size() && visibleItems == Flatten(store, r) && store.parent[r].None?)
      && (selectedItem.Some? ==> selectedItem.value in visibleItems)
    }

    constructor ()
      ensures Valid() && visibleItems == [] && selectedItem == None
    {
      store := Store([], [], [], []);
      isDirectory, hasChildren, isLoading := [], [], [];
      root, visibleItems, selectedItem := None, [], None;
    }

    predicate IsExpanded(h: nat)
      reads this
    {
      h < |store.expanded| && store.expanded[h]
    }

    predicate IsLoading(h: nat)
      reads this
    {
      h < |isLoading| && isLoading[h]
    }

    predicate CanExpand(h: nat)
      reads this
    {
      h < |hasChildren| && hasChildren[h] && !IsExpanded(h) && !IsLoading(h)
    }

    predicate SelectedIsExpanded()
      reads this
    {
      selectedItem.Some? && IsExpanded(selectedItem.value)
    }

    /** The row after the selected one is one of its children. */
    predicate NextIsChild()
      reads this
    {
      selectedItem.Some? && SelectedIndex() + 1 < |visibleItems| && ParentOf(visibleItems[SelectedIndex() + 1]) == selectedItem
    }

    function ParentOf(h: nat): Option<nat>
      reads this
    {
      if h < |store.parent| then store.parent[h] else None
    }

    lemma VisibleBound()
      requires Valid()
      ensures forall i :: 0 <= i < |visibleItems| ==> visibleItems[i] < store.Size()
      ensures Distinct(visibleItems)
    {
      if root.Some? {
        FlattenBelow(store, root.value);
        FlattenDistinct(store, root.value);
      }
    }

    /** A reset drops everything shown and starts from a new root, which is selected. */
    method InitializeRoot(node: NodeData)
      requires Valid()
      modifies this
      ensures Valid() && root == Some(old(store.Size())) && visibleItems == [old(store.Size())] && selectedItem == root
      ensures isDirectory == old(isDirectory) + [node.isDirectory] && hasChildren == old(hasChildren) + [node.hasChildren]
      ensures isLoading == old(isLoading) + [false]
    {
      var h := store.Size();
      RootAdded(store);
      store := Store(store.level + [0], store.parent + [None], store.expanded + [false], store.children + [[]]);
      isDirectory, hasChildren, isLoading := isDirectory + [node.isDirectory], hasChildren + [node.hasChildren], isLoading + [false];
      visibleItems := [h];
      root, selectedItem := Some(h), Some(h);
    }

    /** Expansion up to its await: whether a page has been asked for. */
    method BeginExpand(h: nat) returns (asked: bool)
      requires Valid() && h < store.Size()
      modifies this`isLoading
      ensures Valid() && asked == (hasChildren[h] && !store.expanded[h] && !old(isLoading[h]))
      ensures isLoading == if asked then old(isLoading)[h := true] else old(isLoading)
    {
      if !hasChildren[h] || store.expanded[h] || isLoading[h] {
        return false;
      }
      isLoading := isLoading[h := true];
      return true;
    }

    /** The rest of an expansion, whenever its page arrives. An item no longer shown is left alone. */
    method FinishExpand(h: nat, nodes: seq<NodeData>)
      requires Valid() && h < store.Size() && isLoading[h]
      modifies this
      ensures Valid() && root == old(root) && selectedItem == old(selectedItem)
      ensures forall x :: 0 <= x < |isLoading| ==> (isLoading[x] <==> x < |old(isLoading)| && x != h && old(isLoading)[x])
      ensures old(h !in visibleItems) ==> visibleItems == old(visibleItems) && store == old(store)
      ensures old(h !in visibleItems) ==> isDirectory == old(isDirectory) && hasChildren == old(hasChildren)
      ensures old(h in visibleItems) ==>
        isDirectory == old(isDirectory) + DirectoryFlags(nodes) && hasChildren == old(hasChildren) + ChildrenFlags(nodes)
      ensures old(h in visibleItems) ==>
        var i := IndexIn(old(visibleItems), h);
        && store == WithChildren(old(store), h, |nodes|)
        && visibleItems == old(visibleItems)[..i + 1] + NewHandles(old(store.Size()), |nodes|) + old(visibleItems)[i + 1..]
    {
      hide Flatten, ChildrenOk, WithChildren;
      var index := IndexIn(visibleItems, h);
      if index < 0 {
        isLoading := isLoading[h := false];
        return;
      }
      ExpandedFlattening(store, h, |nodes|, root.value);
      InsertKeepsMembers(visibleItems, index, NewHandles(store.Size(), |nodes|));
      ExpandedRows(store, h, |nodes|);
      InsertRows(index, NewHandles(store.Size(), |nodes|));
      isDirectory := isDirectory + DirectoryFlags(nodes);
      hasChildren := hasChildren + ChildrenFlags(nodes);
      isLoading := isLoading[h := false] + seq(|nodes|, _ => false);
      store := WithChildren(store, h, |nodes|);
    }

    /** The insertion loop of an expansion: each child goes right after the one before it. */
    method InsertRows(index: nat, kids: seq<nat>)
      requires index < |visibleItems|
      modifies this`visibleItems
      ensures visibleItems == old(visibleItems)[..index + 1] + kids + old(visibleItems)[index + 1..]
    {
      ghost var was := visibleItems;
      var insertIndex := index + 1;
      for k := 0 to |kids|
        invariant insertIndex == index + 1 + k && visibleItems == was[..index + 1] + kids[..k] + was[index + 1..]
      {
        assert kids[..k + 1] == kids[..k] + [kids[k]];
        visibleItems := visibleItems[..insertIndex] + [kids[k]] + visibleItems[insertIndex..];
        insertIndex := insertIndex + 1;
      }
      assert kids[..|kids|] == kids;
    }

    /** A failed or cancelled expansion changes nothing else. */
    method AbandonExpand(h: nat)
      requires Valid() && h < store.Size() && isLoading[h]
      modifies this`isLoading
      ensures Valid() && isLoading == old(isLoading)[h := false]
    {
      isLoading := isLoading[h := false];
    }

    /** Collapse: a scan by level removes exactly the descendants; a selection among them moves to the item. */
    method Collapse(h: nat)
      requires Valid() && h < store.Size()
      modifies this
      ensures Valid() && root == old(root) && isLoading == old(isLoading)
      ensures old(store.expanded[h] && h in visibleItems) ==>
        && store == old(store).(expanded := old(store).expanded[h := false])
        && selectedItem == (if old(selectedItem).Some? && old(selectedItem).value !in visibleItems then Some(h) else old(selectedItem))
      ensures old(!store.expanded[h] || h !in visibleItems) ==>
        store == old(store) && visibleItems == old(visibleItems) && selectedItem == old(selectedItem)
    {
      hide Flatten, ChildrenOk, ScanOk;
      if !store.expanded[h] {
        return;
      }
      var index := IndexIn(visibleItems, h);
      if index < 0 {
        return;
      }
      ghost var was := visibleItems;
      VisibleBound();
      ghost var count := CollapsedFlattening(store, h, root.value);
      ghost var kept := Flatten(store.(expanded := store.expanded[h := false]), root.value);
      var selectionRemoved := RemoveDeeper(h, index, count, kept);
      ScanMembers(store, was, index, count, kept, h);
      store := store.(expanded := store.expanded[h := false]);
      if selectionRemoved {
        selectedItem := Some(h);
      }
    }

    /** Expanding an item and collapsing it again restores the rows, whatever page arrived. */
    method ExpandThenCollapse(h: nat, nodes: seq<NodeData>)
      requires Valid() && h < store.Size() && h in visibleItems && hasChildren[h] && !store.expanded[h] && !isLoading[h]
      modifies this
      ensures Valid() && visibleItems == old(visibleItems) && selectedItem == old(selectedItem) && !IsExpanded(h)
    {
      hide Flatten, ChildrenOk, WithChildren;
      ghost var s := store;
      InsertKeepsMembers(visibleItems, IndexIn(visibleItems, h), NewHandles(store.Size(), |nodes|));
      var asked := BeginExpand(h);
      FinishExpand(h, nodes);
      ExpandedRows(s, h, |nodes|);
      assert store.expanded[h] by { JustExpanded(s, h, |nodes|); }
      Collapse(h);
      RestoredFlattening(s, h, |nodes|, root.value);
    }

    // ---- Selection

    function SelectedIndex(): (i: int)
      reads this
      ensures -1 <= i < |visibleItems|
    {
      if selectedItem.None? then -1 else IndexIn(visibleItems, selectedItem.value)
    }

    method SelectIndex(value: int)
      requires Valid()
      modifies this`selectedItem
      ensures Valid()
      ensures selectedItem == if 0 <= value < |visibleItems| then Some(visibleItems[value]) else None
    {
      if value >= 0 && value < |visibleItems| {
        selectedItem := Some(visibleItems[value]);
      } else {
        selectedItem := None;
      }
    }

    method NavigateUp()
      requires Valid()
      modifies this`selectedItem
      ensures Valid() && selectedItem == if old(SelectedIndex()) > 0 then Some(visibleItems[old(SelectedIndex()) - 1]) else old(selectedItem)
    {
      var index := SelectedIndex();
      if index > 0 {
        SelectIndex(index - 1);
      }
    }

    method NavigateDown()
      requires Valid()
      modifies this`selectedItem
      ensures Valid()
      ensures selectedItem ==
        if 0 <= old(SelectedIndex()) < |visibleItems| - 1 then Some(visibleItems[old(SelectedIndex()) + 1]) else old(selectedItem)
    {
      var index := SelectedIndex();
      if index >= 0 && index < |visibleItems| - 1 {
        SelectIndex(index + 1);
      }
    }

    /** Left collapses an expanded selection, and otherwise moves to the parent, which is always visible. */
    method NavigateLeft()
      requires Valid()
      modifies this
      ensures Valid() && root == old(root)
      ensures old(SelectedIsExpanded()) ==>
        && old(selectedItem.value) < |old(store).expanded| && selectedItem == old(selectedItem)
        && store == old(store).(expanded := old(store).expanded[old(selectedItem.value) := false])
      ensures !old(SelectedIsExpanded()) ==> store == old(store) && visibleItems == old(visibleItems)
      ensures !old(SelectedIsExpanded()) ==>
        selectedItem == if old(selectedItem.Some? && ParentOf(selectedItem.value) != None) then old(ParentOf(selectedItem.value)) else old(selectedItem)
    {
      if selectedItem.None? {
        return;
      }
      var item := selectedItem.value;
      VisibleBound();
      if store.expanded[item] {
        Collapse(item);
      } else if store.parent[item].Some? {
        ParentVisible(store, root.value, item);
        selectedItem := store.parent[item];
      }
    }

    /** Right expands a collapsed selection (up to its await), and otherwise moves to the first child. */
    method NavigateRight() returns (asked: bool)
      requires Valid()
      modifies this`isLoading, this`selectedItem
      ensures Valid() && asked == old(selectedItem.Some? && CanExpand(selectedItem.value))
      ensures asked ==> old(selectedItem.value) < |old(isLoading)| && isLoading == old(isLoading)[old(selectedItem.value) := true]
      ensures !asked ==> isLoading == old(isLoading)
      ensures selectedItem == if old(SelectedIsExpanded() && NextIsChild()) then Some(visibleItems[old(SelectedIndex()) + 1]) else old(selectedItem)
    {
      asked := false;
      if selectedItem.None? {
        return;
      }
      var item := selectedItem.value;
      VisibleBound();
      hide Flatten, StoreOk;
      if hasChildren[item] && !store.expanded[item] {
        asked := BeginExpand(item);
      } else if store.expanded[item] {
        var index := SelectedIndex();
        if index >= 0 && index < |visibleItems| - 1 && store.parent[visibleItems[index + 1]] == Some(item) {
          SelectIndex(index + 1);
        }
      }
    }

    method NavigateHome()
      requires Valid()
      modifies this`selectedItem
      ensures Valid() && selectedItem == if visibleItems != [] then Some(visibleItems[0]) else old(selectedItem)
    {
      if |visibleItems| > 0 {
        SelectIndex(0);
      }
    }

    method NavigateEnd()
      requires Valid()
      modifies this`selectedItem
      ensures Valid() && selectedItem == if visibleItems != [] then Some(visibleItems[|visibleItems| - 1]) else old(selectedItem)
    {
      if |visibleItems| > 0 {
        SelectIndex(|visibleItems| - 1);
      }
    }

    method NavigatePageUp(count: nat)
      requires Valid()
      modifies this`selectedItem
      ensures Valid() && selectedItem == if visibleItems == [] then None else Some(visibleItems[Max(0, old(SelectedIndex()) - count)])
    {
      var index := Max(0, SelectedIndex() - count);
      SelectIndex(index);
    }

    method NavigatePageDown(count: nat)
      requires Valid()
      modifies this`selectedItem
      ensures Valid()
      ensures selectedItem ==
        var i := Min(|visibleItems| - 1, old(SelectedIndex()) + count); if i < 0 then None else Some(visibleItems[i])
    {
      var index := Min(|visibleItems| - 1, SelectedIndex() + count);
      SelectIndex(index);
    }

    /** The removal loop of a collapse. */
    method RemoveDeeper(h: nat, index: nat, ghost count: nat, ghost kept: seq<nat>) returns (selectionRemoved: bool)
      requires StoreOk(store) && h < store.Size() && ScanOk(store, h, visibleItems, index, count, kept)
      modifies this`visibleItems
      ensures visibleItems == kept
      ensures selectionRemoved <==> selectedItem.Some? && selectedItem.value in old(visibleItems)[index + 1..index + 1 + count]
    {
      ghost var was, first := visibleItems, index + 1;
      selectionRemoved := false;
      var removeIndex := index + 1;
      ghost var removed := 0;
      ScanLevels(store, h, was, index, count, kept);
      NothingRemoved(was, first);
      hide StoreOk, ScanOk, CutOut, Among;
      while removeIndex < |visibleItems| && store.level[visibleItems[removeIndex]] > store.level[h]
        invariant removed <= count && visibleItems == CutOut(was, first, removed)
        invariant removeIndex < |visibleItems| ==> visibleItems[removeIndex] < store.Size()
        invariant selectionRemoved <==> selectedItem.Some? && Among(was, first, removed, selectedItem.value)
        decreases count - removed
      {
        var candidate := visibleItems[removeIndex];
        RemoveOne(was, first, removed);
        if selectedItem == Some(candidate) {
          selectionRemoved := true;
        }
        visibleItems := visibleItems[..removeIndex] + visibleItems[removeIndex + 1..];
        removed := removed + 1;
        CutOutAt(was, first, removed);
      }
      CutOutAt(was, first, removed);
      AmongMembers(was, first, removed);
    }
  }

  /** What is left of `was` after `k` removals at `i`. */
  ghost function CutOut(was: seq<nat>, i: nat, k: nat): seq<nat>
    requires i + k <= |was|
  {
    was[..i] + was[i + k..]
  }

  ghost predicate Among(was: seq<nat>, i: nat, k: nat, x: nat)
    requires i + k <= |was|
  {
    exists j :: i <= j < i + k && was[j] == x
  }

  lemma NothingRemoved(was: seq<nat>, i: nat)
    requires i <= |was|
    ensures CutOut(was, i, 0) == was && forall x :: !Among(was, i, 0, x)
  {
  }

  lemma CutOutAt(was: seq<nat>, i: nat, k: nat)
    requires i + k <= |was|
    ensures |CutOut(was, i, k)| == |was| - k && (i + k < |was| ==> CutOut(was, i, k)[i] == was[i + k])
  {
  }

  lemma RemoveOne(was: seq<nat>, i: nat, k: nat)
    requires i + k < |was|
    ensures var v := CutOut(was, i, k);
      i < |v| && v[i] == was[i + k] && v[..i] + v[i + 1..] == CutOut(was, i, k + 1)
    ensures forall x :: Among(was, i, k + 1, x) <==> Among(was, i, k, x) || x == was[i + k]
  {
    forall x
      ensures Among(was, i, k + 1, x) <==> Among(was, i, k, x) || x == was[i + k]
    {
      if x == was[i + k] {
        assert i <= i + k < i + k + 1;
      }
    }
  }

  lemma AmongMembers(was: seq<nat>, i: nat, k: nat)
    requires i + k <= |was|
    ensures forall x :: Among(was, i, k, x) <==> x in was[i..i + k]
  {
    forall x | x in was[i..i + k]
      ensures Among(was, i, k, x)
    {
      var j :| 0 <= j < k && was[i..i + k][j] == x;
      assert was[i + j] == x;
    }
  }

  /** The rows a level scan removes, and the row it stops at. */
  lemma ScanLevels(s: Store, h: nat, was: seq<nat>, index: nat, count: nat, kept: seq<nat>)
    requires RowsOk(s) && h < s.Size() && ScanOk(s, h, was, index, count, kept)
    ensures index + 1 + count <= |was| && kept == CutOut(was, index + 1, count)
    ensures forall j :: index < j < index + 1 + count ==> was[j] < s.Size() && s.level[was[j]] > s.level[h]
    ensures index + 1 + count < |was| ==>
      was[index + 1 + count] < s.Size() && s.level[was[index + 1 + count]] <= s.level[h]
  {
  }

  function Max(a: int, b: int): int {
    if a >= b then a else b
  }

  lemma JustExpanded(s: Store, h: nat, k: nat)
    requires StoreOk(s) && h < s.Size()
    ensures WithChildren(s, h, k).Size() >= s.Size() && |WithChildren(s, h, k).expanded| == WithChildren(s, h, k).Size()
    ensures WithChildren(s, h, k).expanded[h]
  {
  }

  /** Rows created for an item that is collapsed again are not shown. */
  lemma RestoredFlattening(s: Store, h: nat, k: nat, root: nat)
    requires StoreOk(s) && root < s.Size() && h < s.Size() && !s.expanded[h] && h in Flatten(s, root)
    ensures StoreOk(WithChildren(s, h, k))
    ensures h < |WithChildren(s, h, k).expanded|
    ensures var s' := WithChildren(s, h, k); var s'' := s'.(expanded := s'.expanded[h := false]);
      StoreOk(s'') && Flatten(s'', root) == Flatten(s, root)
  {
    WithChildrenOk(s, h, k);
    var s' := WithChildren(s, h, k);
    var s'' := s'.(expanded := s'.expanded[h := false]);
    CollapsedOk(s', h);
    hide ChildrenOk, Flatten;
    var pre, post := Locate(s, s'', h, root);
    Unexpanded(s, h);
    Unexpanded(s'', h);
  }

  lemma RootAdded(s: Store)
    requires StoreOk(s)
    ensures var s' := Store(s.level + [0], s.parent + [None], s.expanded + [false], s.children + [[]]);
      StoreOk(s') && Flatten(s', s.Size()) == [s.Size()]
  {
    var s' := Store(s.level + [0], s.parent + [None], s.expanded + [false], s.children + [[]]);
    forall x | 0 <= x < s'.Size()
      ensures ChildrenOk(s', x)
    {
      if x < s.Size() {
        assert ChildrenOk(s, x);
      }
    }
  }

  lemma InsertKeepsMembers(v: seq<nat>, index: nat, more: seq<nat>)
    requires index < |v|
    ensures forall x: nat :: x in v ==> x in v[..index + 1] + more + v[index + 1..]
  {
    assert v == v[..index + 1] + v[index + 1..];
  }

  lemma ScanMembers(s: Store, v: seq<nat>, index: nat, count: nat, kept: seq<nat>, h: nat)
    requires RowsOk(s) && h < s.Size() && ScanOk(s, h, v, index, count, kept) && Distinct(v)
    ensures h in kept && index + 1 + count <= |v|
    ensures forall x: nat :: x in v ==> (x in kept <==> x !in v[index + 1..index + 1 + count])
  {
    RemovedMembers(v, index, count, kept, h);
  }

  lemma RemovedMembers(v: seq<nat>, index: nat, count: nat, kept: seq<nat>, h: nat)
    requires index + 1 + count <= |v| && kept == v[..index + 1] + v[index + 1 + count..] && v[index] == h && Distinct(v)
    ensures h in kept
    ensures forall x: nat :: x in v ==> (x in kept <==> x !in v[index + 1..index + 1 + count])
  {
    assert kept[index] == h;
    assert v == v[..index + 1] + v[index + 1..index + 1 + count] + v[index + 1 + count..];
    forall x: nat | x in v[index + 1..index + 1 + count]
      ensures x !in kept
    {
      var j :| 0 <= j < count && v[index + 1..index + 1 + count][j] == x;
      assert v[index + 1 + j] == x;
    }
  }
}
