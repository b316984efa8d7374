/** `scan_directory`: the traversal that turns a file system into an observation stream. */
module Worker {
  import opened Words
  import opened Observation
  import opened Forest
  import opened ChildOrder
  import opened Ingest
  import opened Scan
  import opened Outcome
  import opened FileSystem

  datatype StackItem = StackItem(entryId: u32, displayPath: string, dir: Dir)

  datatype Totals = Totals(directories: u64, files: u64, logicalBytes: u64, allocatedBytes: u64, gaps: u32)

  /** `+=` on a 64-bit counter. */
  function WrapAdd(a: u64, b: u64): u64 {
    (a + b) % TWO_64
  }

  // ---- The shape of the stream

  /** Ids count up from 1, and every entry after the first names an earlier directory as its parent. */
  ghost predicate Dense(nodes: seq<Record>) {
    && AllEntries(nodes)
    && (forall i :: 0 <= i < |nodes| ==> IdOf(nodes[i]) == i + 1)
    && (nodes != [] ==> nodes[0].DirectoryRecord? && nodes[0].parentId == 0)
    && forall i :: 0 < i < |nodes| ==> HasParent(nodes, nodes[i], i)
  }

  ghost predicate HasParent(nodes: seq<Record>, r: Record, i: nat)
    requires i <= |nodes| && r.IsEntry()
  {
    1 <= r.parentId <= i && nodes[r.parentId - 1].DirectoryRecord?
  }

  lemma NextAccepted(s: Scan, r: Record)
    requires WellTyped(s) && s.terminal.None? && Dense(s.nodes) && |s.nodes| < NONE
    requires r.IsEntry() && IdOf(r) == |s.nodes| + 1
    requires if s.nodes == [] then r.DirectoryRecord? && r.parentId == 0 else HasParent(s.nodes, r, |s.nodes|)
    ensures Step(s, r) == (s.(nodes := s.nodes + [r]), None) && Dense(s.nodes + [r])
  {
    hide Dense, WellTyped;
    NextVerdict(s.nodes, r);
    DenseAppend(s.nodes, r);
  }

  lemma NextVerdict(nodes: seq<Record>, r: Record)
    requires Dense(nodes) && r.IsEntry() && IdOf(r) == |nodes| + 1
    requires if nodes == [] then r.DirectoryRecord? && r.parentId == 0 else HasParent(nodes, r, |nodes|)
    ensures CheckEntry(NodeIds(nodes), EntriesOf(nodes), r.entryId, r.parentId, KindOf(r)).None?
  {
    var ids := NodeIds(nodes);
    if nodes != [] {
      assert r.entryId !in ids;
      assert ids[r.parentId - 1] == r.parentId;
      IndexOfUnique(ids, r.parentId - 1);
    }
  }

  lemma DenseAppend(nodes: seq<Record>, r: Record)
    requires Dense(nodes) && r.IsEntry() && IdOf(r) == |nodes| + 1
    requires if nodes == [] then r.DirectoryRecord? && r.parentId == 0 else HasParent(nodes, r, |nodes|)
    ensures Dense(nodes + [r])
  {
    var nodes' := nodes + [r];
    forall i | 0 < i < |nodes'|
      ensures HasParent(nodes', nodes'[i], i)
    {
      assert i < |nodes| ==> HasParent(nodes, nodes[i], i);
    }
  }

  lemma DenseParents(nodes: seq<Record>)
    requires Dense(nodes) && nodes != []
    ensures IsTree(ParentsOf(nodes)) && forall x :: 0 < x < |nodes| ==> ParentsOf(nodes)[x] == nodes[x].parentId - 1
  {
    forall x | 0 < x < |nodes|
      ensures ParentsOf(nodes)[x] == nodes[x].parentId - 1
    {
      var ids := NodeIds(nodes);
      assert HasParent(nodes, nodes[x], x);
      assert ids[nodes[x].parentId - 1] == nodes[x].parentId;
      IndexOfUnique(ids, nodes[x].parentId - 1);
    }
  }

  // ---- The tree a stream describes

  ghost function Children(par: seq<nat>, x: nat): (r: seq<nat>)
    requires IsTree(par)
    ensures r == ChildList(par, x, |par|) && forall i :: 0 <= i < |r| ==> x < r[i] < |par|
  {
    ChildListMeaning(par, x, |par|);
    var r := ChildList(par, x, |par|);
    assert forall i :: 0 <= i < |r| ==> r[i] in r;
    r
  }

  /** The subtree of entry `x`, children in arrival order. */
  ghost function TreeAt(nodes: seq<Record>, par: seq<nat>, x: nat): Tree
    requires AllEntries(nodes) && IsTree(par) && |par| == |nodes| && x < |nodes|
    decreases |nodes| - x
  {
    var kids := Children(par, x);
    Tree(Anonymous(nodes[x]), seq(|kids|, i requires 0 <= i < |kids| => TreeAt(nodes, par, kids[i])))
  }

  lemma {:induction false} ChildRange(par: seq<nat>, x: nat, start: nat, count: nat, m: nat)
    requires m <= |par| && 0 < start && start + count <= |par|
    requires forall c :: 0 < c < |par| ==> (par[c] == x <==> start <= c < start + count)
    ensures ChildList(par, x, m) == seq(if m <= start then 0 else if m <= start + count then m - start else count, k => start + k)
    decreases m
  {
    if m > 0 {
      ChildRange(par, x, start, count, m - 1);
    }
  }

  // ---- What the traversal knows about each entry

  /** An entry is not a visited directory; waits on the stack; or has `count` of its kept items listed, at `start`. */
  datatype Status = Leaf | Waiting(dir: Dir, pos: nat) | Listed(dir: Dir, start: nat, count: nat)

  ghost predicate ItemStatus(st: Status, item: Item) {
    if Descends(item.fact) then !st.Leaf? && st.dir == item.below else st.Leaf?
  }

  ghost predicate ChildrenAre(nodes: seq<Record>, x: nat, start: nat, count: nat)
    requires AllEntries(nodes)
  {
    forall c :: 0 < c < |nodes| ==> (nodes[c].parentId == x + 1 <==> start <= c < start + count)
  }

  ghost predicate ItemShown(nodes: seq<Record>, status: seq<Status>, x: nat, c: nat, item: Item)
    requires AllEntries(nodes) && |status| == |nodes|
  {
    c < |nodes| && x < U32_MAX && c < U32_MAX
    && nodes[c] == RecordOf(item.fact, c + 1, x + 1) && ItemStatus(status[c], item)
  }

  ghost predicate NodeOk(nodes: seq<Record>, status: seq<Status>, x: nat)
    requires AllEntries(nodes) && |status| == |nodes| && x < |nodes|
  {
    match status[x]
    case Leaf => ChildrenAre(nodes, x, |nodes|, 0)
    case Waiting(_, _) => ChildrenAre(nodes, x, |nodes|, 0)
    case Listed(dir, start, count) =>
      var kept := Kept(Items(dir));
      && count <= |kept| && x < start && start + count <= |nodes|
      && ChildrenAre(nodes, x, start, count)
      && forall k :: 0 <= k < count ==> ItemShown(nodes, status, x, start + k, kept[k])
  }

  ghost predicate Complete(st: Status) {
    st.Listed? ==> st.count == |Kept(Items(st.dir))|
  }

  ghost predicate StackedOk(nodes: seq<Record>, status: seq<Status>, item: StackItem, k: nat)
    requires |status| == |nodes|
  {
    && 1 <= item.entryId <= |nodes| && nodes[item.entryId - 1].DirectoryRecord?
    && status[item.entryId - 1] == Waiting(item.dir, k)
  }

  ghost predicate WaitingOk(st: Status, stack: seq<StackItem>, x: nat) {
    st.Waiting? ==> st.pos < |stack| && stack[st.pos].entryId == x + 1
  }

  /** The waiting entries are exactly those on the stack. */
  ghost predicate StackOk(nodes: seq<Record>, status: seq<Status>, stack: seq<StackItem>) {
    && |status| == |nodes|
    && (forall k :: 0 <= k < |stack| ==> StackedOk(nodes, status, stack[k], k))
    && forall x :: 0 <= x < |nodes| ==> WaitingOk(status[x], stack, x)
  }

  ghost predicate Explained(nodes: seq<Record>, status: seq<Status>, stack: seq<StackItem>) {
    && |status| == |nodes| && Dense(nodes) && StackOk(nodes, status, stack)
    && forall x :: 0 <= x < |nodes| ==> NodeOk(nodes, status, x)
  }

  /** Everything but possibly `x` is listed in full; `x` is being listed at the end. */
  ghost predicate Listing(nodes: seq<Record>, status: seq<Status>, x: nat, dir: Dir, count: nat) {
    && |status| == |nodes| && x < |nodes| && nodes[x].DirectoryRecord?
    && count <= |nodes| && status[x] == Listed(dir, |nodes| - count, count)
    && forall y :: 0 <= y < |nodes| && y != x ==> Complete(status[y])
  }

  ghost predicate AllComplete(status: seq<Status>) {
    forall y :: 0 <= y < |status| ==> Complete(status[y])
  }

  lemma PopKeeps(nodes: seq<Record>, status: seq<Status>, stack: seq<StackItem>)
    requires Explained(nodes, status, stack) && AllComplete(status) && stack != []
    ensures var top := stack[|stack| - 1];
      var x := top.entryId - 1;
      && 0 <= x < |nodes|
      && Explained(nodes, status[x := Listed(top.dir, |nodes|, 0)], stack[..|stack| - 1])
      && Listing(nodes, status[x := Listed(top.dir, |nodes|, 0)], x, top.dir, 0)
  {
    var top, stack' := stack[|stack| - 1], stack[..|stack| - 1];
    var x := top.entryId - 1;
    assert StackedOk(nodes, status, top, |stack| - 1);
    var status' := status[x := Listed(top.dir, |nodes|, 0)];
    forall k | 0 <= k < |stack'|
      ensures StackedOk(nodes, status', stack'[k], k)
    {
      assert StackedOk(nodes, status, stack[k], k);
    }
    forall y | 0 <= y < |nodes|
      ensures WaitingOk(status'[y], stack', y)
    {
      assert WaitingOk(status[y], stack, y);
    }
    forall y | 0 <= y < |nodes|
      ensures NodeOk(nodes, status', y)
    {
      PopKeepsNode(nodes, status, x, top.dir, y);
    }
  }

  lemma PopKeepsNode(nodes: seq<Record>, status: seq<Status>, x: nat, dir: Dir, y: nat)
    requires AllEntries(nodes) && |status| == |nodes| && x < |nodes| && y < |nodes|
    requires NodeOk(nodes, status, y) && status[x].Waiting? && status[x].dir == dir
    ensures NodeOk(nodes, status[x := Listed(dir, |nodes|, 0)], y)
  {
    hide ChildrenAre;
    if status[y].Listed? {
      var kept := Kept(Items(status[y].dir));
      forall k | 0 <= k < status[y].count
        ensures ItemShown(nodes, status[x := Listed(dir, |nodes|, 0)], y, status[y].start + k, kept[k])
      {
        assert ItemShown(nodes, status, y, status[y].start + k, kept[k]);
      }
    }
  }

  function StatusFor(item: Item, pos: nat): Status {
    if Descends(item.fact) then Waiting(item.below, pos) else Leaf
  }

  function StackWith(stack: seq<StackItem>, id: u32, path: string, item: Item): seq<StackItem> {
    if Descends(item.fact) then stack + [StackItem(id, path, item.below)] else stack
  }

  /** The entry `r` with status `st` has been appended, and the status of `x` advanced to `stx`. */
  ghost predicate Appended(nodes: seq<Record>, status: seq<Status>, x: nat, stx: Status, r: Record, st: Status,
                           nodes': seq<Record>, status': seq<Status>)
  {
    && |status| == |nodes| && |status'| == |nodes'| == |nodes| + 1 && x < |nodes|
    && AllEntries(nodes) && AllEntries(nodes')
    && (forall y :: 0 <= y < |nodes| ==> nodes'[y] == nodes[y] && status'[y] == if y == x then stx else status[y])
    && nodes'[|nodes|] == r && status'[|nodes|] == st
  }

  lemma ChildrenKept(nodes: seq<Record>, r: Record, nodes': seq<Record>, y: nat, start: nat, count: nat)
    requires AllEntries(nodes) && AllEntries(nodes') && |nodes'| == |nodes| + 1 && nodes'[|nodes|] == r && r.IsEntry()
    requires forall i :: 0 <= i < |nodes| ==> nodes'[i] == nodes[i]
    requires ChildrenAre(nodes, y, start, count) && nodes != []
    ensures r.parentId != y + 1 && start + count <= |nodes| ==> ChildrenAre(nodes', y, start, count)
    ensures r.parentId != y + 1 && count == 0 ==> ChildrenAre(nodes', y, start, 0) && ChildrenAre(nodes', y, start + 1, 0)
    ensures r.parentId == y + 1 && start + count == |nodes| ==> ChildrenAre(nodes', y, start, count + 1)
  {
  }

  lemma ItemsKept(nodes: seq<Record>, status: seq<Status>, x: nat, stx: Status, r: Record, st: Status,
                  nodes': seq<Record>, status': seq<Status>, y: nat, c: nat, item: Item)
    requires Appended(nodes, status, x, stx, r, st, nodes', status') && ItemShown(nodes, status, y, c, item)
    requires stx.Listed? && status[x].Listed? && stx.dir == status[x].dir
    ensures ItemShown(nodes', status', y, c, item)
  {
  }

  lemma AppendedAt(nodes: seq<Record>, status: seq<Status>, x: nat, stx: Status, r: Record, st: Status,
                   nodes': seq<Record>, status': seq<Status>)
    requires Appended(nodes, status, x, stx, r, st, nodes', status')
    ensures |status| == |nodes| && |status'| == |nodes'| == |nodes| + 1 && x < |nodes| && AllEntries(nodes) && AllEntries(nodes')
    ensures status'[x] == stx && nodes'[|nodes|] == r && status'[|nodes|] == st
    ensures forall y :: 0 <= y < |nodes| ==> nodes'[y] == nodes[y]
  {
  }

  lemma OldNodeKept(nodes: seq<Record>, status: seq<Status>, x: nat, stx: Status, r: Record, st: Status,
                    nodes': seq<Record>, status': seq<Status>, y: nat)
    requires Appended(nodes, status, x, stx, r, st, nodes', status') && y < |nodes| && y != x && NodeOk(nodes, status, y)
    requires r.IsEntry() && r.parentId == x + 1
    requires stx.Listed? && status[x].Listed? && stx.dir == status[x].dir
    ensures NodeOk(nodes', status', y)
  {
    match status[y] {
      case Leaf => ChildrenKept(nodes, r, nodes', y, |nodes|, 0);
      case Waiting(_, _) => ChildrenKept(nodes, r, nodes', y, |nodes|, 0);
      case Listed(dir, start, count) =>
        ChildrenKept(nodes, r, nodes', y, start, count);
        forall k | 0 <= k < count
          ensures ItemShown(nodes', status', y, start + k, Kept(Items(dir))[k])
        {
          ItemsKept(nodes, status, x, stx, r, st, nodes', status', y, start + k, Kept(Items(dir))[k]);
        }
    }
  }

  lemma NewItemShown(nodes: seq<Record>, status: seq<Status>, x: nat, stx: Status, r: Record, st: Status,
                     nodes': seq<Record>, status': seq<Status>, item: Item)
    requires Appended(nodes, status, x, stx, r, st, nodes', status') && |nodes| < U32_MAX
    requires r == RecordOf(item.fact, |nodes| + 1, x + 1) && ItemStatus(st, item)
    ensures ItemShown(nodes', status', x, |nodes|, item)
  {
  }

  lemma ListedNodeGrows(nodes: seq<Record>, status: seq<Status>, x: nat, dir: Dir, count: nat, r: Record, st: Status,
                        nodes': seq<Record>, status': seq<Status>)
    requires count <= |nodes| && Appended(nodes, status, x, Listed(dir, |nodes| - count, count + 1), r, st, nodes', status')
    requires status[x] == Listed(dir, |nodes| - count, count) && NodeOk(nodes, status, x)
    requires count < |Kept(Items(dir))| && |nodes| < U32_MAX
    requires r == RecordOf(Kept(Items(dir))[count].fact, |nodes| + 1, x + 1) && ItemStatus(st, Kept(Items(dir))[count])
    ensures NodeOk(nodes', status', x)
  {
    hide Appended, ChildrenAre, ItemStatus, ItemShown;
    var start, stx := |nodes| - count, Listed(dir, |nodes| - count, count + 1);
    AppendedAt(nodes, status, x, stx, r, st, nodes', status');
    ChildrenKept(nodes, r, nodes', x, start, count);
    forall k | 0 <= k < count + 1
      ensures ItemShown(nodes', status', x, start + k, Kept(Items(dir))[k])
    {
      if k < count {
        ItemsKept(nodes, status, x, stx, r, st, nodes', status', x, start + k, Kept(Items(dir))[k]);
      } else {
        NewItemShown(nodes, status, x, stx, r, st, nodes', status', Kept(Items(dir))[count]);
      }
    }
  }

  lemma NewNodeOk(nodes: seq<Record>, status: seq<Status>, x: nat, stx: Status, r: Record, st: Status,
                  nodes': seq<Record>, status': seq<Status>)
    requires Appended(nodes, status, x, stx, r, st, nodes', status') && Dense(nodes')
    requires !st.Listed?
    ensures NodeOk(nodes', status', |nodes|)
  {
    forall c | 0 < c < |nodes'|
      ensures nodes'[c].parentId != |nodes| + 1
    {
      assert HasParent(nodes', nodes'[c], c);
    }
  }

  lemma AppendKeeps(nodes: seq<Record>, status: seq<Status>, stack: seq<StackItem>, x: nat, dir: Dir, count: nat, path: string)
    requires Explained(nodes, status, stack) && Listing(nodes, status, x, dir, count)
    requires count < |Kept(Items(dir))| && |nodes| < U32_MAX
    requires Dense(nodes + [RecordOf(Kept(Items(dir))[count].fact, |nodes| + 1, x + 1)])
    ensures var item := Kept(Items(dir))[count];
      var nodes' := nodes + [RecordOf(item.fact, |nodes| + 1, x + 1)];
      var status' := status[x := Listed(dir, |nodes| - count, count + 1)] + [StatusFor(item, |stack|)];
      && Explained(nodes', status', StackWith(stack, |nodes| + 1, path, item))
      && Listing(nodes', status', x, dir, count + 1)
  {
    var item := Kept(Items(dir))[count];
    var stx, r, st := Listed(dir, |nodes| - count, count + 1), RecordOf(item.fact, |nodes| + 1, x + 1), StatusFor(item, |stack|);
    var nodes', status' := nodes + [r], status[x := stx] + [st];
    assert Appended(nodes, status, x, stx, r, st, nodes', status');
    forall y | 0 <= y < |nodes'|
      ensures NodeOk(nodes', status', y)
    {
      if y == |nodes| {
        NewNodeOk(nodes, status, x, stx, r, st, nodes', status');
      } else if y == x {
        ListedNodeGrows(nodes, status, x, dir, count, r, st, nodes', status');
      } else {
        OldNodeKept(nodes, status, x, stx, r, st, nodes', status', y);
      }
    }
    StackGrows(nodes, status, stack, x, stx, r, item, path, nodes', status');
  }

  lemma StackGrows(nodes: seq<Record>, status: seq<Status>, stack: seq<StackItem>, x: nat, stx: Status, r: Record, item: Item, path: string,
                   nodes': seq<Record>, status': seq<Status>)
    requires StackOk(nodes, status, stack) && |nodes| < U32_MAX
    requires Appended(nodes, status, x, stx, r, StatusFor(item, |stack|), nodes', status')
    requires Descends(item.fact) ==> r.DirectoryRecord?
    requires stx.Listed? && status[x].Listed?
    ensures StackOk(nodes', status', StackWith(stack, |nodes| + 1, path, item))
  {
    var stack' := StackWith(stack, |nodes| + 1, path, item);
    forall k | 0 <= k < |stack'|
      ensures StackedOk(nodes', status', stack'[k], k)
    {
      if k < |stack| {
        assert StackedOk(nodes, status, stack[k], k);
      }
    }
    forall y | 0 <= y < |nodes'|
      ensures WaitingOk(status'[y], stack', y)
    {
      if y < |nodes| {
        assert WaitingOk(status[y], stack, y);
      }
    }
  }

  // ---- From the statuses to the tree

  /** A directory listed in full, or not at all. */
  ghost predicate Whole(st: Status) {
    st.Listed? ==> st.count == 0 || st.count == |Kept(Items(st.dir))|
  }

  /** `par` is the parent vector of a dense stream. */
  ghost predicate ParentVector(nodes: seq<Record>, par: seq<nat>) {
    && AllEntries(nodes) && IsTree(par) && |par| == |nodes|
    && forall x :: 0 < x < |nodes| ==> par[x] == nodes[x].parentId - 1
  }

  /** The tree `par` over `nodes`, the statuses, and whether they are expected to be complete. */
  ghost predicate Explains(nodes: seq<Record>, par: seq<nat>, status: seq<Status>, exact: bool) {
    && ParentVector(nodes, par) && |status| == |nodes|
    && forall y :: 0 <= y < |nodes| ==>
         NodeOk(nodes, status, y) && Whole(status[y]) && (exact ==> Complete(status[y]) && !status[y].Waiting?)
  }

  lemma ShownChildren(nodes: seq<Record>, par: seq<nat>, status: seq<Status>, x: nat)
    requires ParentVector(nodes, par) && |status| == |nodes| && x < |nodes| && NodeOk(nodes, status, x)
    ensures match status[x]
      case Listed(dir, start, count) => Children(par, x) == seq(count, k => start + k)
      case _ => Children(par, x) == []
  {
    if status[x].Listed? {
      ChildRange(par, x, status[x].start, status[x].count, |par|);
    } else {
      ChildRange(par, x, |nodes|, 0, |par|);
    }
  }

  /** What `Explains` says about a directory entry. */
  lemma ExplainsAt(nodes: seq<Record>, par: seq<nat>, status: seq<Status>, exact: bool, x: nat)
    requires Explains(nodes, par, status, exact) && x < |nodes|
    ensures AllEntries(nodes) && IsTree(par) && |par| == |status| == |nodes|
    ensures match status[x]
      case Leaf => Children(par, x) == []
      case Waiting(_, _) => !exact && Children(par, x) == []
      case Listed(dir, start, count) =>
        && Children(par, x) == seq(count, k => start + k) && x < start && start + count <= |nodes|
        && (count == |Kept(Items(dir))| || (count == 0 && !exact))
  {
    ShownChildren(nodes, par, status, x);
  }

  lemma ExplainsItem(nodes: seq<Record>, par: seq<nat>, status: seq<Status>, exact: bool, x: nat, k: nat)
    requires Explains(nodes, par, status, exact) && x < |nodes| && |status| == |nodes| && status[x].Listed? && k < status[x].count
    ensures status[x].count <= |Kept(Items(status[x].dir))|
    ensures var c, item := status[x].start + k, Kept(Items(status[x].dir))[k];
      && x < c < |nodes| && nodes[c].IsEntry() && Anonymous(nodes[c]) == Anonymous(RecordOf(item.fact, 0, 0)) && ItemStatus(status[c], item)
  {
    assert NodeOk(nodes, status, x);
    assert ItemShown(nodes, status, x, status[x].start + k, Kept(Items(status[x].dir))[k]);
  }

  /** `Cut`, and equality if `exact`. */
  ghost predicate Shows(t: Tree, full: Tree, exact: bool) {
    Cut(t, full) && (exact ==> t == full)
  }

  lemma ListedIsCut(nodes: seq<Record>, par: seq<nat>, x: nat, dir: Dir, start: nat, count: nat, exact: bool)
    requires AllEntries(nodes) && IsTree(par) && |par| == |nodes| && x < start && start + count <= |nodes|
    requires Children(par, x) == seq(count, k => start + k)
    requires count == |Kept(Items(dir))| || (count == 0 && !exact)
    requires forall k :: 0 <= k < count ==> Shows(TreeAt(nodes, par, start + k), VisibleItem(dir, Kept(Items(dir))[k]), exact)
    ensures Shows(TreeAt(nodes, par, x), Visible(Anonymous(nodes[x]), dir), exact)
  {
    var t, full := TreeAt(nodes, par, x), Visible(Anonymous(nodes[x]), dir);
    assert |t.children| == count;
    forall k | 0 <= k < count
      ensures t.children[k] == TreeAt(nodes, par, start + k) && full.children[k] == VisibleItem(dir, Kept(Items(dir))[k])
      ensures Shows(t.children[k], full.children[k], exact)
    {
    }
  }

  lemma UnlistedIsCut(nodes: seq<Record>, par: seq<nat>, x: nat, full: Tree, exact: bool)
    requires AllEntries(nodes) && IsTree(par) && |par| == |nodes| && x < |nodes| && Children(par, x) == []
    requires full.entry == Anonymous(nodes[x]) && (exact ==> full.children == [])
    ensures Shows(TreeAt(nodes, par, x), full, exact)
  {
  }

  lemma {:induction false} TreeIsCut(nodes: seq<Record>, par: seq<nat>, status: seq<Status>, exact: bool, x: nat)
    requires Explains(nodes, par, status, exact) && AllEntries(nodes) && IsTree(par) && |par| == |status| == |nodes|
    requires x < |nodes| && !status[x].Leaf?
    ensures Shows(TreeAt(nodes, par, x), Visible(Anonymous(nodes[x]), status[x].dir), exact)
    decreases |nodes| - x
  {
    hide Explains, Shows, TreeAt, VisibleItem;
    ExplainsAt(nodes, par, status, exact, x);
    var dir := status[x].dir;
    if status[x].Listed? {
      var start, count := status[x].start, status[x].count;
      forall k | 0 <= k < count
        ensures Shows(TreeAt(nodes, par, start + k), VisibleItem(dir, Kept(Items(dir))[k]), exact)
      {
        ItemIsCut(nodes, par, status, exact, x, k);
      }
      ListedIsCut(nodes, par, x, dir, start, count, exact);
    } else {
      UnlistedIsCut(nodes, par, x, Visible(Anonymous(nodes[x]), dir), exact);
    }
  }

  lemma {:induction false} ItemIsCut(nodes: seq<Record>, par: seq<nat>, status: seq<Status>, exact: bool, x: nat, k: nat)
    requires Explains(nodes, par, status, exact) && AllEntries(nodes) && IsTree(par) && |par| == |status| == |nodes|
    requires x < |nodes| && status[x].Listed? && k < status[x].count <= |Kept(Items(status[x].dir))|
    ensures x < status[x].start + k < |nodes|
    ensures Shows(TreeAt(nodes, par, status[x].start + k), VisibleItem(status[x].dir, Kept(Items(status[x].dir))[k]), exact)
    decreases |nodes| - x, 0
  {
    hide Explains, Shows, TreeAt, Visible;
    ExplainsItem(nodes, par, status, exact, x, k);
    var c, item := status[x].start + k, Kept(Items(status[x].dir))[k];
    if Descends(item.fact) {
      TreeIsCut(nodes, par, status, exact, c);
    } else {
      ExplainsAt(nodes, par, status, exact, c);
      UnlistedIsCut(nodes, par, c, Tree(Anonymous(nodes[c]), []), exact);
    }
  }

  // ---- The traversal

  /** The local variables of the traversal: the records written, the next id, the counters, the directories to visit. */
  datatype Work = Work(records: seq<Record>, nextEntryId: u32, totals: Totals, stack: seq<StackItem>)

  /** The counters after an entry has been written. */
  function Counted(t: Totals, r: Record): Totals
    requires r.IsEntry()
  {
    match r
    case SpecialRecord(_, _, _, _, _) => t
    case DirectoryRecord(_, _, _, _, _, alloc, _) =>
      t.(directories := WrapAdd(t.directories, 1), allocatedBytes := WrapAdd(t.allocatedBytes, alloc.GetOr(0)))
    case FileRecord(_, _, _, _, _, alloc, _, logical) =>
      t.(files := WrapAdd(t.files, 1), logicalBytes := WrapAdd(t.logicalBytes, logical),
         allocatedBytes := WrapAdd(t.allocatedBytes, alloc.GetOr(0)))
  }

  ghost predicate TotalsOk(s: Scan, t: Totals) {
    && t.directories == Total(s.nodes, IsDir) && t.files == Total(s.nodes, IsFile)
    && t.logicalBytes == Total(s.nodes, LogicalBytes) % TWO_64 && t.allocatedBytes == Total(s.nodes, AllocatedBytes) % TWO_64
    && t.gaps == |s.gaps| % (U32_MAX + 1)
  }

  /** The records written so far form the accepted stream `s`. */
  ghost predicate Streamed(w: Work, s: Scan) {
    && |w.records| < NONE - 1 && Accepted(w.records) && Run(w.records).0 == s
    && s.terminal.None? && s.streams == [] && |s.nodes| + |s.gaps| == |w.records|
    && w.nextEntryId == |s.nodes| + 1 && TotalsOk(s, w.totals) && Dense(s.nodes)
  }

  lemma EmitEntry(w: Work, s: Scan, r: Record, stack: seq<StackItem>)
    requires Streamed(w, s) && |w.records| < NONE - 2 && r.IsEntry() && IdOf(r) == w.nextEntryId
    requires if s.nodes == [] then r.DirectoryRecord? && r.parentId == 0 else |s.nodes| > 0 && HasParent(s.nodes, r, |s.nodes|)
    ensures var w' := Work(w.records + [r], w.nextEntryId + 1, Counted(w.totals, r), stack);
      Streamed(w', s.(nodes := s.nodes + [r]))
  {
    hide Step, Dense, TotalsOk, Run, HasParent;
    NextAccepted(s, r);
    RunStep(w.records, r);
    CountEntry(s, w.totals, r);
  }

  lemma CountEntry(s: Scan, t: Totals, r: Record)
    requires TotalsOk(s, t) && r.IsEntry() && |s.nodes| < U32_MAX
    ensures TotalsOk(s.(nodes := s.nodes + [r]), Counted(t, r))
  {
    hide Total;
    CountBound(s.nodes);
    TotalAppend(s.nodes, r, IsDir);
    TotalAppend(s.nodes, r, IsFile);
    TotalAppend(s.nodes, r, LogicalBytes);
    TotalAppend(s.nodes, r, AllocatedBytes);
    WrapTotals(Total(s.nodes, LogicalBytes), LogicalBytes(r));
    WrapTotals(Total(s.nodes, AllocatedBytes), AllocatedBytes(r));
  }

  lemma WrapTotals(a: nat, b: nat)
    ensures (a % TWO_64 + b) % TWO_64 == (a + b) % TWO_64
  {
  }

  lemma EmitGap(w: Work, s: Scan, gap: Gap)
    requires Streamed(w, s) && |w.records| < NONE - 2
    ensures var w' := w.(records := w.records + [GapRecord(gap)], totals := w.totals.(gaps := (w.totals.gaps + 1) % (U32_MAX + 1)));
      Streamed(w', s.(gaps := s.gaps + [gap]))
  {
    hide Dense, Run;
    RunStep(w.records, GapRecord(gap));
  }

  // ---- What is still owed by the directories on the stack

  ghost function StackMeasure(stack: seq<StackItem>, own: Dir -> nat, each: Fact -> nat): nat {
    if stack == [] then 0
    else StackMeasure(stack[..|stack| - 1], own, each) + Measure(stack[|stack| - 1].dir, own, each)
  }

  /** The stack and the items of `dir` from index `i` on. */
  ghost function Owing(stack: seq<StackItem>, dir: Dir, i: nat, own: Dir -> nat, each: Fact -> nat): int
    requires i <= |Items(dir)|
  {
    StackMeasure(stack, own, each) + MeasureItems(dir, |Items(dir)|, own, each) - MeasureItems(dir, i, own, each)
  }

  lemma OwingStep(stack: seq<StackItem>, dir: Dir, i: nat, own: Dir -> nat, each: Fact -> nat, id: u32, path: string)
    requires i < |Items(dir)|
    ensures var item := Items(dir)[i];
      Owing(stack, dir, i, own, each) ==
        if IsDots(item.fact.name) then Owing(stack, dir, i + 1, own, each)
        else each(item.fact) + Owing(StackWith(stack, id, path, item), dir, i + 1, own, each)
  {
    var item := Items(dir)[i];
    assert (stack + [StackItem(id, path, item.below)])[..|stack|] == stack;
  }

  lemma {:induction false} OwingNonNegative(stack: seq<StackItem>, dir: Dir, i: nat, own: Dir -> nat, each: Fact -> nat)
    requires i <= |Items(dir)|
    ensures 0 <= StackMeasure(stack, own, each) <= Owing(stack, dir, i, own, each)
    decreases |Items(dir)| - i
  {
    if i < |Items(dir)| {
      OwingNonNegative(stack, dir, i + 1, own, each);
    }
  }

  /** Whether an enumeration was interrupted by cancellation. */
  function Stops(dir: Dir): nat { if dir.Interrupted? then 1 else 0 }

  /** `each` gives what a fact adds to the total of `q`, whatever ids its record gets. */
  ghost predicate Weighs(q: Record -> nat, each: Fact -> nat) {
    forall fact, id: u32, parentId: u32 :: q(RecordOf(fact, id, parentId)) == each(fact)
  }

  /** What is already written plus what is owed is the root's own and that of the whole tree. */
  ghost predicate Weighed(tree: Dir, s: Scan, stack: seq<StackItem>, dir: Dir, i: nat, q: Record -> nat, each: Fact -> nat)
    requires i <= |Items(dir)|
  {
    s.nodes != [] && Total(s.nodes, q) + Owing(stack, dir, i, NoDir, each) == q(s.nodes[0]) + Measure(tree, NoDir, each)
  }

  /** This holds of every quantity that facts determine. */
  ghost predicate AllWeighed(tree: Dir, s: Scan, stack: seq<StackItem>, dir: Dir, i: nat)
    requires i <= |Items(dir)|
  {
    forall q: Record -> nat, each: Fact -> nat :: Weighs(q, each) ==> Weighed(tree, s, stack, dir, i, q, each)
  }

  /** Bytes are such quantities. */
  lemma FactsWeighed()
    ensures Weighs(LogicalBytes, LogicalOfFact) && Weighs(AllocatedBytes, AllocatedOfFact)
  {
  }

  /** Records, gaps and quantities already written plus those owed make up the whole. */
  ghost predicate Balanced(tree: Dir, s: Scan, stack: seq<StackItem>, dir: Dir, i: nat) {
    && i <= |Items(dir)|
    && |s.nodes| + |s.gaps| + Owing(stack, dir, i, GapHere, OneFact) == Records(tree) + 1
    && |s.gaps| + Owing(stack, dir, i, GapHere, NoFact) == Gaps(tree)
    && Owing(stack, dir, i, Stops, NoFact) <= Measure(tree, Stops, NoFact)
    && AllWeighed(tree, s, stack, dir, i)
  }

  lemma WeighedStep(tree: Dir, s: Scan, stack: seq<StackItem>, dir: Dir, i: nat, id: u32, path: string, r: Record, q: Record -> nat, each: Fact -> nat)
    requires i < |Items(dir)| && Weighed(tree, s, stack, dir, i, q, each)
    ensures IsDots(Items(dir)[i].fact.name) ==> Weighed(tree, s, stack, dir, i + 1, q, each)
    ensures !IsDots(Items(dir)[i].fact.name) && q(r) == each(Items(dir)[i].fact) ==>
      Weighed(tree, s.(nodes := s.nodes + [r]), StackWith(stack, id, path, Items(dir)[i]), dir, i + 1, q, each)
  {
    OwingStep(stack, dir, i, NoDir, each, id, path);
    TotalAppend(s.nodes, r, q);
    hide Owing, Total;
  }

  lemma AllWeighedStep(tree: Dir, s: Scan, stack: seq<StackItem>, dir: Dir, i: nat, id: u32, path: string, parentId: u32)
    requires i < |Items(dir)| && AllWeighed(tree, s, stack, dir, i)
    ensures if IsDots(Items(dir)[i].fact.name) then AllWeighed(tree, s, stack, dir, i + 1)
            else AllWeighed(tree, s.(nodes := s.nodes + [RecordOf(Items(dir)[i].fact, id, parentId)]), StackWith(stack, id, path, Items(dir)[i]), dir, i + 1)
  {
    var r := RecordOf(Items(dir)[i].fact, id, parentId);
    forall q: Record -> nat, each: Fact -> nat | Weighs(q, each)
      ensures if IsDots(Items(dir)[i].fact.name) then Weighed(tree, s, stack, dir, i + 1, q, each)
              else Weighed(tree, s.(nodes := s.nodes + [r]), StackWith(stack, id, path, Items(dir)[i]), dir, i + 1, q, each)
    {
      WeighedStep(tree, s, stack, dir, i, id, path, r, q, each);
    }
  }

  lemma BalanceStep(tree: Dir, s: Scan, stack: seq<StackItem>, dir: Dir, i: nat, id: u32, path: string, parentId: u32)
    requires Balanced(tree, s, stack, dir, i) && i < |Items(dir)|
    ensures if IsDots(Items(dir)[i].fact.name) then Balanced(tree, s, stack, dir, i + 1)
            else Balanced(tree, s.(nodes := s.nodes + [RecordOf(Items(dir)[i].fact, id, parentId)]), StackWith(stack, id, path, Items(dir)[i]), dir, i + 1)
                 && |s.nodes| + |s.gaps| < Records(tree) + 1
  {
    OwingStep(stack, dir, i, GapHere, OneFact, id, path);
    OwingStep(stack, dir, i, GapHere, NoFact, id, path);
    OwingStep(stack, dir, i, Stops, NoFact, id, path);
    AllWeighedStep(tree, s, stack, dir, i, id, path, parentId);
    hide Owing, AllWeighed, RecordOf;
    OwingNonNegative(StackWith(stack, id, path, Items(dir)[i]), dir, i + 1, GapHere, OneFact);
  }

  // ---- The gaps still to come

  /** The gaps below the directories on the stack, from the top down. */
  ghost function StackGaps(stack: seq<StackItem>, message: u32 -> string): seq<Gap> {
    if stack == [] then []
    else
      var top := stack[|stack| - 1];
      GapList(top.dir, top.displayPath, message) + StackGaps(stack[..|stack| - 1], message)
  }

  /** `all` is what is written, then what the items of `dir` from `i` on leave, then what the stack leaves. */
  ghost predicate GapsOwed(all: seq<Gap>, gaps: seq<Gap>, stack: seq<StackItem>, dir: Dir, path: string, i: nat, message: u32 -> string) {
    i <= |Items(dir)| && gaps + (GapsFrom(dir, path, i, message) + StackGaps(stack, message)) == all
  }

  ghost predicate GapsAhead(all: seq<Gap>, gaps: seq<Gap>, stack: seq<StackItem>, message: u32 -> string) {
    gaps + StackGaps(stack, message) == all
  }

  lemma GapsStart(tree: Dir, target: string, message: u32 -> string)
    ensures GapsAhead(GapList(tree, target, message), [], [StackItem(1, target, tree)], message)
  {
    var stack := [StackItem(1, target, tree)];
    assert stack[..0] == [];
    hide GapList;
    assert StackGaps([], message) == [];
    assert StackGaps(stack, message) == GapList(tree, target, message) + [];
    assert [] + (GapList(tree, target, message) + []) == GapList(tree, target, message);
  }

  lemma GapsPop(all: seq<Gap>, gaps: seq<Gap>, stack: seq<StackItem>, message: u32 -> string)
    requires GapsAhead(all, gaps, stack, message) && stack != []
    ensures var top := stack[|stack| - 1];
      GapsOwed(all, gaps + OwnGap(top.dir, top.displayPath, message), stack[..|stack| - 1], top.dir, top.displayPath, 0, message)
    ensures gaps <= all
  {
    var top := stack[|stack| - 1];
    var own, below, rest := OwnGap(top.dir, top.displayPath, message), GapsFrom(top.dir, top.displayPath, 0, message), StackGaps(stack[..|stack| - 1], message);
    assert StackGaps(stack, message) == own + below + rest;
    hide OwnGap, GapsFrom, GapList, StackGaps;
    Regrouped(gaps, own, below, rest);
  }

  lemma Regrouped(a: seq<Gap>, b: seq<Gap>, c: seq<Gap>, d: seq<Gap>)
    ensures a + (b + c + d) == (a + b) + (c + d) && a + (c + b + d) == a + (c + (b + d))
  {
  }

  lemma GapsStep(all: seq<Gap>, gaps: seq<Gap>, stack: seq<StackItem>, dir: Dir, path: string, i: nat, message: u32 -> string, id: u32)
    requires GapsOwed(all, gaps, stack, dir, path, i, message) && i < |Items(dir)|
    ensures var item := Items(dir)[i];
      if IsDots(item.fact.name) then GapsOwed(all, gaps, stack, dir, path, i + 1, message)
      else GapsOwed(all, gaps, StackWith(stack, id, ChildPath(path, item.fact.name), item), dir, path, i + 1, message)
  {
    var item := Items(dir)[i];
    var later, rest := GapsFrom(dir, path, i + 1, message), StackGaps(stack, message);
    hide GapList, IsDots;
    if !IsDots(item.fact.name) && Descends(item.fact) {
      var own := GapList(item.below, ChildPath(path, item.fact.name), message);
      var stack' := StackWith(stack, id, ChildPath(path, item.fact.name), item);
      assert stack'[..|stack|] == stack;
      Regrouped(gaps, own, later, rest);
    } else {
      assert later + [] == later;
    }
  }

  lemma GapsListed(all: seq<Gap>, gaps: seq<Gap>, stack: seq<StackItem>, dir: Dir, path: string, message: u32 -> string)
    requires GapsOwed(all, gaps, stack, dir, path, |Items(dir)|, message)
    ensures GapsAhead(all, gaps, stack, message)
  {
    assert [] + StackGaps(stack, message) == StackGaps(stack, message);
  }

  lemma GapsDone(all: seq<Gap>, gaps: seq<Gap>, message: u32 -> string)
    requires GapsAhead(all, gaps, [], message)
    ensures gaps == all
  {
  }

  // ---- One directory

  /** The invariant of the traversal. */
  ghost predicate AtWork(root: Record, tree: Dir, w: Work, s: Scan, status: seq<Status>) {
    && Streamed(w, s) && Explained(s.nodes, status, w.stack)
    && s.nodes != [] && s.nodes[0] == root && !status[0].Leaf? && status[0].dir == tree
    && Records(tree) < NONE - 3
  }

  method EmitFact(w: Work, current: StackItem, item: Item) returns (w': Work)
    requires w.nextEntryId < U32_MAX
    ensures var r := RecordOf(item.fact, w.nextEntryId, current.entryId);
      w' == Work(w.records + [r], w.nextEntryId + 1, Counted(w.totals, r),
                 StackWith(w.stack, w.nextEntryId, ChildPath(current.displayPath, item.fact.name), item))
  {
    var fact, entryId, t, stack := item.fact, w.nextEntryId, w.totals, w.stack;
    var isDir := HasBit(fact.meta.fileAttributes, FILE_ATTRIBUTE_DIRECTORY);
    var isReparse := HasBit(fact.meta.fileAttributes, FILE_ATTRIBUTE_REPARSE_POINT);
    var isDevice := HasBit(fact.meta.fileAttributes, FILE_ATTRIBUTE_DEVICE);
    var record;
    if isDevice {
      record := SpecialRecord(entryId, current.entryId, fact.name, fact.meta, fact.objectId);
    } else if isDir {
      t := t.(directories := WrapAdd(t.directories, 1));
      record := DirectoryRecord(entryId, current.entryId, fact.name, fact.meta, fact.objectId, fact.allocatedSize, NotApplicable);
      if fact.allocatedSize.Some? {
        t := t.(allocatedBytes := WrapAdd(t.allocatedBytes, fact.allocatedSize.value));
      }
      if !isReparse {
        stack := stack + [StackItem(entryId, ChildPath(current.displayPath, fact.name), item.below)];
      }
    } else {
      t := t.(files := WrapAdd(t.files, 1), logicalBytes := WrapAdd(t.logicalBytes, fact.logicalSize));
      record := FileRecord(entryId, current.entryId, fact.name, fact.meta, fact.objectId, fact.allocatedSize, fact.linkCount, fact.logicalSize);
      if fact.allocatedSize.Some? {
        t := t.(allocatedBytes := WrapAdd(t.allocatedBytes, fact.allocatedSize.value));
      }
    }
    w' := Work(w.records + [record], entryId + 1, t, stack);
  }

  lemma RoomForEntry(root: Record, tree: Dir, w: Work, s: Scan, status: seq<Status>, x: nat, dir: Dir, i: nat)
    requires AtWork(root, tree, w, s, status) && Balanced(tree, s, w.stack, dir, i) && i < |Items(dir)|
    requires Listing(s.nodes, status, x, dir, |Kept(Items(dir)[..i])|) && !IsDots(Items(dir)[i].fact.name)
    ensures |s.nodes| < U32_MAX - 1 && |w.records| < NONE - 2 && w.nextEntryId == |s.nodes| + 1 && x < |s.nodes|
    ensures HasParent(s.nodes, RecordOf(Items(dir)[i].fact, w.nextEntryId, x + 1), |s.nodes|)
    ensures |status| == |s.nodes| && status[x].Listed? && status[x].dir == dir
  {
    hide Explained, Kept, Balanced;
    BalanceStep(tree, s, w.stack, dir, i, 0, "", 0);
  }

  lemma StreamedDense(w: Work, s: Scan)
    requires Streamed(w, s)
    ensures Dense(s.nodes)
  {
  }

  /** Writing the item at index `i` of the directory being listed. */
  lemma FactEmitted(root: Record, tree: Dir, w: Work, s: Scan, status: seq<Status>, x: nat, dir: Dir, i: nat, path: string)
    returns (status': seq<Status>)
    requires AtWork(root, tree, w, s, status) && Balanced(tree, s, w.stack, dir, i) && i < |Items(dir)|
    requires Listing(s.nodes, status, x, dir, |Kept(Items(dir)[..i])|) && !IsDots(Items(dir)[i].fact.name)
    ensures |s.nodes| < U32_MAX - 1 && w.nextEntryId == |s.nodes| + 1
    ensures var r := RecordOf(Items(dir)[i].fact, w.nextEntryId, x + 1);
      var w' := Work(w.records + [r], w.nextEntryId + 1, Counted(w.totals, r), StackWith(w.stack, w.nextEntryId, path, Items(dir)[i]));
      var s' := s.(nodes := s.nodes + [r]);
      && AtWork(root, tree, w', s', status') && Balanced(tree, s', w'.stack, dir, i + 1)
      && Listing(s'.nodes, status', x, dir, |Kept(Items(dir)[..i + 1])|)
  {
    hide Balanced, Explained, Streamed, Listing, Kept, HasParent;
    var item, count := Items(dir)[i], |Kept(Items(dir)[..i])|;
    RoomForEntry(root, tree, w, s, status, x, dir, i);
    var r := RecordOf(item.fact, w.nextEntryId, x + 1);
    BalanceStep(tree, s, w.stack, dir, i, w.nextEntryId, path, x + 1);
    KeptStep(Items(dir), i);
    KeptPrefix(Items(dir), i + 1);
    assert Kept(Items(dir))[count] == item;
    var w' := Work(w.records + [r], w.nextEntryId + 1, Counted(w.totals, r), StackWith(w.stack, w.nextEntryId, path, item));
    EmitEntry(w, s, r, w'.stack);
    StreamedDense(w', s.(nodes := s.nodes + [r]));
    AppendKeeps(s.nodes, status, w.stack, x, dir, count, path);
    status' := status[x := Listed(dir, |s.nodes| - count, count + 1)] + [StatusFor(item, |w.stack|)];
  }

  lemma {:induction false} KeptPrefix(items: seq<Item>, i: nat)
    requires i <= |items|
    ensures Kept(items[..i]) <= Kept(items)
    decreases |items| - i
  {
    if i == |items| {
      assert items[..i] == items;
    } else {
      KeptStep(items, i);
      KeptPrefix(items, i + 1);
    }
  }

  method ListDirectory(w0: Work, current: StackItem, facts: seq<Item>,
                       ghost root: Record, ghost tree: Dir, ghost s0: Scan, ghost status0: seq<Status>,
                       ghost allGaps: seq<Gap>, ghost message: u32 -> string)
    returns (w: Work, ghost s: Scan, ghost status: seq<Status>)
    requires GapsOwed(allGaps, s0.gaps, w0.stack, current.dir, current.displayPath, 0, message)
    requires AtWork(root, tree, w0, s0, status0) && facts == Items(current.dir) && 1 <= current.entryId
    requires Listing(s0.nodes, status0, current.entryId - 1, current.dir, 0) && Balanced(tree, s0, w0.stack, current.dir, 0)
    ensures AtWork(root, tree, w, s, status) && AllComplete(status)
    ensures Balanced(tree, s, w.stack, current.dir, |facts|)
    ensures GapsOwed(allGaps, s.gaps, w.stack, current.dir, current.displayPath, |facts|, message)
    ensures StackMeasure(w.stack, OneDir, NoFact) == Owing(w0.stack, current.dir, 0, OneDir, NoFact)
  {
    hide AtWork, Balanced, Listing, AllComplete, Owing, StackMeasure, Kept, GapsOwed;
    w, s, status := w0, s0, status0;
    ghost var dir, x := current.dir, current.entryId - 1;
    assert Kept(facts[..0]) == [] by { KeptNothing(); }
    assert facts[..0] == [];
    for i := 0 to |facts|
      invariant AtWork(root, tree, w, s, status) && Balanced(tree, s, w.stack, dir, i)
      invariant Listing(s.nodes, status, x, dir, |Kept(facts[..i])|)
      invariant Owing(w.stack, dir, i, OneDir, NoFact) == Owing(w0.stack, dir, 0, OneDir, NoFact)
      invariant GapsOwed(allGaps, s.gaps, w.stack, dir, current.displayPath, i, message)
    {
      GapsStep(allGaps, s.gaps, w.stack, dir, current.displayPath, i, message, w.nextEntryId);
      OwingStep(w.stack, dir, i, OneDir, NoFact, w.nextEntryId, ChildPath(current.displayPath, facts[i].fact.name));
      if IsDots(facts[i].fact.name) {
        BalanceStep(tree, s, w.stack, dir, i, w.nextEntryId, "", 0);
        KeptStep(facts, i);
        continue;
      }
      status := FactEmitted(root, tree, w, s, status, x, dir, i, ChildPath(current.displayPath, facts[i].fact.name));
      s := s.(nodes := s.nodes + [RecordOf(facts[i].fact, w.nextEntryId, x + 1)]);
      w := EmitFact(w, current, facts[i]);
    }
    ListedInFull(s.nodes, status, x, dir);
    NothingOwed(w.stack, dir);
  }

  lemma ListedInFull(nodes: seq<Record>, status: seq<Status>, x: nat, dir: Dir)
    requires Listing(nodes, status, x, dir, |Kept(Items(dir)[..|Items(dir)|])|)
    ensures AllComplete(status)
  {
    assert Items(dir)[..|Items(dir)|] == Items(dir);
    forall y | 0 <= y < |status|
      ensures Complete(status[y])
    {
      if y == x {
        assert status[y].dir == dir;
      }
    }
  }

  lemma NothingOwed(stack: seq<StackItem>, dir: Dir)
    ensures Owing(stack, dir, |Items(dir)|, OneDir, NoFact) == StackMeasure(stack, OneDir, NoFact)
  {
  }

  lemma KeptNothing()
    ensures Kept([]) == []
  {
  }

  // ---- The whole run

  /** The invariant balance between two directories. */
  ghost predicate LoopBalanced(tree: Dir, s: Scan, stack: seq<StackItem>) {
    && |s.nodes| + |s.gaps| + StackMeasure(stack, GapHere, OneFact) == Records(tree) + 1
    && |s.gaps| + StackMeasure(stack, GapHere, NoFact) == Gaps(tree)
    && StackMeasure(stack, Stops, NoFact) <= Measure(tree, Stops, NoFact)
    && forall q: Record -> nat, each: Fact -> nat :: Weighs(q, each) ==> LoopWeighed(tree, s, stack, q, each)
  }

  ghost predicate LoopWeighed(tree: Dir, s: Scan, stack: seq<StackItem>, q: Record -> nat, each: Fact -> nat) {
    s.nodes != [] && Total(s.nodes, q) + StackMeasure(stack, NoDir, each) == q(s.nodes[0]) + Measure(tree, NoDir, each)
  }

  lemma StackOfOne(item: StackItem, own: Dir -> nat, each: Fact -> nat)
    ensures StackMeasure([item], own, each) == Measure(item.dir, own, each)
  {
    hide Measure;
    assert [item][..0] == [];
    assert StackMeasure([], own, each) == 0;
  }

  lemma StartWeighed(item: StackItem, s: Scan, q: Record -> nat, each: Fact -> nat)
    requires |s.nodes| == 1
    ensures LoopWeighed(item.dir, s, [item], q, each)
  {
    hide Measure, StackMeasure;
    StackOfOne(item, NoDir, each);
    TotalAppend([], s.nodes[0], q);
    assert s.nodes == [] + [s.nodes[0]] && Total([], q) == 0;
  }

  lemma StartBalance(item: StackItem, s: Scan)
    requires |s.nodes| == 1 && s.gaps == []
    ensures LoopBalanced(item.dir, s, [item])
  {
    hide Measure, StackMeasure, Weighs, LoopWeighed;
    StackOfOne(item, GapHere, OneFact);
    StackOfOne(item, GapHere, NoFact);
    StackOfOne(item, Stops, NoFact);
    forall q: Record -> nat, each: Fact -> nat | Weighs(q, each)
      ensures LoopWeighed(item.dir, s, [item], q, each)
    {
      StartWeighed(item, s, q, each);
    }
  }

  lemma PopBalance(tree: Dir, s: Scan, stack: seq<StackItem>, gap: Gap)
    requires LoopBalanced(tree, s, stack) && stack != []
    ensures var dir, rest := stack[|stack| - 1].dir, stack[..|stack| - 1];
      && Balanced(tree, if LeavesGap(dir) then s.(gaps := s.gaps + [gap]) else s, rest, dir, 0)
      && (dir.Interrupted? ==> Measure(tree, Stops, NoFact) > 0)
      && StackMeasure(stack, OneDir, NoFact) == 1 + Owing(rest, dir, 0, OneDir, NoFact)
      && 0 <= Owing(rest, dir, 0, OneDir, NoFact)
      && |s.nodes| + |s.gaps| <= Records(tree) + 1
  {
    hide Weighs;
    var dir, rest := stack[|stack| - 1].dir, stack[..|stack| - 1];
    OwingNonNegative(rest, dir, 0, OneDir, NoFact);
    var s' := if LeavesGap(dir) then s.(gaps := s.gaps + [gap]) else s;
    forall q: Record -> nat, each: Fact -> nat | Weighs(q, each)
      ensures Weighed(tree, s', rest, dir, 0, q, each)
    {
      assert LoopWeighed(tree, s, stack, q, each);
    }
  }

  lemma EndBalance(tree: Dir, s: Scan, stack: seq<StackItem>, dir: Dir)
    requires Balanced(tree, s, stack, dir, |Items(dir)|)
    ensures LoopBalanced(tree, s, stack)
  {
    hide Weighs;
    forall q: Record -> nat, each: Fact -> nat | Weighs(q, each)
      ensures LoopWeighed(tree, s, stack, q, each)
    {
      assert Weighed(tree, s, stack, dir, |Items(dir)|, q, each);
    }
  }

  /** What is known about the root before the traversal. */
  datatype RootEvidence =
    | RootMissing(errorCode: u32)
    | RootFound(meta: Meta, objectId: Option<ObjectIdentity>, allocatedSize: Option<u64>)

  function RootRecord(target: string, root: RootEvidence): Record
    requires root.RootFound?
  {
    DirectoryRecord(1, 0, target, root.meta, root.objectId, root.allocatedSize, NotApplicable)
  }

  /** A wrapping 64-bit counter agrees with a saturating one. */
  ghost predicate CountersAgree(total: nat) {
    total % TWO_64 == Min(total, U64_MAX)
  }

  /** They agree up to the first overflow, and by coincidence where the wrapped value is the largest one. */
  lemma CountersAgreeMeaning(total: nat)
    ensures CountersAgree(total) <==> total <= U64_MAX || total % TWO_64 == U64_MAX
  {
  }

  /** A stream with body `s`: one terminal record, the last one. It is accepted precisely if the byte totals,
      which wrap here and saturate in the builder, agree. */
  ghost predicate Delivered(records: seq<Record>, term: Terminal, s: Scan) {
    && 0 < |records| < NONE && records[|records| - 1] == TerminalRecord(term)
    && (forall i :: 0 <= i < |records| - 1 ==> !records[i].TerminalRecord?)
    && Accepted(records[..|records| - 1]) && Run(records[..|records| - 1]).0 == s
    && Dense(s.nodes) && s.streams == []
    && (Accepted(records) <==> CountersAgree(Total(s.nodes, LogicalBytes)) && CountersAgree(Total(s.nodes, AllocatedBytes)))
    && (Accepted(records) ==> Run(records).0 == s.(terminal := Some(term)))
    && WrappedTotals(s, term)
  }

  /** The totals of the terminal record: exact counts, and byte totals that wrapped. */
  ghost predicate WrappedTotals(s: Scan, term: Terminal) {
    && term.totalDirectories == Total(s.nodes, IsDir) && term.totalFiles == Total(s.nodes, IsFile)
    && term.totalLogicalBytes == Total(s.nodes, LogicalBytes) % TWO_64
    && term.totalAllocatedBytes == Total(s.nodes, AllocatedBytes) % TWO_64
    && term.coverageGapCount == |s.gaps| % (U32_MAX + 1)
  }

  lemma {:induction false} NoTerminalInside(records: seq<Record>, i: nat)
    requires |records| <= U32_MAX && Accepted(records) && i < |records| && records[i].TerminalRecord?
    ensures Run(records).0.terminal.Some?
    decreases |records|
  {
    var n := |records| - 1;
    if i < n {
      NoTerminalInside(records[..n], i);
    }
  }

  function TerminalFor(t: Totals, outcome: RunOutcome, duration: u64): Terminal {
    Terminal(outcome, t.directories, t.files, t.logicalBytes, t.allocatedBytes, t.gaps, duration)
  }

  lemma Concluded(w: Work, s: Scan, term: Terminal)
    requires Streamed(w, s) && term == TerminalFor(w.totals, term.outcome, term.durationMs)
    ensures Delivered(w.records + [TerminalRecord(term)], term, s)
  {
    var records := w.records + [TerminalRecord(term)];
    assert records[..|records| - 1] == w.records;
    RunStep(w.records, TerminalRecord(term));
    forall i | 0 <= i < |w.records|
      ensures !w.records[i].TerminalRecord?
    {
      if w.records[i].TerminalRecord? {
        NoTerminalInside(w.records, i);
      }
    }
    TerminalAccepted(s, w.totals, term);
  }

  lemma TerminalAccepted(s: Scan, t: Totals, term: Terminal)
    requires TotalsOk(s, t) && term == TerminalFor(t, term.outcome, term.durationMs)
    requires WellTyped(s) && s.terminal.None? && |s.nodes| <= U32_MAX
    ensures Step(s, TerminalRecord(term)).1.None? <==>
      CountersAgree(Total(s.nodes, LogicalBytes)) && CountersAgree(Total(s.nodes, AllocatedBytes))
    ensures Step(s, TerminalRecord(term)).1.None? ==> Step(s, TerminalRecord(term)).0 == s.(terminal := Some(term))
  {
  }

  /** Every quantity that facts determine adds up, over the entries of `s`, to that of the root and of `tree`, or to at
      most that if the visit is not complete. */
  ghost predicate Sized(root: Record, tree: Dir, s: Scan, exact: bool) {
    forall q: Record -> nat, each: Fact -> nat :: Weighs(q, each) ==>
      Total(s.nodes, q) <= q(root) + Measure(tree, NoDir, each) && (exact ==> Total(s.nodes, q) == q(root) + Measure(tree, NoDir, each))
  }

  /** The allocated bytes of the target: the root's own and those of everything listed below it. */
  ghost function AllocatedTotal(root: RootEvidence, tree: Dir): nat {
    (if root.RootFound? then root.allocatedSize.GetOr(0) else 0) + AllocatedSize(tree)
  }

  /** The byte totals of a file system fit 64 bits. */
  ghost predicate SizesFit(root: RootEvidence, tree: Dir) {
    LogicalSize(tree) <= U64_MAX && AllocatedTotal(root, tree) <= U64_MAX
  }

  /** The byte totals of a file system, as the worker and the builder count them, agree. */
  ghost predicate SizesAgree(root: RootEvidence, tree: Dir) {
    CountersAgree(LogicalSize(tree)) && CountersAgree(AllocatedTotal(root, tree))
  }

  lemma EntriesSized(tree: Dir, s: Scan, stack: seq<StackItem>)
    requires LoopBalanced(tree, s, stack)
    ensures s.nodes != [] && Sized(s.nodes[0], tree, s, stack == [])
  {
    hide Measure, Total, Weighs;
    FactsWeighed();
    assert LoopWeighed(tree, s, stack, LogicalBytes, LogicalOfFact);
  }

  /** The entries of `s` form a tree that shows the visited part of `tree`. */
  ghost predicate ShowsTree(root: Record, tree: Dir, s: Scan, exact: bool)
    requires root.IsEntry()
  {
    && AllEntries(s.nodes) && s.nodes != [] && s.nodes[0] == root && IsTree(ParentsOf(s.nodes))
    && Shows(TreeAt(s.nodes, ParentsOf(s.nodes), 0), Visible(Anonymous(root), tree), exact)
  }

  lemma TreeShown(root: Record, tree: Dir, w: Work, s: Scan, status: seq<Status>, exact: bool)
    requires root.IsEntry() && AtWork(root, tree, w, s, status)
    requires forall y :: 0 <= y < |status| ==> Whole(status[y])
    requires exact ==> AllComplete(status) && w.stack == []
    ensures ShowsTree(root, tree, s, exact)
  {
    DenseParents(s.nodes);
    forall y | 0 <= y < |status|
      ensures NodeOk(s.nodes, status, y) && Whole(status[y]) && (exact ==> Complete(status[y]) && !status[y].Waiting?)
    {
      assert NodeOk(s.nodes, status, y) && WaitingOk(status[y], w.stack, y);
    }
    TreeIsCut(s.nodes, ParentsOf(s.nodes), status, exact, 0);
  }

  lemma ListingIsWhole(nodes: seq<Record>, status: seq<Status>, x: nat, dir: Dir)
    requires Listing(nodes, status, x, dir, 0)
    ensures forall y :: 0 <= y < |status| ==> Whole(status[y])
  {
    forall y | 0 <= y < |status|
      ensures Whole(status[y])
    {
      assert y != x ==> Complete(status[y]);
    }
  }

  lemma CompleteIsWhole(status: seq<Status>)
    requires AllComplete(status)
    ensures forall y :: 0 <= y < |status| ==> Whole(status[y])
  {
    forall y | 0 <= y < |status|
      ensures Whole(status[y])
    {
      assert Complete(status[y]);
    }
  }

  /** Before anything is written. */
  lemma NothingStreamed()
    ensures Streamed(Work([], 1, Totals(0, 0, 0, 0, 0), []), EMPTY_SCAN)
  {
  }

  lemma RootAtWork(root: Record, tree: Dir, target: string, w: Work)
    requires root.DirectoryRecord? && root.entryId == 1 && root.parentId == 0 && Records(tree) < NONE - 3
    requires w == Work([root], 2, Counted(Totals(0, 0, 0, 0, 0), root), [StackItem(1, target, tree)])
    ensures var s := EMPTY_SCAN.(nodes := [root]);
      && AtWork(root, tree, w, s, [Waiting(tree, 0)]) && AllComplete([Waiting(tree, 0)]) && LoopBalanced(tree, s, w.stack)
  {
    NothingStreamed();
    assert [] + [root] == [root];
    EmitEntry(Work([], 1, Totals(0, 0, 0, 0, 0), []), EMPTY_SCAN, root, w.stack);
    StartBalance(w.stack[0], EMPTY_SCAN.(nodes := [root]));
    assert StackedOk([root], [Waiting(tree, 0)], w.stack[0], 0);
    assert NodeOk([root], [Waiting(tree, 0)], 0);
  }

  function GapWork(w: Work, gap: Gap): Work {
    w.(records := w.records + [GapRecord(gap)], totals := w.totals.(gaps := (w.totals.gaps + 1) % (U32_MAX + 1)))
  }

  /** Taking the next directory off the stack, and reporting the gap it leaves, if any. */
  lemma PopDirectory(root: Record, tree: Dir, w: Work, s: Scan, status: seq<Status>, gap: Gap)
    requires AtWork(root, tree, w, s, status) && AllComplete(status) && LoopBalanced(tree, s, w.stack) && w.stack != []
    ensures var top := w.stack[|w.stack| - 1];
      var x, w' := top.entryId - 1, w.(stack := w.stack[..|w.stack| - 1]);
      && 0 <= x < |s.nodes| == |status|
      && var status' := status[x := Listed(top.dir, |s.nodes|, 0)];
      && AtWork(root, tree, w', s, status') && Listing(s.nodes, status', x, top.dir, 0)
      && (LeavesGap(top.dir) ==> AtWork(root, tree, GapWork(w', gap), s.(gaps := s.gaps + [gap]), status'))
      && Balanced(tree, if LeavesGap(top.dir) then s.(gaps := s.gaps + [gap]) else s, w'.stack, top.dir, 0)
      && (top.dir.Interrupted? ==> Measure(tree, Stops, NoFact) > 0)
      && StackMeasure(w.stack, OneDir, NoFact) == 1 + Owing(w'.stack, top.dir, 0, OneDir, NoFact)
      && 0 <= Owing(w'.stack, top.dir, 0, OneDir, NoFact)
  {
    hide Explained, AllComplete, LoopBalanced, Balanced, Listing, StackMeasure, Owing, Measure;
    PopKeeps(s.nodes, status, w.stack);
    PopBalance(tree, s, w.stack, gap);
    StreamedAnyStack(w, s, w.stack[..|w.stack| - 1]);
    ExplainedLength(s.nodes, status, w.stack);
    ListingAt(s.nodes, status, w.stack);
    if LeavesGap(w.stack[|w.stack| - 1].dir) {
      EmitGap(w.(stack := w.stack[..|w.stack| - 1]), s, gap);
    }
  }

  lemma ExplainedLength(nodes: seq<Record>, status: seq<Status>, stack: seq<StackItem>)
    requires Explained(nodes, status, stack)
    ensures |status| == |nodes|
  {
  }

  lemma ListingAt(nodes: seq<Record>, status: seq<Status>, stack: seq<StackItem>)
    requires Explained(nodes, status, stack) && stack != []
    ensures var top := stack[|stack| - 1]; 0 <= top.entryId - 1 < |status| && status[top.entryId - 1] == Waiting(top.dir, |stack| - 1)
  {
    assert StackedOk(nodes, status, stack[|stack| - 1], |stack| - 1);
  }

  lemma StreamedAnyStack(w: Work, s: Scan, stack: seq<StackItem>)
    requires Streamed(w, s)
    ensures Streamed(w.(stack := stack), s) && |s.nodes| + |s.gaps| == |w.records|
  {
  }

  lemma AtWorkStreams(root: Record, tree: Dir, w: Work, s: Scan, status: seq<Status>)
    requires AtWork(root, tree, w, s, status)
    ensures Streamed(w, s) && s.nodes != [] && s.nodes[0] == root
  {
  }

  /** A directory that could not be opened has nothing to list. */
  lemma NothingListed(nodes: seq<Record>, status: seq<Status>, x: nat, dir: Dir)
    requires Listing(nodes, status, x, dir, 0) && Items(dir) == []
    ensures AllComplete(status)
  {
    assert Items(dir)[..|Items(dir)|] == [];
    ListedInFull(nodes, status, x, dir);
  }

  lemma NothingLeft(tree: Dir, s: Scan)
    requires LoopBalanced(tree, s, [])
    ensures |s.gaps| == Gaps(tree) && |s.nodes| + |s.gaps| == Records(tree) + 1
  {
  }

  method WriteGap(w: Work, gap: Gap) returns (w': Work)
    ensures w' == GapWork(w, gap)
  {
    w' := w.(totals := w.totals.(gaps := (w.totals.gaps + 1) % (U32_MAX + 1)));
    w' := w'.(records := w'.records + [GapRecord(gap)]);
  }

  method Conclude(w: Work, outcome: RunOutcome, duration: u64, ghost s: Scan) returns (records: seq<Record>, term: Terminal)
    requires Streamed(w, s)
    ensures term.outcome == outcome && term.durationMs == duration && Delivered(records, term, s)
  {
    term := TerminalFor(w.totals, outcome, duration);
    records := w.records + [TerminalRecord(term)];
    Concluded(w, s, term);
  }

  /** The traversal of a directory that exists. */
  method Traverse(target: string, root: RootEvidence, tree: Dir, message: u32 -> string, cancelled: nat -> bool, duration: u64)
    returns (records: seq<Record>, term: Terminal, ghost s: Scan)
    requires root.RootFound? && Records(tree) < NONE - 3
    ensures Delivered(records, term, s) && ShowsTree(RootRecord(target, root), tree, s, term.outcome == Finished)
    ensures s.nodes != [] && Sized(RootRecord(target, root), tree, s, term.outcome == Finished)
    ensures term.outcome == Finished ==> |s.gaps| == Gaps(tree) && |s.nodes| + |s.gaps| == Records(tree) + 1
    ensures s.gaps <= GapList(tree, target, message) && (term.outcome == Finished ==> s.gaps == GapList(tree, target, message))
    ensures term.outcome != Failed && term.durationMs == duration
    ensures (forall k :: !cancelled(k)) && Measure(tree, Stops, NoFact) == 0 ==> term.outcome == Finished
  {
    hide AtWork, Streamed, LoopBalanced, Balanced, Listing, AllComplete, Whole, StackMeasure, Owing, ShowsTree, Delivered, Visible, Measure, Records, Gaps, Sized;
    hide GapList, GapsAhead, GapsOwed;
    var rootRecord := RootRecord(target, root);
    var w := Work([rootRecord], 2, Counted(Totals(0, 0, 0, 0, 0), rootRecord), [StackItem(1, target, tree)]);
    RootAtWork(rootRecord, tree, target, w);
    s := EMPTY_SCAN.(nodes := [rootRecord]);
    ghost var status := [Waiting(tree, 0)];
    ghost var allGaps := GapList(tree, target, message);
    GapsStart(tree, target, message);
    var polls := 1;
    while w.stack != []
      invariant AtWork(rootRecord, tree, w, s, status) && AllComplete(status) && LoopBalanced(tree, s, w.stack)
      invariant GapsAhead(allGaps, s.gaps, w.stack, message)
      decreases StackMeasure(w.stack, OneDir, NoFact)
    {
      var current := w.stack[|w.stack| - 1];
      var dir := current.dir;
      var gap := Gap(current.displayPath, GapCode(dir), message(GapCode(dir)));
      EntriesSized(tree, s, w.stack);
      AtWorkStreams(rootRecord, tree, w, s, status);
      PopDirectory(rootRecord, tree, w, s, status, gap);
      GapsPop(allGaps, s.gaps, w.stack, message);
      ghost var x := current.entryId - 1;
      ghost var was := StackMeasure(w.stack, OneDir, NoFact);
      status := status[x := Listed(dir, |s.nodes|, 0)];
      w := w.(stack := w.stack[..|w.stack| - 1]);
      if cancelled(polls) || dir.Interrupted? {
        ListingIsWhole(s.nodes, status, x, dir);
        TreeShown(rootRecord, tree, w, s, status, false);
        AtWorkStreams(rootRecord, tree, w, s, status);
        records, term := Conclude(w, Cancelled, duration, s);
        return;
      }
      polls := polls + 1;
      if LeavesGap(dir) {
        w := WriteGap(w, gap);
        s := s.(gaps := s.gaps + [gap]);
      } else {
        assert s.gaps + [] == s.gaps;
      }
      if dir.OpenFailed? {
        NothingListed(s.nodes, status, x, dir);
        GapsListed(allGaps, s.gaps, w.stack, dir, current.displayPath, message);
        EndBalance(tree, s, w.stack, dir);
        NothingOwed(w.stack, dir);
        continue;
      }
      w, s, status := ListDirectory(w, current, dir.items, rootRecord, tree, s, status, allGaps, message);
      GapsListed(allGaps, s.gaps, w.stack, dir, current.displayPath, message);
      EndBalance(tree, s, w.stack, dir);
    }
    CompleteIsWhole(status);
    TreeShown(rootRecord, tree, w, s, status, true);
    NothingLeft(tree, s);
    GapsDone(allGaps, s.gaps, message);
    EntriesSized(tree, s, w.stack);
    AtWorkStreams(rootRecord, tree, w, s, status);
    records, term := Conclude(w, Finished, duration, s);
  }

  /** A scan that ends before there is a directory to traverse. */
  method Abandon(gap: Option<Gap>, outcome: RunOutcome, duration: u64) returns (records: seq<Record>, term: Terminal, ghost s: Scan)
    ensures Delivered(records, term, s) && term.outcome == outcome && term.durationMs == duration
    ensures s == EMPTY_SCAN.(gaps := if gap.Some? then [gap.value] else [])
  {
    var w := Work([], 1, Totals(0, 0, 0, 0, 0), []);
    s := EMPTY_SCAN;
    NothingStreamed();
    if gap.Some? {
      EmitGap(w, s, gap.value);
      w := WriteGap(w, gap.value);
      s := s.(gaps := [gap.value]);
    }
    records, term := Conclude(w, outcome, duration, s);
  }

  /** Without entries there are no bytes. */
  lemma NothingSized(root: RootEvidence, tree: Dir, records: seq<Record>, term: Terminal, s: Scan)
    requires Delivered(records, term, s) && s.nodes == []
    ensures Total(s.nodes, LogicalBytes) <= LogicalSize(tree) && Total(s.nodes, AllocatedBytes) <= AllocatedTotal(root, tree)
    ensures Accepted(records)
  {
  }

  /** What the file system's sizes say about a stream. */
  lemma SizesDecide(target: string, root: RootEvidence, tree: Dir, records: seq<Record>, term: Terminal, s: Scan, exact: bool)
    requires root.RootFound? && Delivered(records, term, s) && Sized(RootRecord(target, root), tree, s, exact)
    ensures Total(s.nodes, LogicalBytes) <= LogicalSize(tree) && Total(s.nodes, AllocatedBytes) <= AllocatedTotal(root, tree)
    ensures exact ==> Total(s.nodes, LogicalBytes) == LogicalSize(tree) && Total(s.nodes, AllocatedBytes) == AllocatedTotal(root, tree)
    ensures exact ==> (Accepted(records) <==> SizesAgree(root, tree))
    ensures SizesFit(root, tree) ==> Accepted(records)
  {
    hide Weighs, Total, Measure, Accepted, Dense;
    FactsWeighed();
  }

  /** The gaps of a whole scan, in the order in which they are written. */
  ghost function ScanGaps(target: string, root: RootEvidence, tree: Dir, message: u32 -> string): seq<Gap> {
    if root.RootMissing? then [Gap(target, root.errorCode, message(root.errorCode))]
    else if !Traversable(root) then [Gap(target, ERROR_PATH_NOT_FOUND, "Target path is not a directory")]
    else GapList(tree, target, message)
  }

  /** Every string of a whole scan meets `fits`: the target, the listed names, and the path and message of every gap. */
  ghost predicate StringsFit(fits: string -> bool, target: string, root: RootEvidence, tree: Dir, message: u32 -> string) {
    && fits(target)
    && GapsFit(fits, ScanGaps(target, root, tree, message))
    && (Traversable(root) ==> NamesFit(tree, fits))
  }

  ghost predicate GapsFit(fits: string -> bool, gaps: seq<Gap>) {
    forall i :: 0 <= i < |gaps| ==> fits(gaps[i].path) && fits(gaps[i].errorMessage)
  }

  /** Every string of a stream meets `fits`. */
  ghost predicate EntriesFit(fits: string -> bool, nodes: seq<Record>)
    requires AllEntries(nodes)
  {
    forall i :: 0 <= i < |nodes| ==> fits(nodes[i].name)
  }

  function MisfitRecord(fits: string -> bool): Record -> nat {
    (r: Record) => if r.IsEntry() && !fits(r.name) then 1 else 0
  }

  lemma {:induction false} NoMisfitEntries(fits: string -> bool, nodes: seq<Record>)
    requires AllEntries(nodes)
    ensures Total(nodes, MisfitRecord(fits)) == 0 <==> EntriesFit(fits, nodes)
    decreases |nodes|
  {
    if nodes != [] {
      NoMisfitEntries(fits, nodes[..|nodes| - 1]);
    }
  }

  /** The number of names that do not fit is a quantity that facts determine. */
  lemma MisfitsWeighed(fits: string -> bool)
    ensures Weighs(MisfitRecord(fits), MisfitFact(fits))
  {
  }

  /** The names of a stream fit if those of the file system do, and the other way round once everything is listed. */
  lemma NamesDecide(fits: string -> bool, root: Record, tree: Dir, s: Scan, exact: bool)
    requires AllEntries(s.nodes) && root.IsEntry() && Sized(root, tree, s, exact)
    ensures fits(root.name) && NamesFit(tree, fits) ==> EntriesFit(fits, s.nodes)
    ensures exact && EntriesFit(fits, s.nodes) ==> fits(root.name) && NamesFit(tree, fits)
  {
    hide Weighs, Total, Measure, NamesFit, EntriesFit;
    MisfitsWeighed(fits);
    NoMisfitEntries(fits, s.nodes);
    NoMisfits(tree, fits);
  }

  lemma RootShown(root: Record, tree: Dir, s: Scan, exact: bool)
    requires root.IsEntry() && ShowsTree(root, tree, s, exact)
    ensures s.nodes != [] && s.nodes[0] == root
  {
  }

  predicate Traversable(root: RootEvidence) {
    root.RootFound? && HasBit(root.meta.fileAttributes, FILE_ATTRIBUTE_DIRECTORY)
  }

  /** The scan worker, for every file system, every pattern of failures and every cancellation point. */
  method ScanDirectory(target: string, root: RootEvidence, tree: Dir, message: u32 -> string, cancelled: nat -> bool, duration: u64)
    returns (records: seq<Record>, term: Terminal, ghost s: Scan)
    requires Records(tree) < NONE - 3
    ensures Delivered(records, term, s)
    ensures s.nodes != [] <==> !cancelled(0) && Traversable(root)
    ensures term.outcome == Failed <==> !cancelled(0) && !Traversable(root)
    ensures term.durationMs == duration
    ensures s.nodes != [] ==> root.RootFound? && s.nodes[0] == DirectoryRecord(1, 0, target, root.meta, root.objectId, root.allocatedSize, NotApplicable)
    ensures cancelled(0) ==> term.outcome == Cancelled && s.gaps == []
    ensures term.outcome == Failed ==>
      s.gaps == [if root.RootMissing? then Gap(target, root.errorCode, message(root.errorCode)) else Gap(target, 3, "Target path is not a directory")]
    ensures s.nodes != [] ==> ShowsTree(RootRecord(target, root), tree, s, term.outcome == Finished)
    ensures s.nodes != [] ==> Sized(RootRecord(target, root), tree, s, term.outcome == Finished)
    ensures s.gaps <= ScanGaps(target, root, tree, message)
    ensures term.outcome != Cancelled ==> s.gaps == ScanGaps(target, root, tree, message)
    ensures Total(s.nodes, LogicalBytes) <= LogicalSize(tree) && Total(s.nodes, AllocatedBytes) <= AllocatedTotal(root, tree)
    ensures term.outcome == Finished ==>
      Total(s.nodes, LogicalBytes) == LogicalSize(tree) && Total(s.nodes, AllocatedBytes) == AllocatedTotal(root, tree)
    ensures term.outcome == Finished ==> (Accepted(records) <==> SizesAgree(root, tree))
    ensures SizesFit(root, tree) ==> Accepted(records)
    ensures term.outcome == Finished ==> s.nodes != [] && |s.gaps| == Gaps(tree) && |s.nodes| + |s.gaps| == Records(tree) + 1
    ensures (forall k :: !cancelled(k)) && Traversable(root) && Measure(tree, Stops, NoFact) == 0 ==> term.outcome == Finished
  {
    hide Delivered, SizesAgree, SizesFit, Measure, Records, Gaps, GapList, Shows, ShowsTree, LogicalSize, AllocatedTotal, Sized, Total;
    if cancelled(0) {
      records, term, s := Abandon(None, Cancelled, duration);
      NothingSized(root, tree, records, term, s);
      return;
    }
    if root.RootMissing? {
      records, term, s := Abandon(Some(Gap(target, root.errorCode, message(root.errorCode))), Failed, duration);
      NothingSized(root, tree, records, term, s);
      return;
    }
    if !HasBit(root.meta.fileAttributes, FILE_ATTRIBUTE_DIRECTORY) {
      records, term, s := Abandon(Some(Gap(target, ERROR_PATH_NOT_FOUND, "Target path is not a directory")), Failed, duration);
      NothingSized(root, tree, records, term, s);
      return;
    }
    records, term, s := Traverse(target, root, tree, message, cancelled, duration);
    RootShown(RootRecord(target, root), tree, s, term.outcome == Finished);
    SizesDecide(target, root, tree, records, term, s, term.outcome == Finished);
  }
}
