/** The index layer of the graph builder: entry ids, the dense scheme with its sparse fallback, and the
    sibling links, as `validate_and_insert_entry` maintains them. */
module Ingest {
  import opened Words
  import opened Graph
  import opened Forest

  datatype BuildError =
    | InvalidRoot(entryId: u32, parentId: u32)
    | DuplicateEntryId(id: u32)
    | MissingParent(missingEntryId: u32, missingParentId: u32)
    | ParentNotDirectory(childId: u32, fileId: u32)
    | SelfParent(selfId: u32)
    | UnknownStreamParent(streamParentId: u32)
    | RecordAfterTerminal
    | MissingTerminal
    | AggregateMismatch(field: string, expected: u64, actual: u64)

  // ---- What an id means

  /** The position of `id`, or -1. */
  function IndexOf(ids: seq<u32>, id: u32): (r: int)
    ensures -1 <= r < |ids|
    ensures r == -1 ==> id !in ids
    ensures r >= 0 ==> ids[r] == id
  {
    if ids == [] then -1
    else if ids[|ids| - 1] == id then |ids| - 1
    else IndexOf(ids[..|ids| - 1], id)
  }

  function IdsOf(entries: seq<CompactEntry>): (r: seq<u32>)
    ensures |r| == |entries| && forall i :: 0 <= i < |r| ==> r[i] == entries[i].id
  {
    seq(|entries|, i requires 0 <= i < |entries| => entries[i].id)
  }

  ghost predicate NoRepeats(ids: seq<u32>) {
    forall i, j :: 0 <= i < j < |ids| ==> ids[i] != ids[j]
  }

  lemma IndexOfUnique(ids: seq<u32>, i: nat)
    requires NoRepeats(ids) && i < |ids|
    ensures IndexOf(ids, ids[i]) == i
  {
    var r := IndexOf(ids, ids[i]);
    assert ids[i] in ids;
  }

  /** The verdict on a new entry, from the ids and kinds of the entries accepted so far. */
  function CheckEntry(ids: seq<u32>, entries: seq<CompactEntry>, id: u32, parentId: u32, kind: EntryKind): Option<BuildError>
    requires |ids| == |entries|
  {
    if id == parentId then Some(SelfParent(id))
    else if entries == [] then
      if id != 1 || parentId != 0 || kind != EntryKind.Directory then Some(InvalidRoot(id, parentId)) else None
    else if parentId == 0 || id == 1 then Some(InvalidRoot(id, parentId))
    else if IndexOf(ids, id) >= 0 then Some(DuplicateEntryId(id))
    else if IndexOf(ids, parentId) < 0 then Some(MissingParent(id, parentId))
    else if entries[IndexOf(ids, parentId)].kind != EntryKind.Directory then Some(ParentNotDirectory(id, parentId))
    else None
  }

  // ---- The representation

  /** Dense ids are one more than the index; sparse ids are held by the map, which holds nothing else. */
  ghost predicate IdsOk(ids: seq<u32>, isDense: bool, idToIdx: map<u32, u32>) {
    && NoRepeats(ids)
    && if isDense then forall i :: 0 <= i < |ids| ==> ids[i] == i + 1
       else
         && (forall i :: 0 <= i < |ids| ==> ids[i] in idToIdx && idToIdx[ids[i]] == i)
         && (forall id :: id in idToIdx ==> idToIdx[id] < |ids| && ids[idToIdx[id]] == id)
  }

  /** The parent vector is the one the parent ids describe. */
  ghost predicate ParentsOk(entries: seq<CompactEntry>, par: seq<nat>) {
    && |par| == |entries|
    && (|entries| > 0 ==> IsTree(par) && entries[0].id == 1 && entries[0].parentId == 0 && entries[0].kind == EntryKind.Directory)
    && forall x :: 0 < x < |entries| ==>
         && par[x] < x && entries[par[x]].id == entries[x].parentId && entries[par[x]].kind == EntryKind.Directory
         && entries[x].parentId != 0
  }

  /** `last` is the youngest child of `p`, or absent. */
  ghost predicate LastChildOk(par: seq<nat>, p: nat, last: nat)
    requires IsTree(par)
  {
    && (last == NONE || (0 < last < |par| && par[last] == p))
    && forall x :: 0 < x < |par| && par[x] == p ==> last != NONE && x <= last
  }

  ghost predicate LinksOk(par: seq<nat>, fc: seq<nat>, lc: seq<nat>, ns: seq<nat>) {
    if par == [] then fc == [] && lc == [] && ns == []
    else
      && Linked(par, fc, ns)
      && |lc| == |par|
      && forall p :: 0 <= p < |par| ==> LastChildOk(par, p, lc[p])
  }

  // ---- Appending one entry to the links

  function LinkFirst(fc: seq<nat>, p: nat, n: nat): seq<nat>
    requires p < |fc|
  {
    (if fc[p] == NONE then fc[p := n] else fc) + [NONE]
  }

  function LinkNext(fc: seq<nat>, lc: seq<nat>, ns: seq<nat>, p: nat, n: nat): seq<nat>
    requires p < |fc| && p < |lc|
  {
    (if fc[p] != NONE && lc[p] < |ns| then ns[lc[p] := n] else ns) + [NONE]
  }

  lemma LinkKeepsFirst(par: seq<nat>, fc: seq<nat>, lc: seq<nat>, ns: seq<nat>, p: nat, q: nat)
    requires par != [] && LinksOk(par, fc, lc, ns) && p < |par| < NONE && q <= |par|
    ensures IsTree(par + [p])
    ensures FirstChildOk(par + [p], q, LinkFirst(fc, p, |par|)[q])
  {
    if q < |par| {
      assert FirstChildOk(par, q, fc[q]);
    }
  }

  lemma LinkKeepsLast(par: seq<nat>, fc: seq<nat>, lc: seq<nat>, ns: seq<nat>, p: nat, q: nat)
    requires par != [] && LinksOk(par, fc, lc, ns) && p < |par| < NONE && q <= |par|
    ensures IsTree(par + [p])
    ensures LastChildOk(par + [p], q, (lc[p := |par|] + [NONE])[q])
  {
    if q < |par| {
      assert LastChildOk(par, q, lc[q]);
    }
  }

  lemma LinkKeepsNext(par: seq<nat>, fc: seq<nat>, lc: seq<nat>, ns: seq<nat>, p: nat, c: nat)
    requires par != [] && LinksOk(par, fc, lc, ns) && p < |par| < NONE && c <= |par|
    ensures IsTree(par + [p])
    ensures NextSiblingOk(par + [p], c, LinkNext(fc, lc, ns, p, |par|)[c])
  {
    var par', ns' := par + [p], LinkNext(fc, lc, ns, p, |par|);
    assert FirstChildOk(par, p, fc[p]) && LastChildOk(par, p, lc[p]);
    if c < |par| {
      assert NextSiblingOk(par, c, ns[c]);
    }
  }

  /** The new entry `|par|` becomes the youngest child of `p`. */
  lemma LinkKeepsLinks(par: seq<nat>, fc: seq<nat>, lc: seq<nat>, ns: seq<nat>, p: nat)
    requires par != [] && LinksOk(par, fc, lc, ns) && p < |par| < NONE
    ensures LinksOk(par + [p], LinkFirst(fc, p, |par|), lc[p := |par|] + [NONE], LinkNext(fc, lc, ns, p, |par|))
  {
    var par' := par + [p];
    forall q | 0 <= q < |par'|
      ensures FirstChildOk(par', q, LinkFirst(fc, p, |par|)[q])
      ensures NextSiblingOk(par', q, LinkNext(fc, lc, ns, p, |par|)[q])
      ensures LastChildOk(par', q, (lc[p := |par|] + [NONE])[q])
    {
      LinkKeepsFirst(par, fc, lc, ns, p, q);
      LinkKeepsNext(par, fc, lc, ns, p, q);
      LinkKeepsLast(par, fc, lc, ns, p, q);
    }
  }

  lemma RootLinks()
    ensures LinksOk([0], [NONE], [NONE], [NONE])
  {
    assert IsTree([0]);
  }
}
