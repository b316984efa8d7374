/** `BoundedPageCache`: a dictionary and a linked list that together form a bounded recency list. */
module PageCache {
  import opened Words

  datatype Key = Key(operationId: string, parentId: u32, offset: u32)

  /** A list node: its key and the page it holds. */
  datatype Entry<V> = Entry(key: Key, value: V)

  ghost predicate DistinctKeys<V>(list: seq<Entry<V>>) {
    forall i, j :: 0 <= i < j < |list| ==> list[i].key != list[j].key
  }

  function FindKey<V>(list: seq<Entry<V>>, key: Key): (r: int)
    ensures -1 <= r < |list|
    ensures r >= 0 ==> list[r].key == key
    ensures r < 0 ==> forall i :: 0 <= i < |list| ==> list[i].key != key
  {
    if list == [] then -1
    else if list[|list| - 1].key == key then |list| - 1
    else FindKey(list[..|list| - 1], key)
  }

  /** The dictionary maps exactly the keys of the list nodes, each to its node. */
  ghost predicate Bijection<V>(nodes: map<Key, Entry<V>>, list: seq<Entry<V>>) {
    && DistinctKeys(list)
    && (forall i :: 0 <= i < |list| ==> list[i].key in nodes && nodes[list[i].key] == list[i])
    && forall k :: k in nodes ==> FindKey(list, k) >= 0
  }

  function RemoveAt<V>(list: seq<Entry<V>>, i: nat): (r: seq<Entry<V>>)
    requires i < |list|
    ensures |r| == |list| - 1
    ensures forall j :: 0 <= j < |r| ==> r[j] == list[if j < i then j else j + 1]
  {
    list[..i] + list[i + 1..]
  }

  /** The list without the node of `key`. */
  function Without<V>(list: seq<Entry<V>>, key: Key): (r: seq<Entry<V>>)
    ensures |list| - 1 <= |r| <= |list|
  {
    var i := FindKey(list, key);
    if i < 0 then list else RemoveAt(list, i)
  }

  lemma BijectionRemove<V>(nodes: map<Key, Entry<V>>, list: seq<Entry<V>>, i: nat)
    requires Bijection(nodes, list) && i < |list|
    ensures Bijection(nodes - {list[i].key}, RemoveAt(list, i))
  {
    var short, smaller := RemoveAt(list, i), nodes - {list[i].key};
    forall k | k in smaller
      ensures FindKey(short, k) >= 0
    {
      var p := FindKey(list, k);
      assert short[if p < i then p else p - 1].key == k;
    }
  }

  lemma BijectionWithout<V>(nodes: map<Key, Entry<V>>, list: seq<Entry<V>>, key: Key)
    requires Bijection(nodes, list)
    ensures Bijection(nodes - {key}, Without(list, key))
    ensures key !in nodes ==> nodes - {key} == nodes && Without(list, key) == list
    ensures key in nodes ==> nodes[key].key == key
  {
    var i := FindKey(list, key);
    if i >= 0 {
      BijectionRemove(nodes, list, i);
    } else {
      assert key !in nodes;
      assert nodes - {key} == nodes;
    }
  }

  lemma BijectionAppend<V>(nodes: map<Key, Entry<V>>, list: seq<Entry<V>>, e: Entry<V>)
    requires Bijection(nodes, list) && e.key !in nodes
    ensures Bijection(nodes[e.key := e], list + [e])
  {
    var longer, more := list + [e], nodes[e.key := e];
    forall k | k in more
      ensures FindKey(longer, k) >= 0
    {
      if k == e.key {
        assert longer[|list|].key == k;
      } else {
        var p := FindKey(list, k);
        assert longer[p].key == k;
      }
    }
  }

  /** The dictionary and the list have the same size. */
  lemma {:induction false} SameSize<V>(nodes: map<Key, Entry<V>>, list: seq<Entry<V>>)
    requires Bijection(nodes, list)
    ensures |nodes| == |list|
    decreases |list|
  {
    if list == [] {
      assert nodes.Keys == {};
    } else {
      var smaller := nodes - {list[0].key};
      BijectionRemove(nodes, list, 0);
      SameSize(smaller, RemoveAt(list, 0));
      assert nodes.Keys == smaller.Keys + {list[0].key};
    }
  }

  // ---- Recency

  /** Nodes are ordered by the time of their last use, oldest first, and hold what was last put under their key. */
  ghost predicate Recency<V>(list: seq<Entry<V>>, lastUse: map<Key, nat>, lastPut: map<Key, V>, clock: nat) {
    && (forall i :: 0 <= i < |list| ==>
          && list[i].key in lastUse && lastUse[list[i].key] < clock
          && list[i].key in lastPut && lastPut[list[i].key] == list[i].value)
    && forall i, j :: 0 <= i < j < |list| ==> lastUse[list[i].key] < lastUse[list[j].key]
  }

  lemma RecencyRemove<V>(list: seq<Entry<V>>, i: nat, lastUse: map<Key, nat>, lastPut: map<Key, V>, clock: nat)
    requires Recency(list, lastUse, lastPut, clock) && i < |list|
    ensures Recency(RemoveAt(list, i), lastUse, lastPut, clock)
  {
  }

  lemma RecencyWithout<V>(list: seq<Entry<V>>, key: Key, lastUse: map<Key, nat>, lastPut: map<Key, V>, clock: nat)
    requires Recency(list, lastUse, lastPut, clock)
    ensures Recency(Without(list, key), lastUse, lastPut, clock)
  {
    var i := FindKey(list, key);
    if i >= 0 {
      RecencyRemove(list, i, lastUse, lastPut, clock);
    }
  }

  lemma RecencyAppend<V>(list: seq<Entry<V>>, e: Entry<V>, lastUse: map<Key, nat>, lastPut: map<Key, V>, clock: nat, nodes: map<Key, Entry<V>>)
    requires Recency(list, lastUse, lastPut, clock) && Bijection(nodes, list) && e.key !in nodes
    ensures Recency(list + [e], lastUse[e.key := clock], lastPut[e.key := e.value], clock + 1)
  {
  }

  /** A node that left the cache, other than the one replaced, was used before every other node. */
  ghost predicate OldestWent<V>(was: seq<Entry<V>>, lastUse: map<Key, nat>, key: Key, nodes: map<Key, Entry<V>>) {
    forall i, j :: 0 <= i < |was| && 0 <= j < |was| && i != j && was[i].key !in nodes && was[j].key != key ==>
      was[i].key in lastUse && was[j].key in lastUse && lastUse[was[i].key] < lastUse[was[j].key]
  }

  lemma Stayed<V>(rest: seq<Entry<V>>, left: seq<Entry<V>>, nodes: map<Key, Entry<V>>, a: nat)
    requires 0 < a < |rest| && (left == rest || left == RemoveAt(rest, 0))
    requires forall i :: 0 <= i < |left| ==> left[i].key in nodes
    ensures rest[a].key in nodes
  {
    if left != rest {
      assert left[a - 1] == rest[a];
    }
  }

  lemma EvictedIsOldest<V>(was: seq<Entry<V>>, key: Key, left: seq<Entry<V>>,
                           lastUse: map<Key, nat>, lastPut: map<Key, V>, clock: nat, nodes: map<Key, Entry<V>>)
    requires DistinctKeys(was) && Recency(was, lastUse, lastPut, clock)
    requires left == Without(was, key) || (Without(was, key) != [] && left == RemoveAt(Without(was, key), 0))
    requires key in nodes && forall i :: 0 <= i < |left| ==> left[i].key in nodes
    ensures OldestWent(was, lastUse, key, nodes)
  {
    var rest, p := Without(was, key), FindKey(was, key);
    forall i, j | 0 <= i < |was| && 0 <= j < |was| && i != j && was[i].key !in nodes && was[j].key != key
      ensures i < j
    {
      var a := if 0 <= p < i then i - 1 else i;
      var b := if 0 <= p < j then j - 1 else j;
      assert rest[a] == was[i] && rest[b] == was[j];
      if a > 0 {
        Stayed(rest, left, nodes, a);
      }
    }
  }

  class BoundedPageCache<V(==)> {
    const maxPages: nat
    var nodes: map<Key, Entry<V>>
    var lruList: seq<Entry<V>>
    /** When each key was last put or found, and what was last put under it. */
    ghost var clock: nat
    ghost var lastUse: map<Key, nat>
    ghost var lastPut: map<Key, V>

    ghost predicate Valid()
      reads this
    {
      && 1 <= maxPages && |lruList| <= maxPages
      && Bijection(nodes, lruList) && Recency(lruList, lastUse, lastPut, clock)
    }

    constructor (maxPages: int)
      ensures Valid() && lruList == [] && this.maxPages == if maxPages < 1 then 1 else maxPages
    {
      this.maxPages := if maxPages < 1 then 1 else maxPages;
      nodes, lruList := map[], [];
      clock, lastUse, lastPut := 0, map[], map[];
    }

    /** A hit returns what was last put under the key and makes it the most recent. */
    method TryGetPage(key: Key) returns (result: Option<V>)
      requires Valid()
      modifies this
      ensures Valid() && lastPut == old(lastPut)
      ensures result.Some? <==> old(key in nodes)
      ensures result.Some? ==> key in lastPut && result.value == lastPut[key]
      ensures result.Some? ==> lruList == Without(old(lruList), key) + [Entry(key, result.value)]
      ensures result.None? ==> lruList == old(lruList)
    {
      hide Bijection, Recency, Without;
      if key !in nodes {
        return None;
      }
      var node := nodes[key];
      BijectionWithout(nodes, lruList, key);
      LastPutHeld(nodes, lruList, lastUse, lastPut, clock, key);
      RecencyWithout(lruList, key, lastUse, lastPut, clock);
      SameSize(nodes, lruList);
      SameSize(nodes - {key}, Without(lruList, key));
      lruList := Without(lruList, key);
      BijectionAppend(nodes - {key}, lruList, node);
      RecencyAppend(lruList, node, lastUse, lastPut, clock, nodes - {key});
      assert (nodes - {key})[key := node] == nodes;
      assert lastPut[key := node.value] == lastPut;
      lruList := lruList + [node];
      lastUse, clock := lastUse[key := clock], clock + 1;
      return Some(node.value);
    }

    /** What a put leaves of the existing nodes: an older page of the same key goes; if the cache is still full, the
        first node goes too. */
    ghost function Remaining(key: Key): (r: seq<Entry<V>>)
      reads this
    {
      var rest := Without(lruList, key);
      if |rest| >= maxPages && rest != [] then RemoveAt(rest, 0) else rest
    }

    method PutPage(key: Key, value: V)
      requires Valid()
      modifies this
      ensures Valid() && lastPut == old(lastPut)[key := value] && key in nodes
      ensures lruList == old(Remaining(key)) + [Entry(key, value)]
      ensures OldestWent(old(lruList), old(lastUse), key, nodes)
    {
      hide Bijection, Recency, Without, OldestWent;
      ghost var was := lruList;
      BijectionWithout(nodes, lruList, key);
      RecencyWithout(lruList, key, lastUse, lastPut, clock);
      KeysDistinct(nodes, lruList);
      if key in nodes {
        lruList := Without(lruList, key);
        nodes := nodes - {key};
      }
      EvictOldest();
      ghost var left := lruList;
      BijectionAppend(nodes, lruList, Entry(key, value));
      RecencyAppend(lruList, Entry(key, value), lastUse, lastPut, clock, nodes);
      BijectionKeys(nodes, lruList);
      lruList := lruList + [Entry(key, value)];
      nodes := nodes[key := Entry(key, value)];
      lastUse, lastPut, clock := lastUse[key := clock], lastPut[key := value], clock + 1;
      EvictedIsOldest(was, key, left, old(lastUse), old(lastPut), old(clock), nodes);
    }

    /** The eviction loop. */
    method EvictOldest()
      requires 1 <= maxPages && |lruList| <= maxPages && Bijection(nodes, lruList) && Recency(lruList, lastUse, lastPut, clock)
      modifies this`lruList, this`nodes
      ensures Bijection(nodes, lruList) && Recency(lruList, lastUse, lastPut, clock) && |lruList| < maxPages
      ensures lruList == if |old(lruList)| >= maxPages && old(lruList) != [] then RemoveAt(old(lruList), 0) else old(lruList)
      ensures nodes.Keys <= old(nodes).Keys
    {
      hide Bijection, Recency;
      SameSize(nodes, lruList);
      while |nodes| >= maxPages && lruList != []
        invariant Bijection(nodes, lruList) && Recency(lruList, lastUse, lastPut, clock) && |nodes| == |lruList| <= maxPages
        invariant lruList == old(lruList) || (|old(lruList)| >= maxPages && old(lruList) != [] && lruList == RemoveAt(old(lruList), 0))
        invariant nodes.Keys <= old(nodes).Keys
        decreases |lruList|
      {
        var oldest := lruList[0];
        BijectionRemove(nodes, lruList, 0);
        RecencyRemove(lruList, 0, lastUse, lastPut, clock);
        lruList := RemoveAt(lruList, 0);
        nodes := nodes - {oldest.key};
        SameSize(nodes, lruList);
      }
    }

    method Clear()
      requires Valid()
      modifies this
      ensures Valid() && lruList == [] && nodes == map[]
    {
      nodes, lruList := map[], [];
    }
  }

  lemma LastPutHeld<V>(nodes: map<Key, Entry<V>>, list: seq<Entry<V>>, lastUse: map<Key, nat>, lastPut: map<Key, V>, clock: nat, key: Key)
    requires Bijection(nodes, list) && Recency(list, lastUse, lastPut, clock) && key in nodes
    ensures key in lastPut && lastPut[key] == nodes[key].value
  {
    var i := FindKey(list, key);
    assert list[i].key == key;
  }

  lemma KeysDistinct<V>(nodes: map<Key, Entry<V>>, list: seq<Entry<V>>)
    requires Bijection(nodes, list)
    ensures DistinctKeys(list)
  {
  }

  lemma BijectionKeys<V>(nodes: map<Key, Entry<V>>, list: seq<Entry<V>>)
    requires Bijection(nodes, list)
    ensures forall i :: 0 <= i < |list| ==> list[i].key in nodes
  {
  }
}
