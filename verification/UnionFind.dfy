/** `find_uf`: root search with path compression over an index array whose links never point upwards. */
module UnionFind {

  ghost predicate Descending(uf: seq<nat>) {
    forall x :: 0 <= x < |uf| ==> uf[x] <= x
  }

  ghost function Root(uf: seq<nat>, x: nat): (r: nat)
    requires Descending(uf) && x < |uf|
    ensures r <= x && uf[r] == r
    decreases x
  {
    if uf[x] == x then x else Root(uf, uf[x])
  }

  /** Linking an entry directly to its own root changes no representative. */
  lemma {:induction false} CompressKeepsRoots(uf: seq<nat>, c: nat, x: nat)
    requires Descending(uf) && c < |uf| && x < |uf|
    ensures Descending(uf[c := Root(uf, c)])
    ensures Root(uf[c := Root(uf, c)], x) == Root(uf, x)
    decreases x
  {
    var uf' := uf[c := Root(uf, c)];
    if uf'[x] != x {
      CompressKeepsRoots(uf, c, uf'[x]);
    }
  }

  /** Linking root `c` below root `p` redirects exactly the entries that `c` represented. */
  lemma {:induction false} LinkRoots(uf: seq<nat>, c: nat, p: nat, x: nat)
    requires Descending(uf) && c < |uf| && p < c && uf[c] == c && uf[p] == p && x < |uf|
    ensures Descending(uf[c := p])
    ensures Root(uf[c := p], x) == if Root(uf, x) == c then p else Root(uf, x)
    decreases x
  {
    var uf' := uf[c := p];
    if uf'[x] != x {
      LinkRoots(uf, c, p, uf'[x]);
    }
  }

  method FindUf(parent: array<nat>, i: nat) returns (root: nat)
    requires i < parent.Length && Descending(parent[..])
    modifies parent
    ensures Descending(parent[..])
    ensures root == Root(old(parent[..]), i)
    ensures forall x :: 0 <= x < parent.Length ==> Root(parent[..], x) == Root(old(parent[..]), x)
  {
    ghost var was := parent[..];
    root := i;
    while parent[root] != root
      invariant root < parent.Length
      invariant Root(was, root) == Root(was, i)
      decreases root
    {
      root := parent[root];
    }
    var curr: nat := i;
    while curr != root
      invariant curr < parent.Length
      invariant Descending(parent[..])
      invariant forall x :: 0 <= x < parent.Length ==> Root(parent[..], x) == Root(was, x)
      invariant Root(was, curr) == root
      decreases curr
    {
      var nxt := parent[curr];
      ghost var before := parent[..];
      assert Root(before, curr) == root;
      parent[curr] := root;
      assert parent[..] == before[curr := root];
      forall x | 0 <= x < parent.Length
        ensures Root(parent[..], x) == Root(was, x)
      {
        CompressKeepsRoots(before, curr, x);
      }
      CompressKeepsRoots(before, curr, curr);
      curr := nxt;
    }
  }
}
