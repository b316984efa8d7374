/** The unique bytes of a scope as a sum over the distinct identities met there, in terms of the records of the stream. */
module Census {
  import opened Words
  import opened Observation
  import opened Graph
  import opened Forest
  import opened Distinct
  import opened Evidence
  import opened Objects
  import opened Accounting
  import opened Settlement
  import opened Scan
  import opened Outcome

  // ---- Sums over sets

  ghost function SumOver(ids: set<ObjectIdentity>, w: ObjectIdentity -> nat): nat
    decreases |ids|
  {
    if ids == {} then 0
    else
      var oid :| oid in ids;
      w(oid) + SumOver(ids - {oid}, w)
  }

  /** Any member may be taken out first. */
  lemma {:induction false} SumOverMember(ids: set<ObjectIdentity>, oid: ObjectIdentity, w: ObjectIdentity -> nat)
    requires oid in ids
    ensures SumOver(ids, w) == w(oid) + SumOver(ids - {oid}, w)
    decreases |ids|
  {
    var first :| first in ids && SumOver(ids, w) == w(first) + SumOver(ids - {first}, w);
    if first != oid {
      SumOverMember(ids - {first}, oid, w);
      SumOverMember(ids - {oid}, first, w);
      assert ids - {first} - {oid} == ids - {oid} - {first};
    }
  }

  lemma {:induction false} SumOverSame(ids: set<ObjectIdentity>, w: ObjectIdentity -> nat, w': ObjectIdentity -> nat)
    requires forall oid :: oid in ids ==> w(oid) == w'(oid)
    ensures SumOver(ids, w) == SumOver(ids, w')
    decreases |ids|
  {
    if ids != {} {
      var oid :| oid in ids;
      SumOverMember(ids, oid, w);
      SumOverMember(ids, oid, w');
      SumOverSame(ids - {oid}, w, w');
    }
  }

  lemma SumOverInsert(ids: set<ObjectIdentity>, oid: ObjectIdentity, w: ObjectIdentity -> nat)
    requires oid !in ids
    ensures SumOver(ids + {oid}, w) == SumOver(ids, w) + w(oid)
  {
    SumOverMember(ids + {oid}, oid, w);
    assert ids + {oid} - {oid} == ids;
  }

  // ---- Aliases and their allocations

  /** Record `x` is a file with identity `oid`. */
  ghost predicate Names(nodes: seq<Record>, x: nat, oid: ObjectIdentity) {
    x < |nodes| && nodes[x].FileRecord? && nodes[x].objectId == Some(oid)
  }

  /** The allocations that aliases of `oid` report. */
  ghost function KnownAllocs(nodes: seq<Record>, oid: ObjectIdentity): set<u64> {
    set x | 0 <= x < |nodes| && Names(nodes, x, oid) && nodes[x].allocatedSize.Some? :: nodes[x].allocatedSize.value
  }

  /** The smallest of the values, or zero if there are none. */
  ghost function Least(values: set<u64>): (r: u64)
    ensures values == {} ==> r == 0
    ensures values != {} ==> r in values && forall v :: v in values ==> r <= v
    decreases |values|
  {
    if values == {} then 0
    else
      var v :| v in values;
      var rest := values - {v};
      assert values == rest + {v};
      if rest == {} || v <= Least(rest) then v else Least(rest)
  }

  ghost function LeastAllocations(nodes: seq<Record>): ObjectIdentity -> nat {
    oid => Least(KnownAllocs(nodes, oid))
  }

  /** The number of file records with identity `oid`. */
  function FilesOf(oid: ObjectIdentity): Record -> nat {
    (r: Record) => if r.FileRecord? && r.objectId == Some(oid) then 1 else 0
  }

  lemma NamesIsIdentity(nodes: seq<Record>, x: nat, oid: ObjectIdentity)
    ensures x < |nodes| ==> (FactsOf(nodes).ident[x] == Some(oid) <==> Names(nodes, x, oid))
  {
  }

  lemma {:induction false} AliasesCounted(nodes: seq<Record>, oid: ObjectIdentity, m: nat)
    requires m <= |nodes|
    ensures |Aliases(FactsOf(nodes).ident, oid, m)| == Total(nodes[..m], FilesOf(oid))
    decreases m
  {
    if m > 0 {
      AliasesCounted(nodes, oid, m - 1);
      assert nodes[..m][..m - 1] == nodes[..m - 1];
    }
  }

  lemma AliasAllocs(nodes: seq<Record>, oid: ObjectIdentity, s: seq<nat>)
    requires AllEntries(nodes) && FactsOk(EntriesOf(nodes), FactsOf(nodes)) && s == Aliases(FactsOf(nodes).ident, oid, |nodes|)
    ensures var allocs := IdentityAllocs(EntriesOf(nodes), FactsOf(nodes), oid);
      && |allocs| == |s| && (forall i :: 0 <= i < |s| ==> Names(nodes, s[i], oid) && allocs[i] == nodes[s[i]].allocatedSize)
      && forall x: nat :: Names(nodes, x, oid) ==> x in s
  {
    AliasesMeaning(FactsOf(nodes).ident, oid, |nodes|);
    forall i | 0 <= i < |s|
      ensures Names(nodes, s[i], oid)
    {
      assert s[i] in s;
    }
  }

  /** The weight of an identity is the smallest allocation any of its aliases reports. */
  lemma WeightIsLeastKnown(nodes: seq<Record>, oid: ObjectIdentity)
    requires AllEntries(nodes) && FactsOk(EntriesOf(nodes), FactsOf(nodes))
    ensures Weight(EntriesOf(nodes), FactsOf(nodes), oid) == Least(KnownAllocs(nodes, oid))
  {
    var s, known := Aliases(FactsOf(nodes).ident, oid, |nodes|), KnownAllocs(nodes, oid);
    var allocs := IdentityAllocs(EntriesOf(nodes), FactsOf(nodes), oid);
    AliasAllocs(nodes, oid, s);
    MinKnownMeaning(allocs);
    hide IdentityAllocs, Aliases, MinKnown, EntriesOf, FactsOf, FactsOk;
    forall v | v in known
      ensures MinKnown(allocs).Some? && MinKnown(allocs).value <= v
    {
      var x :| 0 <= x < |nodes| && Names(nodes, x, oid) && nodes[x].allocatedSize == Some(v);
      var i :| 0 <= i < |s| && s[i] == x;
      assert allocs[i] in allocs;
    }
    if MinKnown(allocs).Some? {
      var i :| 0 <= i < |allocs| && allocs[i] == MinKnown(allocs);
      assert Names(nodes, s[i], oid);
      assert MinKnown(allocs).value in known;
    }
  }

  // ---- The formula

  /** What record `r` adds on its own: a directory or a file without identity its own allocation. */
  function OwnBytes(r: Record): nat {
    match r
    case DirectoryRecord(_, _, _, _, _, allocatedSize, _) => if allocatedSize.Some? then allocatedSize.value else 0
    case FileRecord(_, _, _, _, None, Some(bytes), _, _) => bytes
    case _ => 0
  }

  /** The sum of `q` over the records in the scope of entry `d`. */
  ghost function TotalBelow(nodes: seq<Record>, par: seq<nat>, d: nat, q: Record -> nat, m: nat): nat
    requires IsTree(par) && |par| == |nodes| && m <= |nodes|
  {
    if m == 0 then 0 else TotalBelow(nodes, par, d, q, m - 1) + (if Under(par, d, m - 1) then q(nodes[m - 1]) else 0)
  }

  /** The identities met in the scope of entry `d`. */
  ghost function IdentitiesBelow(nodes: seq<Record>, par: seq<nat>, d: nat, m: nat): set<ObjectIdentity>
    requires IsTree(par) && |par| == |nodes| && m <= |nodes|
  {
    set x | 0 <= x < m && Under(par, d, x) && nodes[x].FileRecord? && nodes[x].objectId.Some? :: nodes[x].objectId.value
  }

  lemma SumStep(nodes: seq<Record>, par: seq<nat>, d: nat, m: nat)
    requires AllEntries(nodes) && IsTree(par) && |par| == |nodes| && m < |nodes|
    requires FactsOk(EntriesOf(nodes), FactsOf(nodes))
    ensures var ids, w := IdentitiesBelow(nodes, par, d, m), LeastAllocations(nodes);
      SumOver(IdentitiesBelow(nodes, par, d, m + 1), w) + (if Under(par, d, m) then OwnBytes(nodes[m]) else 0)
      == SumOver(ids, w)
         + if Under(par, d, m) && !Counted(par, FactsOf(nodes), d, m) then Bytes(EntriesOf(nodes), FactsOf(nodes), SelfsOf(nodes), m) else 0
  {
    var f, ids, more, w := FactsOf(nodes), IdentitiesBelow(nodes, par, d, m), IdentitiesBelow(nodes, par, d, m + 1), LeastAllocations(nodes);
    if Under(par, d, m) && nodes[m].FileRecord? && nodes[m].objectId.Some? {
      var oid := nodes[m].objectId.value;
      assert more == ids + {oid};
      WeightIsLeastKnown(nodes, oid);
      if Counted(par, f, d, m) {
        var y :| 0 <= y < m && Under(par, d, y) && SameIdentity(f, y, m);
        assert nodes[y].objectId.value in ids;
        assert more == ids;
      } else {
        assert oid !in ids;
        SumOverInsert(ids, oid, w);
      }
    } else {
      assert more == ids;
    }
  }

  lemma {:induction false} UniqueFormula(nodes: seq<Record>, par: seq<nat>, d: nat, m: nat)
    requires AllEntries(nodes) && IsTree(par) && |par| == |nodes| && m <= |nodes|
    requires FactsOk(EntriesOf(nodes), FactsOf(nodes))
    ensures UniqueBytes(par, EntriesOf(nodes), FactsOf(nodes), SelfsOf(nodes), d, m)
         == TotalBelow(nodes, par, d, OwnBytes, m) + SumOver(IdentitiesBelow(nodes, par, d, m), LeastAllocations(nodes))
    decreases m
  {
    hide Bytes, SumOver, LeastAllocations, IdentitiesBelow, Counted, FactsOk, OwnBytes;
    if m > 0 {
      UniqueFormula(nodes, par, d, m - 1);
      SumStep(nodes, par, d, m - 1);
    } else {
      NothingBelow(nodes, par, d);
    }
  }

  lemma NothingBelow(nodes: seq<Record>, par: seq<nat>, d: nat)
    requires IsTree(par) && |par| == |nodes|
    ensures SumOver(IdentitiesBelow(nodes, par, d, 0), LeastAllocations(nodes)) == 0
  {
    assert IdentitiesBelow(nodes, par, d, 0) == {};
  }

  /** The unique bytes of a scope: the own allocation of its directories and of its files without identity, and for every
      distinct identity met there the smallest allocation that any alias in the whole target reports. */
  lemma UniqueIsSum(s: Scan, d: nat)
    requires HasTree(s)
    ensures AllEntries(s.nodes) && IsTree(ParentsOf(s.nodes))
    ensures UniqueIn(s, d) == TotalBelow(s.nodes, ParentsOf(s.nodes), d, OwnBytes, |s.nodes|)
                              + SumOver(IdentitiesBelow(s.nodes, ParentsOf(s.nodes), d, |s.nodes|), LeastAllocations(s.nodes))
  {
    UniqueFormula(s.nodes, ParentsOf(s.nodes), d, |s.nodes|);
  }
}
