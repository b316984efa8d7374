/** What the hard-link report says, in terms of the identities of the observation stream. */
module HardLinks {
  import opened Words
  import opened Observation
  import opened Graph
  import opened Forest
  import opened Objects
  import opened Settlement
  import opened Ingest
  import opened Scan
  import opened Outcome
  import opened Evidence
  import opened Census
  import opened Contents
  import opened Queries

  // ---- The report owed to a stream

  /** Identities with several aliases or a definite external status, each at its first alias, below index `m`. */
  ghost function ReportedIdentities(entries: seq<CompactEntry>, f: Facts, m: nat): seq<ObjectIdentity>
    requires FactsOk(entries, f) && m <= |entries| <= U32_MAX
  {
    if m == 0 then []
    else
      var before := ReportedIdentities(entries, f, m - 1);
      if f.ident[m - 1].Some? && Relevant(IdentityObject(entries, f, f.ident[m - 1].value))
         && forall y :: 0 <= y < m - 1 ==> f.ident[y] != f.ident[m - 1]
      then before + [f.ident[m - 1].value] else before
  }

  /** The paths of all aliases, in stream order. */
  ghost function PathsAt(g: DirectoryGraph, par: seq<nat>, s: seq<nat>): (r: seq<string>)
    requires IsTree(par) && |g.entries| == |par| && forall i :: 0 <= i < |s| ==> s[i] < |par|
    ensures |r| == |s| && forall i :: 0 <= i < |s| ==> r[i] == PathOf(g, par, s[i])
  {
    seq(|s|, i requires 0 <= i < |s| => PathOf(g, par, s[i]))
  }

  /** The summary of one identity: the evidence of all its aliases, and all their paths. */
  ghost function SummaryOf(g: DirectoryGraph, par: seq<nat>, entries: seq<CompactEntry>, f: Facts, oid: ObjectIdentity): (r: HardLinkSummary)
    requires IsTree(par) && |g.entries| == |par| == |entries| <= U32_MAX && FactsOk(entries, f)
    ensures |r.entryPaths| == r.observedAliasCount
  {
    var o := IdentityObject(entries, f, oid);
    HardLinkSummary(oid, o.observedAliasCount, o.totalLinkCount, o.status, PathsAt(g, par, Aliases(f.ident, oid, |entries|)))
  }

  ghost function Report(g: DirectoryGraph, par: seq<nat>, entries: seq<CompactEntry>, f: Facts, ids: seq<ObjectIdentity>): (r: seq<HardLinkSummary>)
    requires IsTree(par) && |g.entries| == |par| == |entries| <= U32_MAX && FactsOk(entries, f)
    ensures |r| == |ids| && forall i :: 0 <= i < |ids| ==> r[i] == SummaryOf(g, par, entries, f, ids[i])
  {
    seq(|ids|, i requires 0 <= i < |ids| => SummaryOf(g, par, entries, f, ids[i]))
  }

  // ---- Objects and identities

  /** What the report relies on: entries with nonzero ids, and object records that are those of the identities. */
  ghost predicate Attributed(g: DirectoryGraph, par: seq<nat>, entries: seq<CompactEntry>, f: Facts) {
    && IsTree(par) && |g.entries| == |par| == |entries| == |f.ident| <= U32_MAX && FactsOk(entries, f)
    && |g.objects| <= |entries|
    && (forall x :: 0 <= x < |entries| ==> g.entries[x].id != 0)
    && (forall x :: 0 <= x < |entries| ==> SettledObject(entries, f, x, g.entries[x], g.objects))
    && ObjectsShared(f, g.entries)
  }

  lemma IdentityEntry(g: DirectoryGraph, par: seq<nat>, entries: seq<CompactEntry>, f: Facts, x: nat)
    requires Attributed(g, par, entries, f) && x < |entries|
    ensures f.ident[x].Some? ==>
      g.entries[x].objectIndex < |g.objects| && g.objects[g.entries[x].objectIndex] == IdentityObject(entries, f, f.ident[x].value)
    ensures f.ident[x].None? && RelevantEntry(g, x) ==> g.objects[g.entries[x].objectIndex].identity.None?
  {
    assert SettledObject(entries, f, x, g.entries[x], g.objects);
  }

  /** Entries refer to the same object exactly if they have the same identity, once one of them has one. */
  lemma SameIndex(g: DirectoryGraph, par: seq<nat>, entries: seq<CompactEntry>, f: Facts, x: nat, y: nat)
    requires Attributed(g, par, entries, f) && x < |entries| && y < |entries| && f.ident[x].Some?
    ensures g.entries[y].objectIndex == g.entries[x].objectIndex <==> f.ident[y] == f.ident[x]
  {
    IdentityEntry(g, par, entries, f, x);
    assert g.entries[x].objectIndex != NO_OBJECT;
    if x < y {
      assert SameIdentity(f, x, y) <==> g.entries[x].objectIndex == g.entries[y].objectIndex != NO_OBJECT;
    } else if y < x {
      assert SameIdentity(f, y, x) <==> g.entries[y].objectIndex == g.entries[x].objectIndex != NO_OBJECT;
    }
  }

  lemma {:induction false} OrderedMeaning(g: DirectoryGraph, m: nat, k: u32)
    requires m <= |g.entries| && forall x :: 0 <= x < |g.entries| ==> g.entries[x].id != 0
    ensures k in Ordered(g, m) <==> exists y :: 0 <= y < m && g.entries[y].objectIndex == k && RelevantEntry(g, y)
    decreases m
  {
    if m > 0 {
      OrderedMeaning(g, m - 1, k);
    }
  }

  lemma {:induction false} PathsOfIdentity(g: DirectoryGraph, par: seq<nat>, entries: seq<CompactEntry>, f: Facts, x: nat, m: nat)
    requires Attributed(g, par, entries, f) && x < |entries| && f.ident[x].Some? && m <= |entries|
    ensures PathsOf(g, par, g.entries[x].objectIndex, m) == PathsAt(g, par, Aliases(f.ident, f.ident[x].value, m))
    decreases m
  {
    hide Attributed, PathOf;
    AttributedShape(g, par, entries, f, x);
    if m > 0 {
      AttributedShape(g, par, entries, f, m - 1);
      PathsOfIdentity(g, par, entries, f, x, m - 1);
      SameIndex(g, par, entries, f, x, m - 1);
    }
  }

  lemma SummariesAppend(g: DirectoryGraph, par: seq<nat>, ordered: seq<u32>, k: u32)
    requires IsTree(par) && |g.entries| == |par| && k < |g.objects| && forall i :: 0 <= i < |ordered| ==> ordered[i] < |g.objects|
    ensures Summaries(g, par, ordered + [k]) == Summaries(g, par, ordered) +
      match g.objects[k].identity
      case None => []
      case Some(identity) =>
        [HardLinkSummary(identity, g.objects[k].observedAliasCount, g.objects[k].totalLinkCount, g.objects[k].status, PathsOf(g, par, k, |par|))]
  {
    assert (ordered + [k])[..|ordered|] == ordered;
  }

  /** The object of entry `m` is new to the report exactly if its identity is. */
  lemma NewIdentity(g: DirectoryGraph, par: seq<nat>, entries: seq<CompactEntry>, f: Facts, m: nat)
    requires Attributed(g, par, entries, f) && m < |entries| && f.ident[m].Some? && RelevantEntry(g, m)
    ensures g.entries[m].objectIndex !in Ordered(g, m) <==> forall y :: 0 <= y < m ==> f.ident[y] != f.ident[m]
  {
    OrderedMeaning(g, m, g.entries[m].objectIndex);
    forall y | 0 <= y < m
      ensures g.entries[y].objectIndex == g.entries[m].objectIndex <==> f.ident[y] == f.ident[m]
    {
      SameIndex(g, par, entries, f, m, y);
    }
  }

  lemma {:induction false} ReportUpTo(g: DirectoryGraph, par: seq<nat>, entries: seq<CompactEntry>, f: Facts, m: nat)
    requires Attributed(g, par, entries, f) && m <= |entries|
    ensures forall i :: 0 <= i < |Ordered(g, m)| ==> Ordered(g, m)[i] < |g.objects|
    ensures Summaries(g, par, Ordered(g, m)) == Report(g, par, entries, f, ReportedIdentities(entries, f, m))
    decreases m
  {
    OrderedInRange(g, m);
    if m > 0 {
      var x := m - 1;
      OrderedInRange(g, x);
      ReportUpTo(g, par, entries, f, x);
      ReportStep(g, par, entries, f, x, m);
    }
  }

  lemma ReportStep(g: DirectoryGraph, par: seq<nat>, entries: seq<CompactEntry>, f: Facts, x: nat, m: nat)
    requires Attributed(g, par, entries, f) && x < |entries| && m == x + 1
    requires forall i :: 0 <= i < |Ordered(g, x)| ==> Ordered(g, x)[i] < |g.objects|
    requires forall i :: 0 <= i < |Ordered(g, m)| ==> Ordered(g, m)[i] < |g.objects|
    requires Summaries(g, par, Ordered(g, x)) == Report(g, par, entries, f, ReportedIdentities(entries, f, x))
    ensures Summaries(g, par, Ordered(g, m)) == Report(g, par, entries, f, ReportedIdentities(entries, f, m))
  {
    hide Attributed, Relevant, PathsOf, SummaryOf, IdentityObject, Summaries, Report, IsTree, FactsOk;
    AttributedShape(g, par, entries, f, x);
    IdentityEntry(g, par, entries, f, x);
    var k := g.entries[x].objectIndex;
    if RelevantEntry(g, x) {
      SummariesAppend(g, par, Ordered(g, x), k);
      if f.ident[x].Some? {
        NewIdentity(g, par, entries, f, x);
        SummaryAgrees(g, par, entries, f, x);
        ReportAppend(g, par, entries, f, ReportedIdentities(entries, f, x), f.ident[x].value);
      } else {
        assert Summaries(g, par, Ordered(g, x)) + [] == Summaries(g, par, Ordered(g, x));
      }
    }
  }

  lemma ReportAppend(g: DirectoryGraph, par: seq<nat>, entries: seq<CompactEntry>, f: Facts, ids: seq<ObjectIdentity>, oid: ObjectIdentity)
    requires IsTree(par) && |g.entries| == |par| == |entries| <= U32_MAX && FactsOk(entries, f)
    ensures Report(g, par, entries, f, ids + [oid]) == Report(g, par, entries, f, ids) + [SummaryOf(g, par, entries, f, oid)]
  {
    hide SummaryOf;
  }

  lemma AttributedShape(g: DirectoryGraph, par: seq<nat>, entries: seq<CompactEntry>, f: Facts, x: nat)
    requires Attributed(g, par, entries, f) && x < |entries|
    ensures IsTree(par) && |g.entries| == |par| == |entries| == |f.ident| <= U32_MAX && FactsOk(entries, f)
    ensures g.entries[x].id != 0
  {
  }

  lemma SummaryAgrees(g: DirectoryGraph, par: seq<nat>, entries: seq<CompactEntry>, f: Facts, x: nat)
    requires Attributed(g, par, entries, f) && x < |entries| && f.ident[x].Some?
    ensures var k := g.entries[x].objectIndex;
      && k < |g.objects| && g.objects[k].identity == f.ident[x]
      && HardLinkSummary(f.ident[x].value, g.objects[k].observedAliasCount, g.objects[k].totalLinkCount, g.objects[k].status, PathsOf(g, par, k, |par|))
         == SummaryOf(g, par, entries, f, f.ident[x].value)
  {
    IdentityEntry(g, par, entries, f, x);
    PathsOfIdentity(g, par, entries, f, x, |par|);
  }

  // ---- The theorem

  lemma BuiltIsAttributed(lower: string -> string, rootTarget: string, s: Scan, g: DirectoryGraph)
    requires HasTree(s) && GraphOf(lower, rootTarget, s, g) && 0 !in NodeIds(s.nodes)
    ensures Attributed(g, ParentsOf(s.nodes), EntriesOf(s.nodes), FactsOf(s.nodes))
  {
    hide ChildrenSliced, StreamsAttributed, AllocationsKnown, IdsOk, ParentsOk, ObjectsShared, SettledObject;
    SettledKeepsShape(ParentsOf(s.nodes), EntriesOf(s.nodes), FactsOf(s.nodes), SelfsOf(s.nodes), g.entries, g.objects);
    forall x | 0 <= x < |g.entries|
      ensures g.entries[x].id != 0
    {
      assert NodeIds(s.nodes)[x] in NodeIds(s.nodes);
    }
  }

  /** The report of a finished graph with nonzero ids lists exactly the identities with several aliases or a definite
      external status, in order of their first entry, each with the evidence and the paths of all its aliases. */
  method ReportHardLinks(g: DirectoryGraph, ghost lower: string -> string, ghost rootTarget: string, ghost s: Scan)
    returns (report: seq<HardLinkSummary>)
    requires HasTree(s) && GraphOf(lower, rootTarget, s, g) && 0 !in NodeIds(s.nodes)
    ensures Attributed(g, ParentsOf(s.nodes), EntriesOf(s.nodes), FactsOf(s.nodes))
    ensures report == Report(g, ParentsOf(s.nodes), EntriesOf(s.nodes), FactsOf(s.nodes),
                             ReportedIdentities(EntriesOf(s.nodes), FactsOf(s.nodes), |s.nodes|))
    ensures AllEntries(s.nodes) && ReportSays(g, s.nodes, ParentsOf(s.nodes), report)
  {
    hide GraphOf, Attributed, Navigable, Ordered, Summaries, ReportSays, Report, ReportedIdentities;
    BuiltIsAttributed(lower, rootTarget, s, g);
    BuiltIsNavigable(lower, rootTarget, s, g);
    AttributedShape(g, ParentsOf(s.nodes), EntriesOf(s.nodes), FactsOf(s.nodes), 0);
    report := HardLinkObjects(g, ParentsOf(s.nodes));
    ReportUpTo(g, ParentsOf(s.nodes), EntriesOf(s.nodes), FactsOf(s.nodes), |s.nodes|);
    ReportMeaning(lower, rootTarget, s, g, report);
  }

  /** An identity is reported exactly if it has several aliases or a definite status, and never twice. */
  lemma {:induction false} ReportedMeaning(entries: seq<CompactEntry>, f: Facts, m: nat, oid: ObjectIdentity)
    requires FactsOk(entries, f) && m <= |entries| <= U32_MAX
    ensures oid in ReportedIdentities(entries, f, m) <==>
      Relevant(IdentityObject(entries, f, oid)) && exists x :: 0 <= x < m && f.ident[x] == Some(oid)
    ensures forall i, j :: 0 <= i < j < |ReportedIdentities(entries, f, m)| ==>
      ReportedIdentities(entries, f, m)[i] != ReportedIdentities(entries, f, m)[j]
    decreases m
  {
    hide Relevant, IdentityObject;
    if m > 0 {
      ReportedMeaning(entries, f, m - 1, oid);
      if f.ident[m - 1].Some? {
        ReportedMeaning(entries, f, m - 1, f.ident[m - 1].value);
      }
    }
  }

  // ---- The report in terms of the records

  ghost predicate Ascending(s: seq<nat>) {
    forall i, j :: 0 <= i < j < |s| ==> s[i] < s[j]
  }

  lemma {:induction false} AliasesAscend(ident: seq<Option<ObjectIdentity>>, oid: ObjectIdentity, m: nat)
    requires m <= |ident|
    ensures Ascending(Aliases(ident, oid, m))
    decreases m
  {
    if m > 0 {
      AliasesAscend(ident, oid, m - 1);
    }
  }

  /** The summary of an identity: as many aliases as files name it, a link count and status that follow from theirs, and the paths
      of all of them in stream order; `places` are their entries. */
  ghost predicate SummarySays(g: DirectoryGraph, nodes: seq<Record>, par: seq<nat>, h: HardLinkSummary, places: seq<nat>)
    requires IsTree(par) && |g.entries| == |par| == |nodes|
  {
    && h.observedAliasCount == Total(nodes, FilesOf(h.identity)) == |places| == |h.entryPaths|
    && StatusFollows(LinksSeen(nodes, h.identity), h.observedAliasCount, h.totalLinkCount, h.status)
    && Ascending(places) && (forall x: nat :: Names(nodes, x, h.identity) <==> x in places)
    && forall i :: 0 <= i < |places| ==> places[i] < |par| && h.entryPaths[i] == PathOf(g, par, places[i])
  }

  ghost predicate Summarized(g: DirectoryGraph, nodes: seq<Record>, par: seq<nat>, h: HardLinkSummary)
    requires IsTree(par) && |g.entries| == |par| == |nodes|
  {
    exists places :: SummarySays(g, nodes, par, h, places)
  }

  lemma SummaryParts(g: DirectoryGraph, par: seq<nat>, entries: seq<CompactEntry>, f: Facts, oid: ObjectIdentity, h: HardLinkSummary, places: seq<nat>)
    requires IsTree(par) && |g.entries| == |par| == |entries| <= U32_MAX && FactsOk(entries, f)
    requires h == SummaryOf(g, par, entries, f, oid) && places == Aliases(f.ident, oid, |entries|)
    ensures var o := IdentityObject(entries, f, oid);
      h.identity == oid && h.observedAliasCount == o.observedAliasCount && h.totalLinkCount == o.totalLinkCount && h.status == o.status
    ensures |h.entryPaths| == |places| && forall i :: 0 <= i < |places| ==> places[i] < |par| && h.entryPaths[i] == PathOf(g, par, places[i])
  {
    hide IdentityObject, PathOf, Aliases, FactsOk;
  }

  lemma SummaryMeaning(g: DirectoryGraph, nodes: seq<Record>, par: seq<nat>, oid: ObjectIdentity, h: HardLinkSummary)
    requires AllEntries(nodes) && IsTree(par) && |g.entries| == |par| == |nodes| <= U32_MAX && FactsOk(EntriesOf(nodes), FactsOf(nodes))
    requires h == SummaryOf(g, par, EntriesOf(nodes), FactsOf(nodes), oid)
    ensures h.identity == oid && Summarized(g, nodes, par, h)
  {
    hide SummaryOf, IdentityObject, StatusFollows, LinksSeen, Total, FilesOf, PathOf, Aliases, FactsOk, IdentityAllocs, Ascending, Names, Least, KnownAllocs;
    var places := Aliases(FactsOf(nodes).ident, oid, |nodes|);
    SummaryParts(g, par, EntriesOf(nodes), FactsOf(nodes), oid, h, places);
    IdentityObjectSays(nodes, oid);
    SummaryCounts(nodes, oid, places);
    assert SummarySays(g, nodes, par, h, places);
  }

  lemma SummaryCounts(nodes: seq<Record>, oid: ObjectIdentity, places: seq<nat>)
    requires AllEntries(nodes) && FactsOk(EntriesOf(nodes), FactsOf(nodes)) && |nodes| <= U32_MAX
    requires places == Aliases(FactsOf(nodes).ident, oid, |nodes|)
    ensures IdentityObject(EntriesOf(nodes), FactsOf(nodes), oid).observedAliasCount == |places|
    ensures Ascending(places) && (forall x: nat :: Names(nodes, x, oid) <==> x in places)
  {
    AliasAllocs(nodes, oid, places);
    AliasesAscend(FactsOf(nodes).ident, oid, |nodes|);
    hide Ascending, Aliases, Weight, StatusOf, ResolvedLink;
  }

  /** Worth a summary: two or more aliases, or a definite statement about links outside the target. */
  ghost predicate Reportable(aliases: nat, status: ExternalReferenceStatus) {
    aliases >= 2 || status.ConfirmedExternal? || status.InconsistentEvidence?
  }

  /** What a report says, summary by summary. */
  ghost predicate ReportSays(g: DirectoryGraph, nodes: seq<Record>, par: seq<nat>, report: seq<HardLinkSummary>) {
    && IsTree(par) && |g.entries| == |par| == |nodes|
    && (forall i :: 0 <= i < |report| ==> Reportable(report[i].observedAliasCount, report[i].status))
    && (forall i :: 0 <= i < |report| ==> Summarized(g, nodes, par, report[i]))
    && forall i, j :: 0 <= i < j < |report| ==> report[i].identity != report[j].identity
  }

  lemma ReportedSummary(g: DirectoryGraph, nodes: seq<Record>, par: seq<nat>, oid: ObjectIdentity, h: HardLinkSummary)
    requires AllEntries(nodes) && IsTree(par) && |g.entries| == |par| == |nodes| <= U32_MAX && FactsOk(EntriesOf(nodes), FactsOf(nodes))
    requires oid in ReportedIdentities(EntriesOf(nodes), FactsOf(nodes), |nodes|) && h == SummaryOf(g, par, EntriesOf(nodes), FactsOf(nodes), oid)
    ensures h.identity == oid && Reportable(h.observedAliasCount, h.status) && Summarized(g, nodes, par, h)
  {
    hide SummaryOf, IdentityObject, FactsOk, ReportedIdentities, Summarized, Aliases, EntriesOf, FactsOf, IsTree;
    ReportedMeaning(EntriesOf(nodes), FactsOf(nodes), |nodes|, oid);
    SummaryMeaning(g, nodes, par, oid, h);
    SummaryParts(g, par, EntriesOf(nodes), FactsOf(nodes), oid, h, Aliases(FactsOf(nodes).ident, oid, |nodes|));
  }

  lemma ReportedOnce(g: DirectoryGraph, nodes: seq<Record>, par: seq<nat>, report: seq<HardLinkSummary>, ids: seq<ObjectIdentity>)
    requires AllEntries(nodes) && IsTree(par) && |g.entries| == |par| == |nodes| <= U32_MAX && FactsOk(EntriesOf(nodes), FactsOf(nodes))
    requires ids == ReportedIdentities(EntriesOf(nodes), FactsOf(nodes), |nodes|)
    requires report == Report(g, par, EntriesOf(nodes), FactsOf(nodes), ids)
    ensures ReportSays(g, nodes, par, report) && forall i :: 0 <= i < |report| ==> report[i].identity == ids[i]
  {
    hide Summarized, SummaryOf, IdentityObject, FactsOk, ReportedIdentities, IsTree, Reportable, EntriesOf, FactsOf, ReportSays;
    forall i | 0 <= i < |report|
      ensures report[i].identity == ids[i] && Reportable(report[i].observedAliasCount, report[i].status) && Summarized(g, nodes, par, report[i])
    {
      assert ids[i] in ids;
      ReportedSummary(g, nodes, par, ids[i], report[i]);
    }
    ReportedDistinct(EntriesOf(nodes), FactsOf(nodes), |nodes|);
    ReportAssembled(g, nodes, par, report, ids);
  }

  lemma ReportedDistinct(entries: seq<CompactEntry>, f: Facts, m: nat)
    requires FactsOk(entries, f) && m <= |entries| <= U32_MAX
    ensures var ids := ReportedIdentities(entries, f, m); forall i, j :: 0 <= i < j < |ids| ==> ids[i] != ids[j]
  {
    var oid: ObjectIdentity :| true;
    ReportedMeaning(entries, f, m, oid);
  }

  lemma ReportAssembled(g: DirectoryGraph, nodes: seq<Record>, par: seq<nat>, report: seq<HardLinkSummary>, ids: seq<ObjectIdentity>)
    requires IsTree(par) && |g.entries| == |par| == |nodes| && |report| == |ids|
    requires forall i :: 0 <= i < |report| ==>
      report[i].identity == ids[i] && Reportable(report[i].observedAliasCount, report[i].status) && Summarized(g, nodes, par, report[i])
    requires forall i, j :: 0 <= i < j < |ids| ==> ids[i] != ids[j]
    ensures ReportSays(g, nodes, par, report)
  {
    hide Summarized, Reportable;
  }

  /** The report of a finished graph says this of every identity it lists, and an identity it does not list is not reportable. */
  lemma ReportMeaning(lower: string -> string, target: string, s: Scan, g: DirectoryGraph, report: seq<HardLinkSummary>)
    requires HasTree(s) && GraphOf(lower, target, s, g)
    requires AllEntries(s.nodes) && IsTree(ParentsOf(s.nodes)) && |g.entries| == |s.nodes| <= U32_MAX && FactsOk(EntriesOf(s.nodes), FactsOf(s.nodes))
    requires report == Report(g, ParentsOf(s.nodes), EntriesOf(s.nodes), FactsOf(s.nodes), ReportedIdentities(EntriesOf(s.nodes), FactsOf(s.nodes), |s.nodes|))
    ensures ReportSays(g, s.nodes, ParentsOf(s.nodes), report)
    ensures forall x: nat, oid :: Names(s.nodes, x, oid) && (forall i :: 0 <= i < |report| ==> report[i].identity != oid) ==>
      x < |g.entries| && g.entries[x].objectIndex < |g.objects|
      && !Reportable(g.objects[g.entries[x].objectIndex].observedAliasCount, g.objects[g.entries[x].objectIndex].status)
  {
    hide GraphOf, HasTree, Summarized, IdentityObject, FactsOk, ReportedIdentities;
    var nodes, par, entries, f := s.nodes, ParentsOf(s.nodes), EntriesOf(s.nodes), FactsOf(s.nodes);
    var ids := ReportedIdentities(entries, f, |nodes|);
    ReportedOnce(g, nodes, par, report, ids);
    forall x: nat, oid | Names(nodes, x, oid) && forall i :: 0 <= i < |report| ==> report[i].identity != oid
      ensures x < |g.entries| && g.entries[x].objectIndex < |g.objects|
      ensures !Reportable(g.objects[g.entries[x].objectIndex].observedAliasCount, g.objects[g.entries[x].objectIndex].status)
    {
      ReportedMeaning(entries, f, |nodes|, oid);
      NamesIsIdentity(nodes, x, oid);
      assert oid !in ids;
      ObjectAt(lower, target, s, g, x);
    }
  }

  // ---- The report depends on the stream alone

  lemma {:induction false} SamePrefix(g: DirectoryGraph, h: DirectoryGraph, par: seq<nat>, x: nat)
    requires IsTree(par) && |g.entries| == |h.entries| == |par| && x < |par|
    requires forall y :: 0 <= y < |par| ==> g.entries[y].name == h.entries[y].name
    ensures PathPrefix(g, par, x) == PathPrefix(h, par, x)
    decreases x
  {
    if x > 0 {
      SamePrefix(g, h, par, par[x]);
    }
  }

  lemma SameNames(lower: string -> string, target: string, s: Scan, g: DirectoryGraph)
    requires HasTree(s) && GraphOf(lower, target, s, g)
    ensures AllEntries(s.nodes)
    ensures |g.entries| == |s.nodes| && IsTree(ParentsOf(s.nodes)) && FactsOk(EntriesOf(s.nodes), FactsOf(s.nodes)) && |s.nodes| <= U32_MAX
    ensures forall x :: 0 <= x < |s.nodes| ==> g.entries[x].name == s.nodes[x].name
  {
    BuiltIsNavigable(lower, target, s, g);
    hide GraphOf, Navigable;
    forall x | 0 <= x < |s.nodes|
      ensures g.entries[x].name == s.nodes[x].name
    {
      assert g.entries[x].name == EntriesOf(s.nodes)[x].name;
    }
  }

  lemma SameReports(g: DirectoryGraph, h: DirectoryGraph, par: seq<nat>, entries: seq<CompactEntry>, f: Facts, ids: seq<ObjectIdentity>)
    requires IsTree(par) && |g.entries| == |h.entries| == |par| == |entries| <= U32_MAX && FactsOk(entries, f)
    requires forall x :: 0 <= x < |par| ==> g.entries[x].name == h.entries[x].name
    ensures Report(g, par, entries, f, ids) == Report(h, par, entries, f, ids)
  {
    forall x | 0 <= x < |par|
      ensures PathOf(g, par, x) == PathOf(h, par, x)
    {
      SamePrefix(g, h, par, x);
    }
    hide PathOf, IdentityObject;
    forall i | 0 <= i < |ids|
      ensures SummaryOf(g, par, entries, f, ids[i]) == SummaryOf(h, par, entries, f, ids[i])
    {
      var aliases := Aliases(f.ident, ids[i], |entries|);
      assert PathsAt(g, par, aliases) == PathsAt(h, par, aliases);
    }
  }

  /** Two graphs of one stream give the same report, whatever target they are named after, however names are folded,
      and in whatever order their objects were numbered. */
  lemma ReportUnique(lower: string -> string, target: string, lower': string -> string, target': string, s: Scan, g: DirectoryGraph, h: DirectoryGraph,
                     ids: seq<ObjectIdentity>)
    requires HasTree(s) && GraphOf(lower, target, s, g) && GraphOf(lower', target', s, h)
    ensures |g.entries| == |h.entries| == |s.nodes| && IsTree(ParentsOf(s.nodes)) && FactsOk(EntriesOf(s.nodes), FactsOf(s.nodes)) && |s.nodes| <= U32_MAX
    ensures Report(g, ParentsOf(s.nodes), EntriesOf(s.nodes), FactsOf(s.nodes), ids)
         == Report(h, ParentsOf(s.nodes), EntriesOf(s.nodes), FactsOf(s.nodes), ids)
  {
    hide GraphOf, HasTree, PathOf;
    SameNames(lower, target, s, g);
    SameNames(lower', target', s, h);
    var par, entries, f := ParentsOf(s.nodes), EntriesOf(s.nodes), FactsOf(s.nodes);
    SameReports(g, h, par, entries, f, ids);
  }
}
