/** Evidence about one filesystem object, gathered from all its aliases: what its link count and
    weight are, when the aliases contradict each other, and why the order of the aliases is irrelevant. */
module Evidence {
  import opened Words
  import opened Observation

  // ---- Link counts

  /** Two aliases report different total link counts. */
  ghost predicate LinkConflict(links: seq<ValueKnowledge>) {
    exists i, j :: 0 <= i < j < |links| && links[i].Known? && links[j].Known? && links[i] != links[j]
  }

  ghost function FirstKnown(links: seq<ValueKnowledge>): Option<u32> {
    if links == [] then None
    else
      var before := FirstKnown(links[..|links| - 1]);
      if before.None? && links[|links| - 1].Known? then Some(links[|links| - 1].value) else before
  }

  /** A known count wins over "unavailable", which wins over "not applicable". */
  ghost function ResolvedLink(links: seq<ValueKnowledge>): ValueKnowledge {
    if FirstKnown(links).Some? then Known(FirstKnown(links).value)
    else if Unavailable in links then Unavailable
    else if NotApplicable in links then NotApplicable
    else NotObserved
  }

  ghost function StatusOf(links: seq<ValueKnowledge>): ExternalReferenceStatus {
    if LinkConflict(links) then InconsistentEvidence else Derive(ResolvedLink(links), |links|)
  }

  lemma {:induction false} FirstKnownMeaning(links: seq<ValueKnowledge>)
    ensures FirstKnown(links).Some? ==> Known(FirstKnown(links).value) in links
    ensures FirstKnown(links).None? ==> forall v :: v in links ==> !v.Known?
    decreases |links|
  {
    if links != [] {
      var r := links[..|links| - 1];
      FirstKnownMeaning(r);
      assert links == r + [links[|links| - 1]];
    }
  }

  lemma ConflictMembers(links: seq<ValueKnowledge>)
    ensures LinkConflict(links) <==> exists a, b :: a in links && b in links && a.Known? && b.Known? && a != b
  {
    if exists a, b :: a in links && b in links && a.Known? && b.Known? && a != b {
      var a, b :| a in links && b in links && a.Known? && b.Known? && a != b;
      var i :| 0 <= i < |links| && links[i] == a;
      var j :| 0 <= j < |links| && links[j] == b;
      assert if i < j then links[i] != links[j] else links[j] != links[i];
    }
  }

  /** How the link count and the status of an object follow from the counts its aliases report. Two different known counts are
      inconsistent. One known count is inconsistent with more aliases than it allows, confirms that there are no others if it
      is reached, and confirms others if it is not. Without a known count, the status is indeterminate if an alias was
      unavailable or none was asked, and does not apply otherwise. */
  ghost predicate StatusFollows(seen: set<ValueKnowledge>, aliases: nat, total: ValueKnowledge, status: ExternalReferenceStatus) {
    && ((exists a, b :: a in seen && b in seen && a.Known? && b.Known? && a != b) ==>
          total.Known? && total in seen && status == InconsistentEvidence)
    && (forall k: u32 :: Known(k) in seen && (forall v :: v in seen && v.Known? ==> v == Known(k)) ==>
          && total == Known(k)
          && (k < aliases ==> status == InconsistentEvidence)
          && (k == aliases ==> status == ConfirmedNone)
          && (k > aliases ==> status == ConfirmedExternal))
    && ((forall v :: v in seen ==> !v.Known?) ==>
          if Unavailable in seen then total == Unavailable && status == Indeterminate
          else if NotApplicable in seen then total == NotApplicable && status == StatusNotApplicable
          else total == NotObserved && status == Indeterminate)
  }

  lemma StatusMeaning(links: seq<ValueKnowledge>, seen: set<ValueKnowledge>)
    requires forall v :: v in seen <==> v in links
    ensures StatusFollows(seen, |links|, ResolvedLink(links), StatusOf(links))
  {
    ConflictMembers(links);
    FirstKnownMeaning(links);
  }

  /** The same for an object with one alias. */
  lemma LoneStatus(link: ValueKnowledge)
    ensures StatusFollows({link}, 1, link, Derive(link, 1))
  {
  }

  /** The derived status does not depend on the order in which the aliases were observed. */
  lemma StatusOrderIndependent(links: seq<ValueKnowledge>, links': seq<ValueKnowledge>)
    requires multiset(links) == multiset(links')
    ensures StatusOf(links) == StatusOf(links')
  {
    assert |links| == |multiset(links)| == |multiset(links')| == |links'|;
    assert forall v :: v in links <==> v in multiset(links);
    assert forall v :: v in links' <==> v in multiset(links');
    ConflictMembers(links);
    ConflictMembers(links');
    FirstKnownMeaning(links);
    FirstKnownMeaning(links');
  }

  method ResolveLinks(links: seq<ValueKnowledge>) returns (resolved: ValueKnowledge, conflict: bool)
    ensures resolved == ResolvedLink(links)
    ensures conflict <==> LinkConflict(links)
  {
    hide FirstKnown, ResolvedLink, LinkConflict;
    NothingResolved();
    assert links[..0] == [];
    resolved := NotObserved;
    conflict := false;
    var firstKnown: Option<u32> := None;
    for i := 0 to |links|
      invariant firstKnown == FirstKnown(links[..i])
      invariant resolved == ResolvedLink(links[..i])
      invariant conflict <==> LinkConflict(links[..i])
    {
      var link := links[i];
      assert links[..i + 1] == links[..i] + [link];
      ResolvedStep(links[..i], link);
      ConflictStep(links[..i], link);
      match link {
        case Known(k) =>
          match firstKnown {
            case None =>
              firstKnown := Some(k);
              resolved := Known(k);
            case Some(prev) =>
              if prev != k {
                conflict := true;
              }
          }
        case Unavailable =>
          if firstKnown.None? {
            resolved := Unavailable;
          }
        case NotApplicable =>
          if firstKnown.None? && !resolved.Unavailable? {
            resolved := NotApplicable;
          }
        case NotObserved =>
      }
    }
    assert links[..|links|] == links;
  }

  lemma NothingResolved()
    ensures FirstKnown([]) == None && ResolvedLink([]) == NotObserved && !LinkConflict([])
  {
  }

  /** How one more alias changes what is known. */
  lemma ResolvedStep(links: seq<ValueKnowledge>, link: ValueKnowledge)
    ensures var first, was := FirstKnown(links), ResolvedLink(links);
      && FirstKnown(links + [link]) == (if first.None? && link.Known? then Some(link.value) else first)
      && ResolvedLink(links + [link]) ==
           if first.Some? || link.NotObserved? || (link.NotApplicable? && was.Unavailable?) then was else link
  {
    assert (links + [link])[..|links|] == links;
    FirstKnownMeaning(links);
  }

  lemma ConflictStep(links: seq<ValueKnowledge>, link: ValueKnowledge)
    ensures LinkConflict(links + [link])
       <==> LinkConflict(links) || (link.Known? && FirstKnown(links).Some? && FirstKnown(links).value != link.value)
  {
    FirstKnownMeaning(links);
    ConflictMembers(links);
    ConflictMembers(links + [link]);
    if link.Known? && FirstKnown(links).Some? && FirstKnown(links).value != link.value {
      assert Known(FirstKnown(links).value) in links + [link] && link in links + [link];
    }
    if LinkConflict(links) {
      var a, b :| a in links && b in links && a.Known? && b.Known? && a != b;
      assert a in links + [link] && b in links + [link];
    }
  }

  // ---- Weights

  /** The smallest known allocation, if any alias reports one. */
  ghost function MinKnown(allocs: seq<Option<u64>>): Option<u64> {
    if allocs == [] then None
    else
      var before, last := MinKnown(allocs[..|allocs| - 1]), allocs[|allocs| - 1];
      if last.None? then before
      else if before.None? then last
      else Some(Min(before.value, last.value))
  }

  lemma {:induction false} MinKnownMeaning(allocs: seq<Option<u64>>)
    ensures MinKnown(allocs).Some? ==> MinKnown(allocs) in allocs
    ensures forall a :: a in allocs && a.Some? ==> MinKnown(allocs).Some? && MinKnown(allocs).value <= a.value
    decreases |allocs|
  {
    if allocs != [] {
      var r := allocs[..|allocs| - 1];
      MinKnownMeaning(r);
      assert allocs == r + [allocs[|allocs| - 1]];
    }
  }

  /** Two aliases report different allocations. */
  ghost predicate AllocConflict(allocs: seq<Option<u64>>) {
    exists i, j :: 0 <= i < j < |allocs| && allocs[i].Some? && allocs[j].Some? && allocs[i] != allocs[j]
  }

  /** The first known allocation; with it a conflict shows as soon as one known value differs. */
  ghost predicate FirstAlloc(allocs: seq<Option<u64>>, first: Option<u64>) {
    && (first.Some? ==> first in allocs)
    && (first.None? ==> forall a :: a in allocs ==> a.None?)
    && (!AllocConflict(allocs) ==> forall a :: a in allocs && a.Some? ==> a == first)
  }

  method ResolveAllocation(allocs: seq<Option<u64>>) returns (minAlloc: Option<u64>, conflict: bool)
    ensures minAlloc == MinKnown(allocs)
    ensures conflict <==> AllocConflict(allocs)
  {
    minAlloc := None;
    conflict := false;
    var firstAlloc: Option<u64> := None;
    for i := 0 to |allocs|
      invariant minAlloc == MinKnown(allocs[..i])
      invariant conflict <==> AllocConflict(allocs[..i])
      invariant FirstAlloc(allocs[..i], firstAlloc)
    {
      var a := allocs[i];
      assert allocs[..i + 1][..i] == allocs[..i];
      assert allocs[..i + 1] == allocs[..i] + [a];
      AllocConflictStep(allocs[..i], a, firstAlloc);
      if a.Some? {
        minAlloc := if minAlloc.None? then a else Some(Min(minAlloc.value, a.value));
        if firstAlloc.None? {
          firstAlloc := a;
        } else if firstAlloc != a {
          conflict := true;
        }
      }
    }
    assert allocs[..|allocs|] == allocs;
  }

  lemma AllocConflictStep(allocs: seq<Option<u64>>, a: Option<u64>, first: Option<u64>)
    requires FirstAlloc(allocs, first)
    ensures AllocConflict(allocs + [a]) <==> AllocConflict(allocs) || (a.Some? && first.Some? && first != a)
    ensures FirstAlloc(allocs + [a], if first.None? then a else first)
  {
    var more := allocs + [a];
    assert forall i :: 0 <= i < |allocs| ==> more[i] == allocs[i];
    if AllocConflict(allocs) {
      var i, j :| 0 <= i < j < |allocs| && allocs[i].Some? && allocs[j].Some? && allocs[i] != allocs[j];
      assert more[i] != more[j];
    }
    if a.Some? && first.Some? && first != a {
      var i :| 0 <= i < |allocs| && allocs[i] == first;
      assert more[i] != more[|allocs|];
    }
    if AllocConflict(more) && !AllocConflict(allocs) {
      var i, j :| 0 <= i < j < |more| && more[i].Some? && more[j].Some? && more[i] != more[j];
      assert j == |allocs|;
      assert allocs[i] in allocs;
    }
  }
}
