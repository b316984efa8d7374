# PigTree: verified model

PigTree shows where the bytes of a directory tree are. A scan worker walks the file system and streams
observations to an engine; the engine builds a directory graph that counts every hard-linked object once per scope;
a client and a viewer read the graph over a framed pipe. This project models that path in Dafny and proves what it
promises.

- **Hard-link accounting** (`Forest`, `UnionFind`, `Tarjan`, `Distinct`, `Evidence`, `Objects`, `Aggregates`,
  `ChildOrder`, `Accounting`, `Census`, `Settlement`): the settlement of a scan. It resolves objects from contradicting evidence,
  walks the sibling links with an explicit stack, finds lowest common ancestors with a union-find structure, takes repeated
  aliases back at those ancestors, sums bottom-up and sorts the children. The specification says it without any of
  this: the unique bytes of a directory are the bytes of the entries below it, each object once (`Accounting.UniqueOf`).
- **Ingestion** (`Ingest`, `Scan`, `Acceptance`, `Builder`, `Outcome`, `Contents`, `Build`, `Guarantees`, `Limits`): the graph builder as a class over
  index vectors with a dense and a sparse id scheme, refining one abstract state machine (`Scan.Step`, `Scan.Run`); what
  every accepted stream guarantees, and inputs at which a guarantee reaches its limit.
- **The worker and its stream** (`FileSystem`, `Enumeration`, `Worker`, `Inventory`, `Words`, `Wire`, `Codec`, `Format`, `Stream`, `Pipeline`):
  a finite file system whose directories answer an enumeration in an arbitrary way, the batched enumeration buffer, the
  traversal, the binary codec, and the composition from the file system to the graph.
- **Frames and sessions** (`Register`, `Crc32c`, `Polynomial`, `Frame`, `Session`): CRC-32C (section 12.1 of RFC 3720), the three
  readers of a frame, and one scan over a session as a system of steps in which every interleaving is a run.
- **Around it** (`TreeStore`, `Projection`, `PageCache`, `Queries`, `HardLinks`, `Decimals`, `Calendar`, `CommandLine`): the
  flattened tree view under interleaved expansion, the page cache, paging and path queries, the hard-link report,
  timestamps (section 5.7 and Appendix C of RFC 3339) and the worker's command line.

Code that changes state step by step is modelled by classes, methods and loops over the same vectors, maps and stacks;
each method is tied to a specification function or predicate, and the lemmas are about those. `dafny verify dfyconfig.toml`
checks the whole project.

Five promises hold only under a condition. Each condition is proved to be exact, can be checked beforehand, and comes with
a concrete input that shows it is needed:

- The unique bytes of all directories are right, and the settlement does not panic, if and only if the unique bytes of the
  whole target fit 64 bits (`Settlement.ComputeAggregates`). Beyond that it panics exactly if some directory has fewer
  unique bytes than its children lose to the cut-off at 64 bits; otherwise every directory reports its unique bytes cut off
  at 64 bits (`Guarantees.CutOffUniques`). `Limits.HeavyIsWrong` is a stream with a wrong value, `Limits.SharedPanics` one
  that panics.
- Unique bytes stay within referenced bytes in a scope, whatever the sizes, if and only if every object of known size met
  there is also reported there (`Accounting.UniqueWithinReferencedExactly`). The target as a whole always qualifies.
  `Limits.LostExceeds` is a stream whose graph breaks the bound.
- A finished scan is accepted if and only if the file system's byte sums agree when one wraps and the other saturates at 64
  bits; if they fit 64 bits, every run is accepted, whatever fails or is cancelled (`Worker.ScanDirectory`).
  `Limits.BigScanRejected` is a file system whose scan is rejected.
- The stream of an uncancelled scan can be written, and so a graph can be built, if and only if the target, every listed
  name, and the path and message of every gap fit a 16-bit length (`Pipeline.ScanToGraph`, `Worker.StringsFit`); a
  cancelled scan can be written if they fit. `Limits.LongTargetUnread` and `Limits.DeepGapUnread` are scans that cannot be
  written; in the second, the target and every name are short, but the path of a directory that denies access is not.
- The arguments after the program name survive quoting and splitting for all argument lists if and only if the quote marks
  in the program name come in pairs without a blank inside a pair (`CommandLine.ProgramSurvives`). The quoter escapes them,
  but the splitting rules know no escapes in a program name (`CommandLine.QuoteInProgramFails`).

## Model

| member | source | states |
|---|---|---|
| `UnionFind.FindUf` | crates/pigtree-engine/src/builder.rs:642-654 | Returns the representative, terminates because parents of non-roots are smaller, and path compression changes no representative |
| `UnionFind.CompressKeepsRoots` | crates/pigtree-engine/src/builder.rs:647-652 | Pointing an entry straight at its root leaves the representative of every entry as it was |
| `UnionFind.LinkRoots` | crates/pigtree-engine/src/builder.rs:691-696 | Linking one root below a smaller one redirects exactly the entries it represented |
| `Tarjan.PopIsOk` | crates/pigtree-engine/src/builder.rs:671-697 | Finishing an entry keeps the walk consistent: the stack is a root path, and every finished subtree is a contiguous block of the post-order ending at its root |
| `Tarjan.Descend` | crates/pigtree-engine/src/builder.rs:664-670 | The next child on the sibling chain has never been visited, and fewer entries are fresh after the push, so the traversal ends |
| `Tarjan.RepIsLca` | crates/pigtree-engine/src/builder.rs:678-680 | The representative of a finished entry is its lowest common ancestor with the entry being popped |
| `Tarjan.RepeatAtLca` | crates/pigtree-engine/src/builder.rs:678-684 | A scope contains that ancestor exactly if it contains the popped alias and some earlier alias, though only the last alias is remembered |
| `Tarjan.DeltaRepeat` | crates/pigtree-engine/src/builder.rs:681-683 | One more negative delta at the ancestor keeps the deltas below every directory equal to the repeats visited there |
| `Tarjan.Settle` | crates/pigtree-engine/src/builder.rs:673-687 | The alias bookkeeping of one popped entry keeps the correction right for every directory; the 128-bit subtraction never overflows |
| `Tarjan.Unite` | crates/pigtree-engine/src/builder.rs:691-696 | After the union, `ancestor[find(x)]` is again the lowest unfinished ancestor of every entry |
| `Tarjan.Traverse` | crates/pigtree-engine/src/builder.rs:635-744 | The post-order is a permutation with contiguous subtrees, the deltas below any directory sum to minus its repeats, and the loop over disconnected components has nothing to do |
| `Distinct.FirstsOrderIndependent` | crates/pigtree-engine/src/builder.rs:662-698 | Counting each object at its first visit gives the same sum in every visiting order |
| `Distinct.CorrectedSumIsDistinct` | crates/pigtree-engine/src/builder.rs:792-811 | A plain subtree sum plus deltas that take every repeat back counts each object of the subtree once |
| `Forest.BottomUp` | crates/pigtree-engine/src/builder.rs:761-812 | A directory's own amount plus the finished sums of its children is the sum over its subtree |
| `Evidence.ResolveLinks` | crates/pigtree-engine/src/builder.rs:467-504 | The loop finds the link count that known, unavailable and not-applicable evidence ranks to, and reports a conflict exactly if two aliases know different counts |
| `Evidence.ConflictStep` | crates/pigtree-engine/src/builder.rs:479-489 | Comparing each known count with the first one detects every disagreement |
| `Evidence.StatusOrderIndependent` | crates/pigtree-protocol/src/observation.rs:78-94 | The external reference status is the same for every order of the aliases |
| `Evidence.StatusMeaning` | crates/pigtree-protocol/src/observation.rs:78-94 | Two different known counts are inconsistent; one known count is inconsistent, complete or external as it is below, equal to or above the number of aliases; without a known count the status is indeterminate exactly if some alias is unavailable or all are unobserved, and not applicable otherwise |
| `Evidence.ResolveAllocation` | crates/pigtree-engine/src/builder.rs:516-538 | The loop finds the smallest known allocation and reports a conflict exactly if two aliases know different ones |
| `Evidence.MinKnownMeaning` | crates/pigtree-engine/src/builder.rs:527-536 | The weight is the allocation of some alias and at most that of every other |
| `Objects.AttachIdentity` | crates/pigtree-engine/src/builder.rs:540-569 | Exactly the aliases of one identity get its object number, and lose their known allocation exactly if the aliases conflict |
| `Objects.IterateIdentities` | crates/pigtree-engine/src/builder.rs:463-570 | Whatever order the identity map is iterated in, every identity gets one record from the evidence of all its aliases, and each indeterminate identity is counted once |
| `Objects.CountInIsCardinality` | crates/pigtree-engine/src/builder.rs:512-514 | Counting along any iteration order of distinct identities gives the size of the set |
| `Objects.ResolveDirectories` | crates/pigtree-engine/src/builder.rs:572-589 | Every directory with identity gets one record of its own, in whatever order the map yields them |
| `Objects.ResolveLooseFiles` | crates/pigtree-engine/src/builder.rs:591-615 | Files without identity get a record exactly if their link count was asked for, and count as indeterminate one by one |
| `Objects.ResolveObjects` | crates/pigtree-engine/src/builder.rs:462-615 | After resolution every entry refers to the record its facts call for, entries share a record exactly as aliases, and the two counters are right; `Contents.ObjectMeaning` and its neighbours say what these records hold |
| `Aggregates.SetLeafAmounts` | crates/pigtree-engine/src/builder.rs:746-758 | Every file gets its object's weight or its own allocation, every special object nothing, directories stay as they are |
| `Aggregates.ChildTotals` | crates/pigtree-engine/src/builder.rs:766-790 | Walking the sibling chain visits each child once: saturating totals, exact unique sum, and known exactly if all children are |
| `Aggregates.SaturatedTotal` | crates/pigtree-engine/src/builder.rs:775-778 | Saturating sums of saturated child totals are the clamped exact subtree sum |
| `Aggregates.DirectoryUnique` | crates/pigtree-engine/src/builder.rs:792-811 | The sum computed from the children's cut-off values is the directory's unique bytes minus the multiples of 2^64 its children lost |
| `Aggregates.SettleDirectory` | crates/pigtree-engine/src/builder.rs:762-812 | Each directory gets the totals of its subtree, and the non-negativity assertion holds exactly if it has at least what its children lost |
| `Aggregates.AggregateDirectories` | crates/pigtree-engine/src/builder.rs:760-812 | In post-order the totals of all children are final before their parent, so every directory ends with those of its subtree, or the assertion fails exactly if some directory is overdrawn |
| `ChildOrder.PrecedesTotal` | crates/pigtree-engine/src/builder.rs:836-863 | The comparison orders any two entries of different ids, one way only |
| `ChildOrder.PrecedesTransitive` | crates/pigtree-engine/src/builder.rs:836-863 | The comparison is transitive |
| `ChildOrder.CollectChildren` | crates/pigtree-engine/src/builder.rs:820-825 | The sibling chain lists every child once, in arrival order |
| `ChildOrder.SortChildren` | crates/pigtree-engine/src/builder.rs:836-863 | The result is sorted and holds the same children |
| `ChildOrder.SortedUnique` | crates/pigtree-engine/src/builder.rs:836-863 | There is only one sorted arrangement, so any correct sort gives it |
| `ChildOrder.NameLessMeaning` | crates/pigtree-engine/src/builder.rs:836-863 | The name comparison is the lexicographic one: a common prefix, after which the first name ends or has the smaller character |
| `ChildOrder.SortedMeaning` | crates/pigtree-engine/src/builder.rs:836-863 | Of two positions of a sorted list: directories come first, then larger logical sizes, then smaller folded names, then smaller names, then smaller ids |
| `ChildOrder.BuildSlices` | crates/pigtree-engine/src/builder.rs:814-872 | The slices are in bounds and disjoint, hold every entry but the root once, and each is the sorted list of its directory's children, in the order of `ChildOrder.SortedMeaning` |
| `Accounting.UniqueMonotone` | crates/pigtree-engine/src/builder.rs:760-812 | A directory never has fewer unique bytes than one inside it |
| `Accounting.UniqueCovered` | crates/pigtree-engine/src/builder.rs:516-552 | For the whole target unique bytes never exceed referenced bytes |
| `Accounting.UniqueAtMostReferenced` | crates/pigtree-engine/src/builder.rs:516-552 | In every scope unique bytes stay within referenced bytes if all aliases report their allocation |
| `Accounting.UniqueWithinReferenced` | crates/pigtree-engine/src/builder.rs:516-552 | The same for one scope if each object of known size met there is reported by some alias there |
| `Accounting.UnreportedExceeds` | crates/pigtree-engine/src/builder.rs:516-552 | Otherwise there are sizes, for the same tree and the same known entries, with more unique than referenced bytes |
| `Accounting.UniqueWithinReferencedExactly` | crates/pigtree-engine/src/builder.rs:516-552 | So that condition is exact |
| `Census.UniqueIsSum` | crates/pigtree-engine/src/builder.rs:792-811 | The unique bytes of a directory are the own bytes of the directories and of the files without identity below it, plus one term per identity met there: the least allocation any of its aliases in the target knows |
| `Settlement.FittingTarget` | crates/pigtree-engine/src/builder.rs:799-811 | If the unique bytes of the target fit 64 bits, so do those of every directory, and none is overdrawn |
| `Settlement.ComputeAggregates` | crates/pigtree-engine/src/builder.rs:453-877 | It panics exactly if some directory is overdrawn, and otherwise every directory reports its distinct bytes cut off at 64 bits; all are exact and nothing panics if and only if the target's fit 64 bits; all other reported fields, objects, counters and child slices are right in every run that does not panic |
| `Ingest.LinkKeepsLinks` | crates/pigtree-engine/src/builder.rs:184-203 | Linking a new entry keeps the three link vectors a faithful picture of the parent vector: each child once, in arrival order, no cycles |
| `Builder.GraphBuilder.LocateParent` | crates/pigtree-engine/src/builder.rs:148-182 | In either id scheme the checks find the same parent and report the same error as a search through the accepted ids |
| `Builder.GraphBuilder.SwitchToSparse` | crates/pigtree-engine/src/builder.rs:138-146 | Leaving the dense scheme, at the first id out of sequence, changes no lookup |
| `Builder.GraphBuilder.ValidateAndInsertEntry` | crates/pigtree-engine/src/builder.rs:104-206 | An accepted entry is appended and linked below its parent; a rejected one leaves entries and lookups unchanged; the scheme stays dense while ids are sequential |
| `Builder.GraphBuilder.IngestDirectory` | crates/pigtree-engine/src/builder.rs:208-245 | The builder takes exactly the abstract step for a directory record |
| `Builder.GraphBuilder.IngestFile` | crates/pigtree-engine/src/builder.rs:247-291 | The same for files, with aliases grouped by identity and saturating totals |
| `Builder.GraphBuilder.IngestSpecial` | crates/pigtree-engine/src/builder.rs:293-318 | The same for special objects |
| `Builder.GraphBuilder.IngestStream` | crates/pigtree-engine/src/builder.rs:326-342 | A stream record is kept with the index of its entry, or rejected if there is none |
| `Builder.GraphBuilder.StorageGetIdx` | crates/pigtree-engine/src/builder.rs:344-354 | Both id schemes look up the one accepted entry with the id, and nothing else |
| `Builder.GraphBuilder.IngestTerminal` | crates/pigtree-engine/src/builder.rs:356-399 | A terminal record is accepted exactly if all five totals agree with the records before it |
| `Scan.ComparisonMeaning` | crates/pigtree-engine/src/builder.rs:356-399 | A terminal record passes exactly if all five totals agree; otherwise the error names the first one that does not, and what was declared for it |
| `Builder.GraphBuilder.CompareCounters` | crates/pigtree-engine/src/builder.rs:356-399 | No error exactly if all five totals agree with the builder's counters, otherwise the first disagreement in the source's order |
| `Builder.GraphBuilder.IngestRecord` | crates/pigtree-engine/src/builder.rs:73-102 | For every record in every state: the builder's new state represents the abstract next state, errors agree, and rejected records change nothing |
| `Builder.GraphBuilder.Report` | crates/pigtree-engine/src/builder.rs:957-969 | A progress event carries the totals of the records accepted so far |
| `Builder.GraphBuilder.Finish` | crates/pigtree-engine/src/builder.rs:879-929 | The graph, error or panic that the accepted stream calls for; a dense builder gives a dense graph |
| `Scan.RunStuck` | crates/pigtree-engine/src/builder.rs:947-949 | Once a record is rejected the outcome is decided, whatever follows |
| `Acceptance.AcceptedMeaning` | crates/pigtree-engine/src/builder.rs:73-206 | A stream is accepted exactly if every record fits the ones before it: nothing after a terminal, a fresh id, the first entry a directory without parent, every other below an earlier directory, a stream on an earlier entry, a terminal with the right totals; and then exactly these records are kept |
| `Acceptance.RejectedMeaning` | crates/pigtree-engine/src/builder.rs:73-206 | The first record that does not fit is rejected for the first reason in the source's order, with the ids that reason names, and the records before it are kept |
| `Outcome.ParentsUnique` | crates/pigtree-engine/src/builder.rs:157-193 | The parent vector the builder keeps is the one the parent ids of the stream describe |
| `Outcome.AttributeStreams` | crates/pigtree-engine/src/builder.rs:617-632 | Each object gets the streams of its entries in observation order; streams of entries without object are dropped |
| `Contents.ObjectMeaning` | crates/pigtree-engine/src/builder.rs:463-570 | In every built graph, the object of an identity holds that identity, the number of its aliases, the least allocation any of them knows, their common link count if they know just one, and the status that the values seen call for |
| `Contents.SharedMeaning` | crates/pigtree-engine/src/builder.rs:540-569 | Two entries share an object exactly if both are files of one identity |
| `Contents.LoneMeaning` | crates/pigtree-engine/src/builder.rs:572-615 | An entry that no alias can share has an object of its own exactly if it is a directory with identity or a file whose link count was asked for, with its own evidence; all others have none |
| `Contents.IndeterminateMeaning` | crates/pigtree-engine/src/builder.rs:512-615 | The counter of indeterminate objects is the number of identities without a known count that are not inapplicable, plus the files without identity whose count is unavailable or unobserved |
| `Contents.LeafMeaning` | crates/pigtree-engine/src/builder.rs:746-758 | A file reports its own logical size, its own allocation as referenced, and as unique its object's allocation or else its own; other non-directories report nothing; names, attributes and ids are those of the record |
| `Contents.DirectoryMeaning` | crates/pigtree-engine/src/builder.rs:760-812 | A directory reports the sums over the entries below it, cut off at 64 bits, its unique bytes modulo 2^64, and is known exactly if every entry below it is |
| `Contents.KnownMeaning` | crates/pigtree-engine/src/builder.rs:516-538 | The graph calls its allocated bytes known exactly if every file knows its allocation and no two aliases of it disagree |
| `Contents.StreamsMeaning` | crates/pigtree-engine/src/builder.rs:617-632 | The streams of an object are exactly those recorded for its entries, in observation order, with name and sizes |
| `Contents.EmptyMeaning` | crates/pigtree-engine/src/builder.rs:885-904 | A stream without entries is rejected for its root if the scan claims to be finished, and otherwise gives an empty graph |
| `Outcome.RunSealed` | crates/pigtree-engine/src/builder.rs:356-399 | In every stream, a terminal record among the accepted ones agrees with the records before it |
| `Guarantees.Conservation` | crates/pigtree-engine/src/builder.rs:356-387 | For every accepted stream that is built: even under saturation the root's referenced, known and logical bytes, summed along the tree, are the terminal's totals, summed along the stream |
| `Guarantees.BelowSaturation` | crates/pigtree-engine/src/builder.rs:356-387 | A terminal record that reports less than the largest number shows that nothing saturated |
| `Guarantees.UnsaturatedIsExact` | crates/pigtree-engine/src/builder.rs:747-812 | For every accepted stream whose referenced bytes fit 64 bits, the graph is built and the unique bytes of every directory are exact |
| `Guarantees.UnsaturatedIsBounded` | crates/pigtree-engine/src/builder.rs:747-812 | Then the root's unique bytes are at most its referenced bytes, and so are those of any directory whose objects are reported below it |
| `Guarantees.CutOffUniques` | crates/pigtree-engine/src/builder.rs:792-811 | For every accepted stream: a panic exactly if some directory is overdrawn, and otherwise unique bytes that are right up to a cut-off at 64 bits |
| `Limits.HeavyIsWrong` | crates/pigtree-engine/src/builder.rs:811 | One directory with three files of 2^63 bytes: accepted, built, and the root reports the unique bytes of one file |
| `Limits.SharedPanics` | crates/pigtree-engine/src/builder.rs:799-803 | Two directories that share two objects of 2^63 bytes: accepted, and the engine panics |
| `Limits.LostExceeds` | crates/pigtree-engine/src/builder.rs:516-552 | An object whose only known alias lies in another directory: accepted, built, and its directory reports more unique than referenced bytes |
| `Build.BuildFromReader` | crates/pigtree-engine/src/builder.rs:937-977 | For every stream: the first rejected record decides, then a read error, then settlement; exactly the required progress events are sent; ids in sequence keep the graph dense |
| `Build.PulsesAdvance` | crates/pigtree-engine/src/builder.rs:953-973 | Progress events are numbered from 1 without holes and their counters never go back |
| `Build.PulsePlaces` | crates/pigtree-engine/src/builder.rs:953-973 | Exactly the first record, every gap and every record at which the timer has run out have an event, in stream order, numbered, with the totals up to that record |
| `Build.TerminalPulse` | crates/pigtree-engine/src/builder.rs:953-973 | The event at the terminal record carries the totals the terminal declares |
| `Guarantees.ProgressReachesClient` | crates/pigtree-ipc/src/client.rs:455-583 | In every interleaving the client sees a strictly increasing subsequence of the builder's events, with counters that never go back, and a settled client has seen the last one |
| `Enumeration.FollowIsChain` | crates/pigtree-scan-worker/src/lib.rs:828-904 | Following the distances succeeds exactly on complete well-formed record chains, and a buffer holds at most one |
| `Enumeration.RecordsDisjoint` | crates/pigtree-scan-worker/src/lib.rs:838-877 | The records of an accepted chain do not overlap, and every name lies inside its own record and the buffer |
| `Enumeration.ParseExtdEntries` | crates/pigtree-scan-worker/src/lib.rs:825-906 | The parser accepts exactly the buffers with a complete chain (or too short for a record) and returns one fact per record |
| `Enumeration.TruncatedListing` | crates/pigtree-scan-worker/src/lib.rs:831-853 | A listing cut before the end of its last name is rejected, unless not even one record header is left, which reads as an empty directory |
| `Enumeration.ListingRoundTrip` | crates/pigtree-scan-worker/src/lib.rs:808-906 | Every listing laid out as the structure says, whatever its unused fields and the rest of the buffer, is parsed into exactly its entries: name, sizes, times, attributes, and the identity and link knowledge that the volume's capabilities allow |
| `Enumeration.UnixMsMeaning` | crates/pigtree-scan-worker/src/lib.rs:530-537 | A file time is converted to the millisecond since 1970 that it falls into, and to 0 before |
| `Enumeration.RecordOkMeaning` | crates/pigtree-scan-worker/src/lib.rs:837-877 | A record is well formed exactly if it is the last or its successor is eight-byte aligned behind its header, and its name is not empty, of whole code units, and inside the record and the buffer |
| `Worker.EmitEntry` | crates/pigtree-scan-worker/src/lib.rs:1350-1440 | Every record the loop writes for an entry is accepted by the builder and extends the tree below the current directory |
| `Worker.ListDirectory` | crates/pigtree-scan-worker/src/lib.rs:1350-1440 | One directory's facts become its children, each pushed directory is owed exactly once, and what was visited plus what is owed stays the whole tree |
| `FileSystem.BitTests` | crates/pigtree-scan-worker/src/lib.rs:1360-1362 | The attribute masks test the directory, device and reparse bits |
| `Inventory.RecordDescribes` | crates/pigtree-scan-worker/src/lib.rs:1360-1433 | The record of a listed entry has the kind its attribute bits call for and the entry's own name, attributes, times, identity, allocation, link knowledge and size |
| `Worker.TreeIsCut` | crates/pigtree-scan-worker/src/lib.rs:1264-1440 | The tree written so far is the visible file system with some directories not yet listed |
| `Worker.TerminalAccepted` | crates/pigtree-scan-worker/src/lib.rs:1268-1276 | The terminal record is accepted exactly if the wrapping totals agree with the saturating ones |
| `Worker.CountersAgreeMeaning` | crates/pigtree-scan-worker/src/lib.rs:1378-1394 | They agree up to the first overflow, and after it only if the wrapped value is the largest 64-bit number |
| `FileSystem.NoMisfits` | crates/pigtree-scan-worker/src/lib.rs:1352-1440 | The names that do not fit, counted as a quantity of the file system, are none exactly if every listed name fits |
| `Worker.FactsWeighed` | crates/pigtree-scan-worker/src/lib.rs:1359-1440 | What a listed entry adds to the byte totals is what its record adds |
| `Worker.AllWeighedStep` | crates/pigtree-scan-worker/src/lib.rs:1352-1440 | Writing one entry keeps the balance of every quantity that facts determine: what is written plus what is owed is the whole |
| `Worker.EntriesSized` | crates/pigtree-scan-worker/src/lib.rs:1264-1440 | Every such quantity, summed over the entries written, is that of the root and the whole file system once nothing is owed, and never more before |
| `Worker.GapsStep` | crates/pigtree-scan-worker/src/lib.rs:1395-1413 | Pushing a subdirectory puts its gaps before those of everything already on the stack |
| `Worker.GapsPop` | crates/pigtree-scan-worker/src/lib.rs:1323-1349 | Popping a directory writes its own gap, if it leaves one, at its display path, and the rest is still to come |
| `Worker.NamesDecide` | crates/pigtree-scan-worker/src/lib.rs:1352-1440 | The names of a stream meet a test if those of the file system do, and the other way round once everything is listed |
| `Worker.SizesDecide` | crates/pigtree-scan-worker/src/lib.rs:1268-1276 | The byte sums of the file system decide the acceptance of a finished run, and fitting sums mean acceptance of any run |
| `Worker.ScanDirectory` | crates/pigtree-scan-worker/src/lib.rs:1041-1450 | For every file system, every pattern of failures and every cancellation point: one terminal record, the last; dense ids; the first record describes the target itself; every quantity of the entries equal to that of the file system if the scan finished and at most that otherwise; the gaps are those of the directories that leave one, each once, in visiting order, with display path, code and message, or a prefix of them if cancelled, and one for the target itself if it cannot be read; a finished run accepted exactly if the file system's wrapped and saturated sums agree, any run accepted if they fit; the tree shown is the file system pruned at reparse points and gaps, in full if the scan finished |
| `Inventory.EntriesTallied` | crates/pigtree-scan-worker/src/lib.rs:1350-1440 | For every quantity whatever of kind, name, attributes, times, identity, allocation, link knowledge and size: summed over the entries written it is the one of the target and of all listed entries if the scan finished, and at most that otherwise |
| `Inventory.FilesCounted` | crates/pigtree-scan-worker/src/lib.rs:1350-1440 | So for every identity there are as many file entries as listed entries with that identity and neither the device nor the directory bit |
| `Inventory.EvidenceCounted` | crates/pigtree-scan-worker/src/lib.rs:1350-1440 | The same for every combination of identity, allocation, link knowledge and logical size |
| `Inventory.KindsCounted` | crates/pigtree-scan-worker/src/lib.rs:1350-1440 | The same for every combination of kind, name, attributes, times and identity, the target counting as one directory |
| `Inventory.SeenAsListed` | crates/pigtree-engine/src/builder.rs:463-538 | After a finished scan an identity occurs in the entries exactly if it is listed, with the same set of known allocations and of link knowledge |
| `Inventory.TargetUnique` | crates/pigtree-engine/src/builder.rs:792-811 | Then the unique bytes of the target are a sum over the file system: the allocations of listed files without identity, plus the least known allocation of each identity listed |
| `Inventory.TargetReported` | crates/pigtree-engine/src/builder.rs:792-811 | The root of the built graph reports that sum modulo 2^64, and it is at most the allocated bytes of all entries |
| `Inventory.GapsAreLeft` | crates/pigtree-scan-worker/src/lib.rs:1323-1349 | A gap is in the list exactly if some directory reached without passing a reparse point or an unreadable directory leaves it, with its path below the target, error code and message |
| `Inventory.TraversedGaps` | crates/pigtree-scan-worker/src/lib.rs:1153-1171 | The target is traversed exactly if it is found and has the directory bit, and then the gaps of a scan are those its directories leave |
| `Wire.FieldsRoundTrip` | crates/pigtree-protocol/src/observation.rs:453-476 | Fixed little-endian fields are read back as written |
| `Codec.StringRoundTrip` | crates/pigtree-protocol/src/observation.rs:333-357 | A string of at most 65535 bytes is read back, and what follows it is untouched |
| `Codec.IdentityRoundTrip` | crates/pigtree-protocol/src/observation.rs:359-393 | So is an identity, present or absent |
| `Codec.LinkRoundTrip` | crates/pigtree-protocol/src/observation.rs:395-441 | So is link knowledge of each kind |
| `Codec.RecordRoundTrip` | crates/pigtree-protocol/src/observation.rs:646-857 | Every writable record is read back, and the reader stops right behind it |
| `Codec.Version1RoundTrip` | crates/pigtree-protocol/src/observation.rs:659-792 | An entry in the older stream version reads as the same entry without identity and with link knowledge not observed |
| `Codec.RecordCuts` | crates/pigtree-protocol/src/observation.rs:646-857 | A record cut anywhere inside reads as a premature end in either stream version, never as another record or another error |
| `Format.RecordLayout` | crates/pigtree-protocol/src/observation.rs:453-575 | Tag byte, field order, widths and byte values of every record kind, stated place by place |
| `Format.HeaderLayout` | crates/pigtree-protocol/src/observation.rs:444-451 | A stream starts with the bytes PTWO, version 2 and the target with its length |
| `Format.HeaderRefusals` | crates/pigtree-protocol/src/observation.rs:603-617 | Another first four bytes, or a version other than 1 and 2, is refused as such |
| `Format.FixedRefusals` | crates/pigtree-protocol/src/observation.rs:646-857 | Unknown tags, outcomes and boolean bytes are refused with the offending byte |
| `Stream.ObservationWriter.WriteString` | crates/pigtree-protocol/src/observation.rs:333-348 | A string is written with its length exactly if it fits 16 bits; otherwise nothing is |
| `Stream.ObservationWriter.WriteRecord` | crates/pigtree-protocol/src/observation.rs:453-575 | A record whose strings fit is appended whole; otherwise the part before the offending string stays in the stream |
| `Stream.HeadIsPremature` | crates/pigtree-protocol/src/observation.rs:333-341 | That part reads as a premature end of input |
| `Stream.StreamStops` | crates/pigtree-protocol/src/observation.rs:333-341 | A stream that stops inside a record reads as the records before it and a premature end |
| `Stream.Decode` | crates/pigtree-protocol/src/observation.rs:603-662 | The reader loop ends for every input and yields the records of the stream and the error that ended it |
| `Stream.StreamRoundTrip` | crates/pigtree-protocol/src/observation.rs:444-857 | Every written stream reads as its target and its records, with a clean end |
| `Stream.StreamCut` | crates/pigtree-protocol/src/observation.rs:603-857 | Every strict prefix has no header, or reads as a proper prefix of the records with a clean or premature end |
| `Pipeline.TruncationNeverBuilt` | crates/pigtree-engine/src/builder.rs:879-883 | No strict prefix of a complete stream is built into a graph; the error is a header error, a decode error, an ingest error or the missing terminal |
| `Pipeline.WriteStream` | crates/pigtree-protocol/src/observation.rs:444-575 | The whole stream if all strings fit; otherwise exactly the records before the first that does not, and its head |
| `Pipeline.StoppedRead` | crates/pigtree-protocol/src/observation.rs:603-857 | What was written by then reads as those records with a premature end, or does not open if the target did not fit |
| `Pipeline.DeliveredWritable` | crates/pigtree-protocol/src/observation.rs:333-348 | A worker's stream can be written exactly if the names of its entries and the paths and messages of its gaps can |
| `Pipeline.StringsDecide` | crates/pigtree-protocol/src/observation.rs:333-348 | They can if the strings of the file system fit, and unless the scan was cancelled, only then |
| `Pipeline.RejectedForBytes` | crates/pigtree-engine/src/builder.rs:356-399 | A worker's stream that is rejected is rejected for one of its byte totals, the logical one first |
| `Pipeline.DeliveredInSequence` | crates/pigtree-engine/src/builder.rs:138-146 | A worker's stream never makes the builder leave the dense scheme |
| `Pipeline.ScanToGraph` | crates/pigtree-engine/src/builder.rs:937-977 | From the file system through bytes to the graph: the stream is written if the file system's strings fit, for an uncancelled scan only then, and nothing is built otherwise; a finished scan is rejected exactly if they fit and the byte sums disagree; if they fit and the sums fit 64 bits, the graph is built from exactly what the worker saw, all its unique bytes are exact, and after a finished scan those of the root are the file system's bytes with each listed identity once; there are entries exactly if the target was found, is a directory and the scan was not cancelled at once |
| `Limits.BigScanRejected` | crates/pigtree-scan-worker/src/lib.rs:1412-1415 | Three files of 2^63 - 1 bytes: the scan finishes and its stream is rejected for its logical bytes |
| `Limits.LongTargetUnread` | crates/pigtree-protocol/src/observation.rs:333-348 | A target of 65536 letters: no graph is built, whatever the file system |
| `Limits.DeepGapUnread` | crates/pigtree-scan-worker/src/lib.rs:1325-1336 | A directory that denies access below 256 long but ordinary names: the scan finishes, its gap cannot be written, and no graph is built |
| `Register.StepLinear` | crates/pigtree-protocol/src/crc32c.rs:3-23 | One bit step is linear over exclusive or |
| `Register.ByteStep` | crates/pigtree-protocol/src/crc32c.rs:25-32 | Looking up the low byte and shifting the rest is eight bit steps |
| `Crc32c.BuildTable` | src/PigTree/Protocol/Crc32C.cs:10-31 | Every table entry is eight reflected division steps of its index |
| `Crc32c.TableStepIsSerial` | crates/pigtree-protocol/src/crc32c.rs:27-30 | One table step is the bit-by-bit division of one byte |
| `Crc32c.ComputeCrc32c` | crates/pigtree-protocol/src/crc32c.rs:25-32 | For every input the table-driven checksum is the bit-serial one, which `Polynomial.CrcIsRemainder` shows to be CRC-32C |
| `Polynomial.Division` | crates/pigtree-protocol/src/crc32c.rs:1-32 | Over coefficient lists with exclusive or as addition, every polynomial is a multiple of the generator x^32 + x^28 + ... + 1 of section 12.1 of RFC 3720 plus the computed remainder |
| `Polynomial.SerialIsRemainder` | crates/pigtree-protocol/src/crc32c.rs:3-32 | The bit-serial register, read as coefficients from its low bit, is the remainder of what was shifted in |
| `Polynomial.CrcIsRemainder` | crates/pigtree-protocol/src/crc32c.rs:1-32 | For every input the checksum, bit-reversed, is the complement of the remainder of message times x^32 with the first 32 coefficients complemented |
| `Polynomial.CheckValue` | crates/pigtree-protocol/src/crc32c.rs:40 | The checksum of the nine digits 1 to 9 is 0xE3069283 |
| `Crc32c.ComputeInParts` | src/PigTree/Protocol/Crc32C.cs:33-52 | Updating over header and payload separately gives the checksum of the whole |
| `Crc32c.SerialInjective` | crates/pigtree-protocol/src/crc32c.rs:25-32 | Different registers stay different under the same bits |
| `Crc32c.SerialSurjective` | crates/pigtree-protocol/src/crc32c.rs:25-32 | Every register is reached, so each step is a bijection |
| `Crc32c.BurstInjective` | crates/pigtree-protocol/src/crc32c.rs:25-32 | Two different bursts of at most 32 bits leave different registers |
| `Crc32c.WindowDetected` | crates/pigtree-protocol/src/crc32c.rs:25-32 | Inputs that differ only within four consecutive bytes have different checksums |
| `Frame.EncodeFrame` | crates/pigtree-protocol/src/frame.rs:126-158 | A payload within the limit becomes header, payload and checksum of both; a longer one is refused with its size |
| `Frame.FrameLayout` | crates/pigtree-protocol/src/frame.rs:126-158 | The magic bytes, version, channel, flags, length, payload and checksum of a frame, each at its place |
| `Frame.FrameRoundTrip` | crates/pigtree-protocol/src/frame.rs:126-218 | An encoded frame decodes to itself, whatever follows it |
| `Frame.DamageDetected` | crates/pigtree-protocol/src/frame.rs:197-210 | A payload altered within four consecutive bytes always decodes to a checksum mismatch |
| `Frame.VerdictIsStable` | crates/pigtree-protocol/src/frame.rs:160-218 | Any verdict but the premature end stays the same as more bytes arrive |
| `Frame.VerdictMeaning` | crates/pigtree-protocol/src/frame.rs:160-218 | The verdict on any bytes, check by check in order, with the offending value; a frame is decoded exactly if all pass |
| `Frame.PeekFrameReadiness` | crates/pigtree-ipc/src/pipe.rs:149-204 | Partial exactly where decoding is premature, complete exactly where it succeeds or fails the checksum, and otherwise the same header error |
| `Frame.ByteStream.ReadFrame` | crates/pigtree-protocol/src/frame.rs:227-326 | Reading from a stream agrees with decoding its bytes, takes exactly one frame, or of a refused one as much as was looked at, and ends cleanly only before the first byte |
| `Frame.ReadAllFrames` | crates/pigtree-protocol/src/frame.rs:227-326 | Concatenated frames are read back one by one with nothing left over |
| `Session.StepKeeps` | crates/pigtree-engine/src/main.rs:367-540 | Every step of engine, runner or client keeps the session invariant: what was sent, coalesced or is pending accounts for all progress, and one message settles the scan |
| `Session.ClientSafety` | crates/pigtree-ipc/src/client.rs:455-583 | In every interleaving the client's operation and sequence checks never fail, its pulses are strictly increasing events of the run, and once settled it has seen the last one and only late cancel answers remain |
| `Session.SettlementArrives` | crates/pigtree-ipc/src/client.rs:455-583 | When the engine has settled and everything has been read, the client has settled |
| `Session.FinishedRunSettles` | crates/pigtree-engine/src/main.rs:367-540 | After the run has ended the engine always has a step, and each of its steps brings it closer to the settlement |
| `Session.CancelledForAReason` | crates/pigtree-engine/src/main.rs:543-549 | The client learns of a cancelled scan only if it asked for that or the worker's run was cancelled, and the engine signals a cancel only if asked to |
| `Session.SettledOutcome` | crates/pigtree-engine/src/main.rs:543-660 | In every interleaving a settled client holds the outcome of the graph that was built; with a broken runner cancelled if the cancel was signalled and failed otherwise; and it holds the finished outcome only if the run finished |
| `Session.CancelIsAnswered` | crates/pigtree-engine/src/main.rs:429-438 | Once the engine has read a cancel request, it has signalled the cancel or refused it in an answer |
| `TreeStore.FlattenDistinct` | src/PigTree/Projection/FlattenedTreeProjection.cs:120-131 | The preorder flattening never shows an item twice |
| `TreeStore.FlattenIsShown` | src/PigTree/Projection/FlattenedTreeProjection.cs:120-131 | It shows exactly the items that are reached from the top through expanded items |
| `TreeStore.FlattenOrder` | src/PigTree/Projection/FlattenedTreeProjection.cs:120-131 | It shows every parent before its children, and siblings with all that is below them in the order of their parent's list |
| `TreeStore.DeeperThanTop` | src/PigTree/Projection/FlattenedTreeProjection.cs:166-175 | All descendants of an item are deeper than it |
| `TreeStore.FollowedBySibling` | src/PigTree/Projection/FlattenedTreeProjection.cs:166-175 | What follows the last descendant of an item is not deeper than it |
| `Projection.CollapsedFlattening` | src/PigTree/Projection/FlattenedTreeProjection.cs:150-183 | So a scan by level removes exactly the descendants, and the rest is the flattening of the collapsed tree |
| `Projection.ExpandedFlattening` | src/PigTree/Projection/FlattenedTreeProjection.cs:114-133 | Inserting the new children behind their item gives the flattening of the expanded tree |
| `Projection.FlattenedTreeProjection.InitializeRoot` | src/PigTree/Projection/FlattenedTreeProjection.cs:82-95 | A reset shows just the new root, selected |
| `Projection.FlattenedTreeProjection.BeginExpand` | src/PigTree/Projection/FlattenedTreeProjection.cs:97-111 | A page is asked for exactly if the item has children, is collapsed and is not loading |
| `Projection.FlattenedTreeProjection.FinishExpand` | src/PigTree/Projection/FlattenedTreeProjection.cs:114-147 | Whenever the page arrives, the rows become the flattening of the expanded tree, or only the loading mark goes if the item is no longer shown; selection kept |
| `Projection.FlattenedTreeProjection.Collapse` | src/PigTree/Projection/FlattenedTreeProjection.cs:150-183 | Exactly the descendants go, and a selection among them moves to the item |
| `Projection.FlattenedTreeProjection.ExpandThenCollapse` | src/PigTree/Projection/FlattenedTreeProjection.cs:97-183 | Expanding and collapsing restores rows and selection, whatever page arrived |
| `Projection.FlattenedTreeProjection.NavigateLeft` | src/PigTree/Projection/FlattenedTreeProjection.cs:262-275 | Left collapses an expanded selection, and otherwise moves to the parent, which is always visible; every other row stays |
| `Projection.FlattenedTreeProjection.NavigateRight` | src/PigTree/Projection/FlattenedTreeProjection.cs:232-260 | Right asks for an expansion exactly if one is possible, or moves to the next row exactly if that is a child |
| `PageCache.BoundedPageCache.TryGetPage` | src/PigTree/Projection/BoundedPageCache.cs:23-39 | A hit returns the value last put under the key and makes it the most recent; a miss changes nothing |
| `PageCache.BoundedPageCache.PutPage` | src/PigTree/Projection/BoundedPageCache.cs:41-63 | Dictionary and list stay in bijection and within the bound, the new page is the most recent, and a page evicted for it was the least recently used |
| `PageCache.BoundedPageCache.EvictOldest` | src/PigTree/Projection/BoundedPageCache.cs:52-59 | The eviction loop removes the first node exactly if the cache is full |
| `PageCache.EvictedIsOldest` | src/PigTree/Projection/BoundedPageCache.cs:52-59 | Whatever is gone was used before everything that stayed |
| `Queries.GetFinds` | crates/pigtree-engine/src/graph.rs:109-123 | Every entry is found by its id, except one with the id 0, which sparse ingestion accepts |
| `Queries.GetFindsOnly` | crates/pigtree-engine/src/graph.rs:109-123 | A lookup succeeds exactly for the nonzero ids of entries |
| `Queries.GetChildrenPage` | crates/pigtree-engine/src/graph.rs:436-547 | A page is the requested part of the child ids that are found; a missing or non-directory parent is reported |
| `Queries.ReadAllPages` | crates/pigtree-engine/src/graph.rs:461-544 | Consecutive pages of any positive size concatenate to the whole child list |
| `Queries.PagesAreChildren` | crates/pigtree-engine/src/graph.rs:436-547 | That list is exactly the directory's children, each once and in order, if and only if no child has the id 0 |
| `Queries.DisplayOrder` | crates/pigtree-engine/src/graph.rs:436-547 | The child ids of a directory of any built graph are those of the records below it, directories first, then by falling logical size, folded name, name and id |
| `Queries.ReadDirectory` | crates/pigtree-engine/src/graph.rs:436-547 | Reading all pages of a directory of a built graph, of whatever size, gives its entries in that order, and all of them exactly if none has the id 0 |
| `Queries.RootPage` | crates/pigtree-engine/src/graph.rs:436-547 | The parent id 0 selects the root entry |
| `Queries.DisplayPath` | crates/pigtree-engine/src/graph.rs:289-310 | The loop ends at the root and spells the names on the way down from it |
| `Queries.PathMeaning` | crates/pigtree-engine/src/graph.rs:289-310 | That is the parent's path, a backslash and the name, with one trailing backslash of the root dropped |
| `Queries.HardLinkObjects` | crates/pigtree-engine/src/graph.rs:232-286 | The report lists the relevant objects by their first entry, each with the paths of its entries in stream order |
| `HardLinks.ReportHardLinks` | crates/pigtree-engine/src/graph.rs:232-286 | For nonzero ids the report lists the reported identities in order of their first entry, each with the evidence and all paths of its aliases, as many paths as aliases; in terms of the records, what `HardLinks.ReportMeaning` says |
| `HardLinks.ReportMeaning` | crates/pigtree-engine/src/graph.rs:232-286 | Every summary gives an identity, alias count, link count, status and allocation of its object and the paths of exactly its file entries; what is missing has one alias and no definite status |
| `HardLinks.ReportedMeaning` | crates/pigtree-engine/src/graph.rs:232-247 | An identity is reported exactly if it has several aliases or a definite external status, and never twice |
| `HardLinks.ReportUnique` | crates/pigtree-engine/src/graph.rs:232-286 | Two graphs of one stream give the same report, in whatever order the objects of each were numbered |
| `Calendar.Successor` | crates/pigtree-protocol/src/json.rs:414-423 | Consecutive days give consecutive dates of the proleptic Gregorian calendar |
| `Calendar.CivilIsCalendar` | crates/pigtree-protocol/src/json.rs:414-423 | For every day from 1970 on the arithmetic gives the date counted day by day, which is a valid date, and no subtraction goes below zero |
| `Calendar.DayRoundTrip` | crates/pigtree-protocol/src/json.rs:414-423 | Counting years, months and days back gives the same day number |
| `Calendar.ClockParts` | crates/pigtree-protocol/src/json.rs:408-412 | Hours, minutes and seconds are in range and make up the second |
| `Calendar.IsoRoundTrip` | crates/pigtree-protocol/src/json.rs:400-429 | The text of a timestamp determines its instant to the millisecond, for every time from 1970 on |
| `Calendar.IsoShape` | crates/pigtree-protocol/src/json.rs:425-428 | The separators, the point and the final Z stand at fixed places from the end, and everything else is a digit |
| `CommandLine.QuoteWindowsArg` | crates/pigtree-ipc/src/process.rs:11-45 | The loop with its backslash counter computes the recursive quoting function, adding quotes exactly if they are needed |
| `CommandLine.QuotedExactly` | crates/pigtree-ipc/src/process.rs:11-45 | An argument is left as it is exactly if it is not empty and has no blank, tab, line feed, vertical tab or quote mark; otherwise quote marks enclose it |
| `CommandLine.BuildWindowsCommandLine` | crates/pigtree-ipc/src/process.rs:48-62 | The quoted arguments, separated by single spaces |
| `CommandLine.QuoteRoundTrip` | crates/pigtree-ipc/src/process.rs:11-45 | The splitting rules read every quoted argument back and stop right behind it |
| `CommandLine.CommandLineRoundTrip` | crates/pigtree-ipc/src/process.rs:11-62 | Every argument after a paired program name comes back, whatever strings they are |
| `CommandLine.ProgramSurvives` | crates/pigtree-ipc/src/process.rs:48-62 | All argument lists survive if and only if the program name is paired |
| `CommandLine.QuoteInProgramFails` | crates/pigtree-ipc/src/process.rs:48-62 | A program name with one quote mark before a blank invents an argument |
| `CommandLine.HandleRoundTrip` | crates/pigtree-scan-worker/src/lib.rs:463-511 | Every 64-bit handle is parsed back from its decimal digits |
| `CommandLine.ParseHandleMeaning` | crates/pigtree-scan-worker/src/lib.rs:463-511 | A handle is parsed exactly from a nonempty run of digits, after an optional plus, whose value fits 64 bits |
| `CommandLine.ParseWorkerArgs` | crates/pigtree-scan-worker/src/lib.rs:463-511 | The option loop is a fold over the arguments, and its result is the one that `CommandLine.ParseIsRead` describes |
| `CommandLine.ParseIsRead` | crates/pigtree-scan-worker/src/lib.rs:463-511 | Every argument list is read as options with values and ignored arguments up to its end or to the first one that cannot be read; the result is the last value of each option, the first option missing in the source's order, or the error of that argument |
| `CommandLine.LaunchArguments` | crates/pigtree-engine/src/runner.rs:163-171 | The worker recovers exactly the target and both handles from the runner's command line, for every paired program name and so for every one without a quote mark |

## Left out

- Builder.GraphBuilder.IngestRecord: entries are bounded by 2^32 - 1, one below the mark for an absent link; beyond that the source's 32-bit indices wrap, which is not modelled.
- Worker.ScanDirectory: file systems with 2^32 - 4 or more records are left out, where the source's 32-bit ids overflow; byte totals wrap as in a release build (a debug build panics there); target validation, root attribute queries and the choice of the enumeration class are parameters, and error texts are an arbitrary function of the code.
- Worker.TreeIsCut: the directory tree is finite and does not change during a scan; each directory answers its enumeration once.
- Enumeration.ParseExtdEntries: offsets are unbounded integers (the source's checked additions cannot overflow for a buffer in memory), and UTF-16 conversion is an arbitrary function of the code units. The loop that refills the buffer and the legacy enumeration are not modelled; their outcome is the arbitrary answer of a directory.
- ChildOrder.SortChildren: the library sort is modelled by insertion sort; since the order is total and strict, every sort gives the same result. Lower-casing is an arbitrary function.
- ChildOrder.BuildSlices: children are sorted as entry indices where the source sorts their ids.
- Build.BuildFromReader: the 50 ms timer is an arbitrary function of the record number; the time stamp and the current directory path of a progress event are left out.
- Outcome.AttributeStreams: streams are kept as one list per object number; the map's own order is irrelevant.
- Codec.RecordRoundTrip: UTF-8 is an abstract pair of functions of which decoding undoes encoding and an ASCII character is one byte; version 1 streams are read but never written; attributes and timestamps travel as one bundle.
- Stream.Decode: readers are functions from the remaining bytes to a value and the rest; I/O errors other than the end of input are left out.
- Settlement.ComputeAggregates: the source's vectors are sequences that the methods reassign, except the union-find vector, which is an array; a failed assertion is the result `ok == false`.
- Session.ClientSafety: real time is left out (every timer may fire or not at any moment), pipes carry whole messages, failing pipes and corrupt or half-arrived frames end the source's loops and are not modelled, and the client sends nothing but its scan and at most one cancel, so status and busy answers do not occur. No claim is made about requests after the scan: a late cancel answer may stay unread.
- Projection.FlattenedTreeProjection.FinishExpand: view models are numbered handles; the page cache is verified separately and not wired in; the selection flag of a row and the setter that clears it are left out; one page of children is expanded, as in the source.
- PageCache.BoundedPageCache.PutPage: the lock is left out; calls are atomic.
- Queries.GetChildrenPage: nodes are entries; the projection to protocol messages adds fields of the object record and is left out.
- HardLinks.ReportHardLinks: stated for nonzero ids, because an entry with the id 0 has no path.
- CommandLine.LaunchArguments: arguments are strings; conversion to and from UTF-16 is left out.
- Win32 calls, process and job handling, handshake, nonces and access control, protocol buffers, JSON envelopes, command-line tools and exit codes, views and view models: wide but shallow, or calls into code outside the repository.
- Volume lookup, target validation and the viewer's asynchronous frame reader: queries of the operating system, or a copy of the synchronous form.
