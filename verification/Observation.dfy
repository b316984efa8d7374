/** Observation records, the unit of communication between scan worker and engine. */
module Observation {
  import opened Words

  type Guid = g: seq<u8> | |g| == 16 witness seq(16, _ => 0)

  /** Canonical 128-bit object identity within a volume. */
  datatype ObjectIdentity = ObjectIdentity(volumeGuid: Guid, fileId: u128)

  datatype ValueKnowledge = Known(value: u32) | NotObserved | Unavailable | NotApplicable

  datatype ExternalReferenceStatus =
    | ConfirmedNone
    | ConfirmedExternal
    | Indeterminate
    | InconsistentEvidence
    | StatusNotApplicable

  function Derive(totalLinkCount: ValueKnowledge, observedAliasCount: nat): ExternalReferenceStatus {
    match totalLinkCount
    case NotApplicable => StatusNotApplicable
    case Known(k) =>
      if k < observedAliasCount then InconsistentEvidence
      else if k == observedAliasCount then ConfirmedNone
      else ConfirmedExternal
    case NotObserved => Indeterminate
    case Unavailable => Indeterminate
  }

  datatype RunOutcome = Finished | Cancelled | Failed

  /** Attributes and timestamps: copied through, never inspected by the engine. */
  datatype Meta = Meta(
    fileAttributes: u32,
    reparseTag: u32,
    creationTimeUtcMs: u64,
    lastWriteTimeUtcMs: u64,
    lastAccessTimeUtcMs: u64)

  datatype Gap = Gap(path: string, errorCode: u32, errorMessage: string)

  datatype Terminal = Terminal(
    outcome: RunOutcome,
    totalDirectories: u64,
    totalFiles: u64,
    totalLogicalBytes: u64,
    totalAllocatedBytes: u64,
    coverageGapCount: u32,
    durationMs: u64)

  datatype Record =
    | DirectoryRecord(entryId: u32, parentId: u32, name: string, meta: Meta,
                      objectId: Option<ObjectIdentity>, allocatedSize: Option<u64>, linkCount: ValueKnowledge)
    | FileRecord(entryId: u32, parentId: u32, name: string, meta: Meta,
                 objectId: Option<ObjectIdentity>, allocatedSize: Option<u64>, linkCount: ValueKnowledge,
                 logicalSize: u64)
    | SpecialRecord(entryId: u32, parentId: u32, name: string, meta: Meta, objectId: Option<ObjectIdentity>)
    | StreamRecord(parentEntryId: u32, streamName: string, streamLogicalSize: u64, streamAllocatedSize: Option<u64>)
    | GapRecord(gap: Gap)
    | TerminalRecord(terminal: Terminal)
  {
    /** Records that create a directory entry. */
    predicate IsEntry() {
      DirectoryRecord? || FileRecord? || SpecialRecord?
    }
  }
}
