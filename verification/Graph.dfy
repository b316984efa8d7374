/** Entries and object records of a directory graph. */
module Graph {
  import opened Words
  import opened Observation

  /** `NO_OBJECT`: the object index of an entry without an object record. */
  const NO_OBJECT: u32 := U32_MAX

  datatype EntryKind = Directory | File | Special

  datatype CompactEntry = CompactEntry(
    id: u32,
    parentId: u32,
    name: string,
    kind: EntryKind,
    allocatedSizeKnown: bool,
    logicalSize: Option<u64>,
    allocatedSize: Option<u64>,
    referenced: u64,
    unique: u64,
    knownSubtotal: u64,
    objectIndex: u32,
    childStart: u32,
    childCount: u32,
    meta: Meta)

  datatype ObjectRecord = ObjectRecord(
    identity: Option<ObjectIdentity>,
    observedAliasCount: u32,
    totalLinkCount: ValueKnowledge,
    status: ExternalReferenceStatus,
    weight: u64)

  datatype StreamBreakdown = StreamBreakdown(name: string, logicalBytes: u64, allocatedBytes: Option<u64>)
}
