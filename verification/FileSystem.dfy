/** The scanned file system: a finite tree whose directories answer an enumeration in an arbitrary way. */
module FileSystem {
  import opened Words
  import opened Observation
  import opened Register
  import Crc32c

  const FILE_ATTRIBUTE_DIRECTORY: u32 := 0x10
  const FILE_ATTRIBUTE_DEVICE: u32 := 0x40
  const FILE_ATTRIBUTE_REPARSE_POINT: u32 := 0x400
  const ERROR_FILE_NOT_FOUND: u32 := 2
  const ERROR_PATH_NOT_FOUND: u32 := 3
  const ERROR_NO_MORE_FILES: u32 := 18

  /** The bit `mask`, a power of two, of `flags`. */
  predicate HasBit(flags: u32, mask: u32)
    requires mask != 0
  {
    (flags / mask) % 2 == 1
  }

  // ---- Attribute bits

  /** The attribute bit `mask` is set: 0x10 for directories, 0x40 for devices, 0x400 for reparse points. */
  predicate AttributeSet(flags: u32, mask: word) {
    FromInt(flags) & mask != 0
  }

  function Quarter(w: word): word { Half(Half(w)) }

  lemma QuarterInt(w: word)
    ensures ToInt(Quarter(w)) == ToInt(w) / 4
    ensures ToInt(Quarter(Quarter(w))) == ToInt(w) / 16
  {
    hide ToInt, Half, Low;
    HalfInt(w);
    HalfInt(Half(w));
    HalfInt(Quarter(w));
    HalfInt(Half(Quarter(w)));
  }

  lemma LowIsParity(w: word)
    ensures Low(w) <==> ToInt(w) % 2 == 1
  {
    hide ToInt, Half, Low;
    HalfInt(w);
  }

  lemma AttributeIsLow(flags: u32)
    ensures var a := Quarter(Quarter(FromInt(flags)));
      && (AttributeSet(flags, 0x10) <==> Low(a))
      && (AttributeSet(flags, 0x40) <==> Low(Quarter(a)))
      && (AttributeSet(flags, 0x400) <==> Low(Quarter(Quarter(Quarter(a)))))
  {
  }

  lemma Quotients(v: nat)
    ensures v / 16 / 4 == v / 64 && v / 64 / 16 == v / 1024
  {
  }

  /** Bit tests by division are bit tests. */
  lemma BitTests(flags: u32)
    ensures HasBit(flags, 0x10) <==> AttributeSet(flags, 0x10)
    ensures HasBit(flags, 0x40) <==> AttributeSet(flags, 0x40)
    ensures HasBit(flags, 0x400) <==> AttributeSet(flags, 0x400)
  {
    hide ToInt, FromInt, Quarter, AttributeSet, Low, HasBit;
    Crc32c.IntRoundTrip(flags);
    AttributeIsLow(flags);
    var a := Quarter(Quarter(FromInt(flags)));
    var b := Quarter(a);
    QuarterInt(FromInt(flags));
    QuarterInt(a);
    QuarterInt(b);
    Quotients(flags);
    BitByWord(flags, 0x10, a);
    BitByWord(flags, 0x40, b);
    BitByWord(flags, 0x400, Quarter(Quarter(b)));
  }

  lemma BitByWord(flags: u32, mask: u32, w: word)
    requires mask != 0 && ToInt(w) == flags / mask
    ensures HasBit(flags, mask) <==> Low(w)
  {
    hide ToInt, Low;
    LowIsParity(w);
  }

  // ---- Entries and directories

  /** What an enumeration reports about one entry. */
  datatype Fact = Fact(
    name: string,
    meta: Meta,
    objectId: Option<ObjectIdentity>,
    allocatedSize: Option<u64>,
    linkCount: ValueKnowledge,
    logicalSize: u64)

  /** An entry, and what would be found by opening it as a directory. */
  datatype Item = Item(fact: Fact, below: Dir)

  /** The answer of a directory to its enumeration. */
  datatype Dir =
    | Success(items: seq<Item>)
    | Partial(items: seq<Item>, errorCode: u32)
    | OpenFailed(openErrorCode: u32)
    | Interrupted

  function Items(dir: Dir): seq<Item> {
    if dir.Success? || dir.Partial? then dir.items else []
  }

  predicate IsDots(name: string) {
    name == "." || name == ".."
  }

  predicate Descends(fact: Fact) {
    && !HasBit(fact.meta.fileAttributes, FILE_ATTRIBUTE_DEVICE)
    && HasBit(fact.meta.fileAttributes, FILE_ATTRIBUTE_DIRECTORY)
    && !HasBit(fact.meta.fileAttributes, FILE_ATTRIBUTE_REPARSE_POINT)
  }

  function RecordOf(fact: Fact, id: u32, parentId: u32): (r: Record)
    ensures r.IsEntry() && r.entryId == id && r.parentId == parentId && r.name == fact.name
  {
    if HasBit(fact.meta.fileAttributes, FILE_ATTRIBUTE_DEVICE) then
      SpecialRecord(id, parentId, fact.name, fact.meta, fact.objectId)
    else if HasBit(fact.meta.fileAttributes, FILE_ATTRIBUTE_DIRECTORY) then
      DirectoryRecord(id, parentId, fact.name, fact.meta, fact.objectId, fact.allocatedSize, NotApplicable)
    else
      FileRecord(id, parentId, fact.name, fact.meta, fact.objectId, fact.allocatedSize, fact.linkCount, fact.logicalSize)
  }

  /** Whether an unreadable directory leaves a coverage gap. */
  predicate LeavesGap(dir: Dir) {
    dir.Partial? || (dir.OpenFailed? && dir.openErrorCode != ERROR_FILE_NOT_FOUND && dir.openErrorCode != ERROR_NO_MORE_FILES)
  }

  /** The listed entries apart from the dot entries. */
  ghost function Kept(items: seq<Item>): (r: seq<Item>)
    ensures forall i :: 0 <= i < |r| ==> r[i] in items
  {
    if items == [] then []
    else
      var last := items[|items| - 1];
      Kept(items[..|items| - 1]) + (if IsDots(last.fact.name) then [] else [last])
  }

  lemma KeptStep(items: seq<Item>, i: nat)
    requires i < |items|
    ensures Kept(items[..i + 1]) == Kept(items[..i]) + (if IsDots(items[i].fact.name) then [] else [items[i]])
  {
    assert items[..i + 1][..i] == items[..i];
  }

  // ---- The part of the tree a scan may show

  /** A record without its position. */
  function Anonymous(r: Record): (a: Record)
    requires r.IsEntry()
    ensures a.IsEntry()
  {
    match r
    case DirectoryRecord(_, _, name, meta, objectId, alloc, link) => DirectoryRecord(0, 0, name, meta, objectId, alloc, link)
    case FileRecord(_, _, name, meta, objectId, alloc, link, logical) => FileRecord(0, 0, name, meta, objectId, alloc, link, logical)
    case SpecialRecord(_, _, name, meta, objectId) => SpecialRecord(0, 0, name, meta, objectId)
  }

  datatype Tree = Tree(entry: Record, children: seq<Tree>)

  /** The tree of a directory, pruned at reparse points and at what enumerations failed to list. */
  ghost function Visible(entry: Record, dir: Dir): Tree
    decreases dir, 1
  {
    var kept := Kept(Items(dir));
    Tree(entry, seq(|kept|, i requires 0 <= i < |kept| => VisibleItem(dir, kept[i])))
  }

  ghost function VisibleItem(dir: Dir, item: Item): Tree
    requires item in Items(dir)
    decreases dir, 0
  {
    var entry := Anonymous(RecordOf(item.fact, 0, 0));
    if Descends(item.fact) then Visible(entry, item.below) else Tree(entry, [])
  }

  /** `t` shows `full`, except that some directories may not have been listed yet. */
  ghost predicate Cut(t: Tree, full: Tree)
    decreases t
  {
    && t.entry == full.entry
    && (t.children == [] ||
        (|t.children| == |full.children| && forall i :: 0 <= i < |t.children| ==> Cut(t.children[i], full.children[i])))
  }

  // ---- Quantities over the visited part

  /** `own` of every visited directory, plus `each` of every entry listed there. */
  ghost function Measure(dir: Dir, own: Dir -> nat, each: Fact -> nat): nat
    decreases dir, |Items(dir)| + 1
  {
    own(dir) + MeasureItems(dir, |Items(dir)|, own, each)
  }

  ghost function MeasureItems(dir: Dir, m: nat, own: Dir -> nat, each: Fact -> nat): nat
    requires m <= |Items(dir)|
    decreases dir, m
  {
    if m == 0 then 0
    else
      var item := Items(dir)[m - 1];
      MeasureItems(dir, m - 1, own, each)
      + (if IsDots(item.fact.name) then 0 else each(item.fact) + (if Descends(item.fact) then Measure(item.below, own, each) else 0))
  }

  function OneDir(dir: Dir): nat { 1 }

  function NoDir(dir: Dir): nat { 0 }

  function GapHere(dir: Dir): nat { if LeavesGap(dir) then 1 else 0 }

  function OneFact(fact: Fact): nat { 1 }

  function NoFact(fact: Fact): nat { 0 }

  /** The logical bytes an entry adds to the totals: only files have any. */
  function LogicalOfFact(fact: Fact): nat {
    if HasBit(fact.meta.fileAttributes, FILE_ATTRIBUTE_DEVICE) || HasBit(fact.meta.fileAttributes, FILE_ATTRIBUTE_DIRECTORY) then 0
    else fact.logicalSize
  }

  /** The allocated bytes an entry adds: files and directories, visited or not, but no special objects. */
  function AllocatedOfFact(fact: Fact): nat {
    if HasBit(fact.meta.fileAttributes, FILE_ATTRIBUTE_DEVICE) then 0 else fact.allocatedSize.GetOr(0)
  }

  /** The gaps a full visit leaves, the records written for it, and the bytes of the entries it lists. */
  ghost function Gaps(dir: Dir): nat { Measure(dir, GapHere, NoFact) }

  ghost function Records(dir: Dir): nat { Measure(dir, GapHere, OneFact) }

  ghost function LogicalSize(dir: Dir): nat { Measure(dir, NoDir, LogicalOfFact) }

  ghost function AllocatedSize(dir: Dir): nat { Measure(dir, NoDir, AllocatedOfFact) }

  // ---- The gaps of a visit, and its strings

  function ChildPath(path: string, name: string): string {
    if path != "" && path[|path| - 1] == '\\' then path + name else path + "\\" + name
  }

  function GapCode(dir: Dir): u32 {
    match dir
    case Partial(_, errorCode) => errorCode
    case OpenFailed(errorCode) => errorCode
    case _ => 0
  }

  /** The gap a directory at `path` leaves, if it leaves one. */
  function OwnGap(dir: Dir, path: string, message: u32 -> string): seq<Gap> {
    if LeavesGap(dir) then [Gap(path, GapCode(dir), message(GapCode(dir)))] else []
  }

  /** The gaps of a full visit, in visiting order: a directory's own gap comes first, then those below its
      subdirectories, from the last listed to the first. */
  ghost function GapList(dir: Dir, path: string, message: u32 -> string): seq<Gap>
    decreases dir, |Items(dir)| + 1
  {
    OwnGap(dir, path, message) + GapsFrom(dir, path, 0, message)
  }

  /** The gaps below the subdirectories from item `i` on. */
  ghost function GapsFrom(dir: Dir, path: string, i: nat, message: u32 -> string): seq<Gap>
    requires i <= |Items(dir)|
    decreases dir, |Items(dir)| - i
  {
    if i == |Items(dir)| then []
    else
      var item := Items(dir)[i];
      GapsFrom(dir, path, i + 1, message)
      + (if !IsDots(item.fact.name) && Descends(item.fact) then GapList(item.below, ChildPath(path, item.fact.name), message) else [])
  }

  /** Every name a full visit lists meets `fits`. */
  ghost predicate NamesFit(dir: Dir, fits: string -> bool)
    decreases dir
  {
    forall i :: 0 <= i < |Items(dir)| && !IsDots(Items(dir)[i].fact.name) ==>
      fits(Items(dir)[i].fact.name) && (Descends(Items(dir)[i].fact) ==> NamesFit(Items(dir)[i].below, fits))
  }

  function MisfitFact(fits: string -> bool): Fact -> nat {
    (fact: Fact) => if fits(fact.name) then 0 else 1
  }

  /** No listed name fails to fit exactly if their number is zero. */
  lemma {:induction false} NoMisfits(dir: Dir, fits: string -> bool)
    ensures Measure(dir, NoDir, MisfitFact(fits)) == 0 <==> NamesFit(dir, fits)
    decreases dir, |Items(dir)| + 1
  {
    NoMisfitsBelow(dir, |Items(dir)|, fits);
  }

  lemma {:induction false} NoMisfitsBelow(dir: Dir, m: nat, fits: string -> bool)
    requires m <= |Items(dir)|
    ensures MeasureItems(dir, m, NoDir, MisfitFact(fits)) == 0
       <==> forall i :: 0 <= i < m && !IsDots(Items(dir)[i].fact.name) ==>
              fits(Items(dir)[i].fact.name) && (Descends(Items(dir)[i].fact) ==> NamesFit(Items(dir)[i].below, fits))
    decreases dir, m
  {
    hide Measure, NamesFit, Descends, IsDots;
    if m > 0 {
      NoMisfitsBelow(dir, m - 1, fits);
      NoMisfits(Items(dir)[m - 1].below, fits);
    }
  }
}
